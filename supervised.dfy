/** The supervised OPF classifier and its training step. */
module Supervised {
  import opened Constants
  import opened PriorityQueue
  import opened Graph
  import opened Forest

  class SupervisedOpf {
    /** Whether arc weights are read from the distances matrix. */
    const preComputedDistance: bool
    /** The pre-computed matrix, indexed by original sample identity. */
    const distances: seq<seq<real>>
    /** The distance between two feature vectors, used when nothing is pre-computed. */
    const distance: (seq<real>, seq<real>) -> real
    /** The training graph; set by Fit. */
    var g: Subgraph?

    /** The way this classifier weighs an arc. */
    function Weights(): Metric
    {
      Metric(preComputedDistance, distances, distance)
    }

    constructor (distances: seq<seq<real>>, distance: (seq<real>, seq<real>) -> real, preComputedDistance: bool := false)
      ensures this.preComputedDistance == preComputedDistance
      ensures this.distances == distances && this.distance == distance
      ensures g == null
    {
      this.preComputedDistance := preComputedDistance;
      this.distances := distances;
      this.distance := distance;
      g := null;
    }

    /**
     * Trains the classifier on nodes whose prototype flags are already set.
     * The graph ends in the state Run gives for the order in which the heap
     * handed out the nodes; that order holds each node at most once, and
     * exactly the prototypes and the standard nodes some prototype improves.
     */
    method Fit(nodes: seq<Node>)
      requires Covers(Weights(), nodes)
      modifies this
      ensures g != null && fresh(g) && fresh(g.nodes)
      ensures InRange(nodes, g.idxNodes) && g.nodes[..] == Run(Weights(), nodes, g.idxNodes)
      ensures Distinct(g.idxNodes)
      ensures forall q :: 0 <= q < |nodes| ==> (q in g.idxNodes <==> Reached(Weights(), nodes, q))
      ensures HeapOrder(Weights(), nodes, g.idxNodes) && Exhausted(Weights(), nodes, g.idxNodes)
    {
      var m := Weights();
      var sg := new Subgraph(nodes);
      g := sg;
      var n := sg.NNodes();
      var h := new Heap(n);
      var costs := new real[n](_ => FLOAT_MAX);
      InitialiseRoots(m, nodes, sg, h, costs);
      var removals := SettleAll(m, nodes, sg, h, costs);
      Drained(m, nodes, sg.idxNodes, h.color, h.key);
      SettledExactly(m, nodes, sg.idxNodes);
    }
  }

  /**
   * What holds between two passes of the main loop once idxNodes lists the
   * removed nodes: Consistent, idxNodes is the order in which the heap hands
   * the nodes out, and the graph is the run over idxNodes.
   */
  ghost predicate Progress(m: Metric, nodes: seq<Node>, sg: Subgraph, h: Heap, costs: array<real>)
    reads sg, sg.nodes, h, costs
  {
    && Consistent(m, nodes, sg, h, costs)
    && HeapOrder(m, nodes, sg.idxNodes)
    && sg.nodes[..] == Run(m, nodes, sg.idxNodes)
  }

  /**
   * What one pass needs and keeps: the costs array keeps its seeds, the
   * nodes keep their identity and features, and the heap agrees with
   * idxNodes as HeapMatches says.
   */
  ghost predicate Consistent(m: Metric, nodes: seq<Node>, sg: Subgraph, h: Heap, costs: array<real>)
    reads sg, sg.nodes, h, costs
  {
    && Covers(m, nodes)
    && sg.nodes.Length == |nodes| && h.Valid() && h.size == |nodes| && costs.Length == |nodes|
    && (forall j :: 0 <= j < |nodes| ==> costs[j] == SeedCost(nodes[j]))
    && (forall j :: 0 <= j < |nodes| ==>
         sg.nodes[j].idx == nodes[j].idx && sg.nodes[j].features == nodes[j].features)
    && HeapMatches(m, nodes, sg.idxNodes, h.color, h.key)
  }

  /**
   * The heap side of Consistent, over values: the Black indices are exactly
   * the settled ones, the ever queued ones are the prototypes and the nodes
   * some settled node improves, and the keys are Key.
   */
  ghost predicate HeapMatches(m: Metric, nodes: seq<Node>, order: seq<nat>, color: seq<Color>, key: seq<real>)
    requires Covers(m, nodes)
  {
    && InRange(nodes, order) && Distinct(order)
    && |color| == |nodes|
    && (forall j :: 0 <= j < |nodes| ==> (color[j] == Black <==> j in order))
    && (forall j :: 0 <= j < |nodes| ==>
         (color[j] != White <==> nodes[j].status == Prototype || LastImprover(m, nodes, order, j).Some?))
    && key == Keys(m, nodes, order)
  }

  /**
   * Once no heap color is Gray, nothing is queued: the settled nodes are
   * exactly the prototypes and the nodes some settled node improves.
   */
  lemma Drained(m: Metric, nodes: seq<Node>, order: seq<nat>, color: seq<Color>, key: seq<real>)
    requires Covers(m, nodes) && HeapMatches(m, nodes, order, color, key)
    requires forall j :: 0 <= j < |nodes| ==> color[j] != Gray
    ensures Exhausted(m, nodes, order)
    ensures forall q :: 0 <= q < |nodes| ==>
      (q in order <==> nodes[q].status == Prototype || LastImprover(m, nodes, order, q).Some?)
  {
  }

  /**
   * The initialisation loop: every prototype gets pred NIL, cost 0 in costs
   * and its own label as predicted label, and is queued; nothing else moves.
   */
  method InitialiseRoots(m: Metric, nodes: seq<Node>, sg: Subgraph, h: Heap, costs: array<real>)
    requires Covers(m, nodes) && sg.idxNodes == []
    requires sg.nodes[..] == nodes && h.Valid() && h.size == |nodes| && costs.Length == |nodes|
    requires h.color == seq(|nodes|, _ => White) && h.key == seq(|nodes|, _ => FLOAT_MAX)
    requires forall j :: 0 <= j < |nodes| ==> costs[j] == FLOAT_MAX
    modifies sg.nodes, h, costs
    ensures Progress(m, nodes, sg, h, costs)
    ensures h.key == old(h.key)
    ensures sg.nodes[..] == Initialise(nodes)
    ensures forall j :: 0 <= j < |nodes| ==> costs[j] == SeedCost(nodes[j])
    ensures forall j :: 0 <= j < |nodes| ==> h.color[j] == if nodes[j].status == Prototype then Gray else White
  {
    var n := sg.NNodes();
    var i := 0;
    while i < n
      invariant 0 <= i <= n
      invariant h.Valid() && h.size == n && h.key == old(h.key)
      invariant forall j :: 0 <= j < n ==> costs[j] == if j < i then SeedCost(nodes[j]) else FLOAT_MAX
      invariant forall j :: 0 <= j < n ==> sg.nodes[j] == if j < i then Initialise(nodes)[j] else nodes[j]
      invariant forall j :: 0 <= j < n ==>
        h.color[j] == if j < i && nodes[j].status == Prototype then Gray else White
    {
      if sg.nodes[i].status == Prototype {
        sg.nodes[i] := sg.nodes[i].(pred := NIL);
        costs[i] := 0.0;
        sg.nodes[i] := sg.nodes[i].(predictedLabel := sg.nodes[i].trueLabel);
        h.Insert(i);
      }
      i := i + 1;
    }
    assert sg.nodes[..] == Run(m, nodes, []);
  }

  /**
   * The main loop: settle nodes until the heap is empty. The counter i
   * returns the number of removals, and the nodes settled before stay at
   * the head of idxNodes.
   */
  method SettleAll(m: Metric, nodes: seq<Node>, sg: Subgraph, h: Heap, costs: array<real>) returns (i: nat)
    requires Progress(m, nodes, sg, h, costs)
    modifies sg, sg.nodes, h
    ensures Progress(m, nodes, sg, h, costs)
    ensures forall j :: 0 <= j < |nodes| ==> h.color[j] != Gray
    ensures |sg.idxNodes| == |old(sg.idxNodes)| + i && old(sg.idxNodes) <= sg.idxNodes
  {
    i := 0;
    var empty := h.IsEmpty();
    while !empty
      invariant Progress(m, nodes, sg, h, costs)
      invariant |sg.idxNodes| == |old(sg.idxNodes)| + i && old(sg.idxNodes) <= sg.idxNodes
      invariant empty <==> forall j :: 0 <= j < |nodes| ==> h.color[j] != Gray
      decreases |h.Unremoved()|
    {
      var p := Advance(m, nodes, sg, h, costs);
      i := i + 1;
      empty := h.IsEmpty();
    }
  }

  /**
   * One pass of the main loop seen from Progress: the heap hands out the
   * node Chosen describes, and the graph is the run over the longer order.
   */
  method Advance(m: Metric, nodes: seq<Node>, sg: Subgraph, h: Heap, costs: array<real>) returns (p: nat)
    requires Progress(m, nodes, sg, h, costs)
    requires exists j :: 0 <= j < |nodes| && h.color[j] == Gray
    modifies sg, sg.nodes, h
    ensures Progress(m, nodes, sg, h, costs)
    ensures p < |nodes| && sg.idxNodes == old(sg.idxNodes) + [p]
    ensures Chosen(m, nodes, old(sg.idxNodes), p)
    ensures p in old(h.Unremoved()) && h.Unremoved() == old(h.Unremoved()) - {p}
  {
    ghost var prev := sg.idxNodes;
    p := SettleNext(m, nodes, sg, h, costs);
    RunStep(m, nodes, prev, p);
    HeapOrderStep(m, nodes, prev, p);
  }

  /**
   * One pass of the main loop: remove the node p the heap hands out, append
   * it to idxNodes, fix its cost field to costs[p] and relax the others from
   * it; the graph takes one Settle step.
   */
  method SettleNext(m: Metric, nodes: seq<Node>, sg: Subgraph, h: Heap, costs: array<real>) returns (p: nat)
    requires Consistent(m, nodes, sg, h, costs)
    requires exists j :: 0 <= j < |nodes| && h.color[j] == Gray
    modifies sg, sg.nodes, h
    ensures Consistent(m, nodes, sg, h, costs)
    ensures p < |nodes| && sg.idxNodes == old(sg.idxNodes) + [p]
    ensures sg.nodes[..] == Settle(m, nodes, old(sg.nodes[..]), p)
    ensures old(h.color[p]) == Gray && Chosen(m, nodes, old(sg.idxNodes), p)
    ensures p in old(h.Unremoved()) && h.Unremoved() == old(h.Unremoved()) - {p}
  {
    ghost var prev, before, was, key := sg.idxNodes, sg.nodes[..], h.color, h.key;
    p := Visit(sg, h, costs);
    RelaxFrom(m, nodes, sg, h, costs, p);
    ghost var after := Settle(m, nodes, before, p);
    assert sg.nodes[..] == after by {
      forall j | 0 <= j < |nodes| ensures sg.nodes[j] == after[j] { }
    }
    HeapAfterStep(m, nodes, prev, p, was, key, h.color, h.key);
  }

  /**
   * The head of a pass: remove the node p the heap hands out, append it to
   * idxNodes and copy costs[p] into its cost field.
   */
  method Visit(sg: Subgraph, h: Heap, costs: array<real>) returns (p: nat)
    requires h.Valid() && h.size == sg.nodes.Length && costs.Length == sg.nodes.Length
    requires exists j :: 0 <= j < h.size && h.color[j] == Gray
    modifies sg, sg.nodes, h
    ensures h.Valid() && h.key == old(h.key) && p < sg.nodes.Length
    ensures old(h.color[p]) == Gray && h.color == old(h.color)[p := Black]
    ensures forall j :: 0 <= j < h.size && old(h.color[j]) == Gray ==> h.key[p] <= h.key[j]
    ensures forall j :: 0 <= j < p && old(h.color[j]) == Gray ==> h.key[p] < h.key[j]
    ensures p in old(h.Unremoved()) && h.Unremoved() == old(h.Unremoved()) - {p}
    ensures sg.idxNodes == old(sg.idxNodes) + [p]
    ensures sg.nodes[..] == old(sg.nodes[..])[p := old(sg.nodes[p]).(cost := costs[p])]
  {
    p := h.Remove();
    sg.idxNodes := sg.idxNodes + [p];
    sg.nodes[p] := sg.nodes[p].(cost := costs[p]);
  }

  /**
   * One pass keeps the heap side of Progress: removing p, which is the
   * queued node of least key (lowest index on ties), and relaxing from it
   * leaves the colors and keys that Key and LastImprover give for idxNodes
   * with p appended.
   */
  lemma HeapAfterStep(m: Metric, nodes: seq<Node>, prev: seq<nat>, p: nat,
                      was: seq<Color>, key: seq<real>, now: seq<Color>, key': seq<real>)
    requires Covers(m, nodes) && p < |nodes| && HeapMatches(m, nodes, prev, was, key)
    requires was[p] == Gray
    requires forall j :: 0 <= j < |nodes| && was[j] == Gray ==> key[p] <= key[j]
    requires forall j :: 0 <= j < p && was[j] == Gray ==> key[p] < key[j]
    requires |now| == |nodes| && |key'| == |nodes| && now[p] == Black
    requires forall j :: 0 <= j < |nodes| && j != p ==>
      now[j] == if Improves(m, nodes, p, j) && was[j] == White then Gray else was[j]
    requires forall j :: 0 <= j < |nodes| ==>
      key'[j] == if Improves(m, nodes, p, j)
        then Max(SeedCost(nodes[p]), Weight(m, nodes[p], nodes[j]))
        else key[j]
    ensures Chosen(m, nodes, prev, p)
    ensures HeapMatches(m, nodes, prev + [p], now, key')
  {
    RemovedIsChosen(m, nodes, prev, p, was, key);
    ColorsAfterStep(m, nodes, prev, p, was, now);
    KeysAfterStep(m, nodes, prev, p, key, key');
  }

  /**
   * The node remove hands out is the one Chosen describes, since the Gray
   * nodes are the queued ones and the heap keys are Key.
   */
  lemma RemovedIsChosen(m: Metric, nodes: seq<Node>, prev: seq<nat>, p: nat, was: seq<Color>, key: seq<real>)
    requires Covers(m, nodes) && p < |nodes| && HeapMatches(m, nodes, prev, was, key) && was[p] == Gray
    requires forall j :: 0 <= j < |nodes| && was[j] == Gray ==> key[p] <= key[j]
    requires forall j :: 0 <= j < p && was[j] == Gray ==> key[p] < key[j]
    ensures Chosen(m, nodes, prev, p)
  {
  }

  /** The heap keys after one pass are Keys again, now over idxNodes with p appended. */
  lemma KeysAfterStep(m: Metric, nodes: seq<Node>, prev: seq<nat>, p: nat, was: seq<real>, now: seq<real>)
    requires Covers(m, nodes) && InRange(nodes, prev) && p < |nodes|
    requires was == Keys(m, nodes, prev) && |now| == |nodes|
    requires forall j :: 0 <= j < |nodes| ==>
      now[j] == if Improves(m, nodes, p, j)
        then Max(SeedCost(nodes[p]), Weight(m, nodes[p], nodes[j]))
        else was[j]
    ensures InRange(nodes, prev + [p]) && now == Keys(m, nodes, prev + [p])
  {
    KeyStep(m, nodes, prev, p);
  }

  /**
   * The heap colors after one pass are Colors again: p turns Black and the
   * White nodes p improves turn Gray.
   */
  lemma ColorsAfterStep(m: Metric, nodes: seq<Node>, prev: seq<nat>, p: nat, was: seq<Color>, now: seq<Color>)
    requires Covers(m, nodes) && InRange(nodes, prev) && Distinct(prev) && p < |nodes|
    requires |was| == |nodes| && |now| == |nodes| && was[p] == Gray
    requires forall j :: 0 <= j < |nodes| ==> (was[j] == Black <==> j in prev)
    requires forall j :: 0 <= j < |nodes| ==>
      (was[j] != White <==> nodes[j].status == Prototype || LastImprover(m, nodes, prev, j).Some?)
    requires now[p] == Black
    requires forall j :: 0 <= j < |nodes| && j != p ==>
      now[j] == if Improves(m, nodes, p, j) && was[j] == White then Gray else was[j]
    ensures InRange(nodes, prev + [p]) && Distinct(prev + [p])
    ensures forall j :: 0 <= j < |nodes| ==> (now[j] == Black <==> j in prev + [p])
    ensures forall j :: 0 <= j < |nodes| ==>
      (now[j] != White <==> nodes[j].status == Prototype || LastImprover(m, nodes, prev + [p], j).Some?)
  {
  }

  /**
   * The inner loop for the removed node p: every other node q with
   * costs[p] < costs[q] and max(costs[p], weight) < costs[q] takes p as
   * predecessor and p's predicted label, and the heap gets update(q, that
   * maximum). The costs array itself is left alone.
   */
  method RelaxFrom(m: Metric, nodes: seq<Node>, sg: Subgraph, h: Heap, costs: array<real>, p: nat)
    requires Covers(m, nodes) && p < |nodes|
    requires sg.nodes.Length == |nodes| && h.Valid() && h.size == |nodes| && costs.Length == |nodes|
    requires forall j :: 0 <= j < |nodes| ==> costs[j] == SeedCost(nodes[j])
    requires forall j :: 0 <= j < |nodes| ==>
      sg.nodes[j].idx == nodes[j].idx && sg.nodes[j].features == nodes[j].features
    modifies sg.nodes, h
    ensures h.Valid() && h.size == |nodes| && h.Unremoved() == old(h.Unremoved())
    ensures forall j :: 0 <= j < |nodes| ==>
      sg.nodes[j] == if Improves(m, nodes, p, j)
        then old(sg.nodes[j]).(pred := p, predictedLabel := old(sg.nodes[p]).predictedLabel)
        else old(sg.nodes[j])
    ensures forall j :: 0 <= j < |nodes| ==>
      h.color[j] == if Improves(m, nodes, p, j) && old(h.color[j]) == White then Gray else old(h.color[j])
    ensures forall j :: 0 <= j < |nodes| ==>
      h.key[j] == if Improves(m, nodes, p, j)
        then Max(SeedCost(nodes[p]), Weight(m, nodes[p], nodes[j]))
        else old(h.key[j])
  {
    var n := sg.NNodes();
    var q := 0;
    while q < n
      invariant 0 <= q <= n
      invariant h.Valid() && h.size == n && h.Unremoved() == old(h.Unremoved())
      invariant forall j :: 0 <= j < n ==>
        sg.nodes[j] == if j < q && Improves(m, nodes, p, j)
          then old(sg.nodes[j]).(pred := p, predictedLabel := old(sg.nodes[p]).predictedLabel)
          else old(sg.nodes[j])
      invariant forall j :: 0 <= j < n ==>
        h.color[j] == if j < q && Improves(m, nodes, p, j) && old(h.color[j]) == White then Gray else old(h.color[j])
      invariant forall j :: 0 <= j < n ==>
        h.key[j] == if j < q && Improves(m, nodes, p, j)
          then Max(SeedCost(nodes[p]), Weight(m, nodes[p], nodes[j]))
          else old(h.key[j])
    {
      Offer(m, nodes, sg, h, costs, p, q);
      q := q + 1;
    }
  }

  /**
   * The body of the inner loop for one q: when p improves q, q takes p as
   * predecessor and p's predicted label, and the heap key of q becomes the
   * candidate max(costs[p], weight); otherwise nothing changes.
   */
  method Offer(m: Metric, nodes: seq<Node>, sg: Subgraph, h: Heap, costs: array<real>, p: nat, q: nat)
    requires Covers(m, nodes) && p < |nodes| && q < |nodes|
    requires sg.nodes.Length == |nodes| && h.Valid() && h.size == |nodes| && costs.Length == |nodes|
    requires costs[p] == SeedCost(nodes[p]) && costs[q] == SeedCost(nodes[q])
    requires sg.nodes[p].idx == nodes[p].idx && sg.nodes[p].features == nodes[p].features
    requires sg.nodes[q].idx == nodes[q].idx && sg.nodes[q].features == nodes[q].features
    modifies sg.nodes, h
    ensures h.Valid() && h.size == |nodes| && h.Unremoved() == old(h.Unremoved())
    ensures sg.nodes[..] == old(sg.nodes[..])[q := if Improves(m, nodes, p, q)
      then old(sg.nodes[q]).(pred := p, predictedLabel := old(sg.nodes[p]).predictedLabel) else old(sg.nodes[q])]
    ensures h.key == old(h.key)[q := if Improves(m, nodes, p, q)
      then Max(SeedCost(nodes[p]), Weight(m, nodes[p], nodes[q])) else old(h.key[q])]
    ensures h.color == old(h.color)[q := if Improves(m, nodes, p, q) && old(h.color[q]) == White
      then Gray else old(h.color[q])]
  {
    if p != q {
      if costs[p] < costs[q] {
        var weight: real;
        if m.preComputed {
          weight := m.distances[sg.nodes[p].idx][sg.nodes[q].idx];
        } else {
          weight := m.distance(sg.nodes[p].features, sg.nodes[q].features);
        }
        var currentCost := Max(costs[p], weight);
        if currentCost < costs[q] {
          sg.nodes[q] := sg.nodes[q].(pred := p);
          sg.nodes[q] := sg.nodes[q].(predictedLabel := sg.nodes[p].predictedLabel);
          h.Update(q, currentCost);
        }
      }
    }
  }
}
