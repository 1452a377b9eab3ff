/**
 * The training step with its evidently intended cost bookkeeping: the
 * guards read, and the relaxation lowers, the same costs the heap orders by
 * (prototypes enter the heap at cost 0 and an improved node's cost drops to
 * the candidate). For it the classical optimum-path forest properties hold.
 */
module Intended {
  import opened Constants
  import opened PriorityQueue
  import opened Graph
  import opened Forest

  /** The guards of the inner loop, read against the current costs. */
  predicate Lowers(m: Metric, nodes: seq<Node>, key: seq<real>, p: nat, q: nat)
    requires Covers(m, nodes) && |key| == |nodes| && p < |nodes| && q < |nodes|
  {
    p != q && key[p] < key[q] && Max(key[p], Weight(m, nodes[p], nodes[q])) < key[q]
  }

  /** The k-th settled node hangs from a node settled before it, through the minimax rule. */
  ghost predicate HangsFrom(m: Metric, nodes: seq<Node>, a: seq<Node>, order: seq<nat>, k: nat)
    requires Covers(m, nodes) && |a| == |nodes| && InRange(nodes, order) && k < |order|
  {
    var q, r := order[k], a[order[k]].pred;
    && 0 <= r < |nodes|
    && r in order[..k]
    && a[q].cost == Max(a[r].cost, Weight(m, nodes[r], nodes[q]))
    && a[q].predictedLabel == a[r].predictedLabel
  }

  /**
   * What a trained graph should be: every prototype is a settled root; every
   * other settled node hangs from an earlier settled node; costs never
   * decrease along the settling order; no settled node offers another a
   * cheaper path; and no settled node reaches an unsettled one below
   * FLOAT_MAX.
   */
  ghost predicate OptimumPathForest(m: Metric, nodes: seq<Node>, a: seq<Node>, order: seq<nat>)
    requires Covers(m, nodes)
  {
    && |a| == |nodes| && InRange(nodes, order) && Distinct(order)
    && (forall j :: 0 <= j < |nodes| && nodes[j].status == Prototype ==>
          j in order && a[j].cost == 0.0 && a[j].pred == NIL && a[j].predictedLabel == nodes[j].trueLabel)
    && (forall k :: 0 <= k < |order| && nodes[order[k]].status == Standard ==> HangsFrom(m, nodes, a, order, k))
    && (forall k, l :: 0 <= k < l < |order| ==> a[order[k]].cost <= a[order[l]].cost)
    && (forall k, l :: 0 <= k < |order| && 0 <= l < |order| && k != l ==>
          a[order[l]].cost <= Max(a[order[k]].cost, Weight(m, nodes[order[k]], nodes[order[l]])))
    && (forall k, j :: 0 <= k < |order| && 0 <= j < |nodes| && j !in order ==>
          FLOAT_MAX <= Max(a[order[k]].cost, Weight(m, nodes[order[k]], nodes[j])))
  }

  // The loop invariant, in five parts over the heap's keys and colors, the
  // graph and the settling order.

  ghost predicate Shape(nodes: seq<Node>, key: seq<real>, color: seq<Color>, a: seq<Node>, order: seq<nat>)
  {
    && |key| == |nodes| && |color| == |nodes| && |a| == |nodes|
    && (forall j :: 0 <= j < |nodes| ==>
          && a[j].idx == nodes[j].idx && a[j].features == nodes[j].features
          && a[j].status == nodes[j].status && a[j].trueLabel == nodes[j].trueLabel)
    && InRange(nodes, order) && Distinct(order)
    && (forall j :: 0 <= j < |nodes| ==> (color[j] == Black <==> j in order))
  }

  ghost predicate KeyBounds(nodes: seq<Node>, key: seq<real>, color: seq<Color>, a: seq<Node>)
    requires |key| == |nodes| && |color| == |nodes| && |a| == |nodes|
  {
    && (forall j :: 0 <= j < |nodes| ==> 0.0 <= key[j] <= FLOAT_MAX)
    && (forall j :: 0 <= j < |nodes| && color[j] == White ==>
          key[j] == FLOAT_MAX && nodes[j].status == Standard)
    && (forall j :: 0 <= j < |nodes| && color[j] != White && nodes[j].status == Standard ==>
          key[j] < FLOAT_MAX)
    && (forall j :: 0 <= j < |nodes| && nodes[j].status == Prototype ==>
          key[j] == 0.0 && a[j].pred == NIL && a[j].predictedLabel == nodes[j].trueLabel)
  }

  ghost predicate SettledFirst(nodes: seq<Node>, key: seq<real>, color: seq<Color>, a: seq<Node>, order: seq<nat>)
    requires |key| == |nodes| && |color| == |nodes| && |a| == |nodes| && InRange(nodes, order)
  {
    && (forall k :: 0 <= k < |order| ==> a[order[k]].cost == key[order[k]])
    && (forall k, l :: 0 <= k < l < |order| ==> key[order[k]] <= key[order[l]])
    && (forall k, j :: 0 <= k < |order| && 0 <= j < |nodes| && color[j] != Black ==> key[order[k]] <= key[j])
  }

  ghost predicate Optimal(m: Metric, nodes: seq<Node>, key: seq<real>, order: seq<nat>)
    requires Covers(m, nodes) && |key| == |nodes| && InRange(nodes, order)
  {
    forall k, j :: 0 <= k < |order| && 0 <= j < |nodes| && j != order[k] ==>
      key[j] <= Max(key[order[k]], Weight(m, nodes[order[k]], nodes[j]))
  }

  ghost predicate Parent(m: Metric, nodes: seq<Node>, key: seq<real>, a: seq<Node>, order: seq<nat>, j: nat)
    requires Covers(m, nodes) && |key| == |nodes| && |a| == |nodes| && j < |nodes|
  {
    var r := a[j].pred;
    && 0 <= r < |nodes| && r != j && r in order
    && key[j] == Max(key[r], Weight(m, nodes[r], nodes[j]))
    && a[j].predictedLabel == a[r].predictedLabel
  }

  ghost predicate Tree(m: Metric, nodes: seq<Node>, key: seq<real>, a: seq<Node>, order: seq<nat>)
    requires Covers(m, nodes) && |key| == |nodes| && |a| == |nodes| && InRange(nodes, order)
  {
    && (forall j :: 0 <= j < |nodes| && nodes[j].status == Standard && key[j] < FLOAT_MAX ==>
          Parent(m, nodes, key, a, order, j))
    && (forall k :: 0 <= k < |order| && nodes[order[k]].status == Standard ==> a[order[k]].pred in order[..k])
  }

  ghost predicate Inv(m: Metric, nodes: seq<Node>, key: seq<real>, color: seq<Color>, a: seq<Node>, order: seq<nat>)
  {
    && Covers(m, nodes)
    && Shape(nodes, key, color, a, order)
    && KeyBounds(nodes, key, color, a)
    && SettledFirst(nodes, key, color, a, order)
    && Optimal(m, nodes, key, order)
    && Tree(m, nodes, key, a, order)
  }

  /** The state one pass of the loop leaves, given the removed node p. */
  ghost predicate Step(m: Metric, nodes: seq<Node>,
                       key: seq<real>, color: seq<Color>, a: seq<Node>, order: seq<nat>, p: nat,
                       key': seq<real>, color': seq<Color>, a': seq<Node>, order': seq<nat>)
    requires Covers(m, nodes) && |key| == |nodes| && |color| == |nodes| && |a| == |nodes| && p < |nodes|
  {
    && |key'| == |nodes| && |color'| == |nodes| && |a'| == |nodes|
    && order' == order + [p]
    && (forall j :: 0 <= j < |nodes| ==>
          key'[j] == if Lowers(m, nodes, key, p, j) then Max(key[p], Weight(m, nodes[p], nodes[j])) else key[j])
    && (forall j :: 0 <= j < |nodes| ==>
          a'[j] == if Lowers(m, nodes, key, p, j) then a[j].(pred := p, predictedLabel := a[p].predictedLabel)
                   else if j == p then a[p].(cost := key[p])
                   else a[j])
    && (forall j :: 0 <= j < |nodes| ==>
          color'[j] == if j == p then Black
                       else if Lowers(m, nodes, key, p, j) && color[j] == White then Gray
                       else color[j])
  }

  /** The removed node is queued and has a least key among the queued nodes. */
  ghost predicate Removable(nodes: seq<Node>, key: seq<real>, color: seq<Color>, p: nat)
    requires |key| == |nodes| && |color| == |nodes| && p < |nodes|
  {
    color[p] == Gray && forall j :: 0 <= j < |nodes| && color[j] == Gray ==> key[p] <= key[j]
  }

  /** A settled node is never lowered again, and a lowered key stays at or above key[p]. */
  lemma StepBasics(m: Metric, nodes: seq<Node>,
                   key: seq<real>, color: seq<Color>, a: seq<Node>, order: seq<nat>, p: nat,
                   key': seq<real>, color': seq<Color>, a': seq<Node>, order': seq<nat>)
    requires Inv(m, nodes, key, color, a, order) && p < |nodes| && Removable(nodes, key, color, p)
    requires Step(m, nodes, key, color, a, order, p, key', color', a', order')
    ensures p !in order
    ensures forall j :: 0 <= j < |nodes| && color[j] == Black ==> !Lowers(m, nodes, key, p, j)
    ensures forall j :: 0 <= j < |nodes| ==> key[p] <= key'[j] || color[j] == Black
    ensures forall j :: 0 <= j < |nodes| ==> key'[j] <= key[j]
    ensures key'[p] == key[p] && a'[p] == a[p].(cost := key[p])
  {

  }

  lemma StepShape(m: Metric, nodes: seq<Node>,
                  key: seq<real>, color: seq<Color>, a: seq<Node>, order: seq<nat>, p: nat,
                  key': seq<real>, color': seq<Color>, a': seq<Node>, order': seq<nat>)
    requires Inv(m, nodes, key, color, a, order) && p < |nodes| && Removable(nodes, key, color, p)
    requires Step(m, nodes, key, color, a, order, p, key', color', a', order')
    ensures Shape(nodes, key', color', a', order')
  {

  }

  lemma StepKeys(m: Metric, nodes: seq<Node>,
                 key: seq<real>, color: seq<Color>, a: seq<Node>, order: seq<nat>, p: nat,
                 key': seq<real>, color': seq<Color>, a': seq<Node>, order': seq<nat>)
    requires Inv(m, nodes, key, color, a, order) && p < |nodes| && Removable(nodes, key, color, p)
    requires Step(m, nodes, key, color, a, order, p, key', color', a', order')
    ensures KeyBounds(nodes, key', color', a')
  {

  }

  lemma StepSettled(m: Metric, nodes: seq<Node>,
                    key: seq<real>, color: seq<Color>, a: seq<Node>, order: seq<nat>, p: nat,
                    key': seq<real>, color': seq<Color>, a': seq<Node>, order': seq<nat>)
    requires Inv(m, nodes, key, color, a, order) && p < |nodes| && Removable(nodes, key, color, p)
    requires Step(m, nodes, key, color, a, order, p, key', color', a', order')
    ensures Shape(nodes, key', color', a', order')
    ensures SettledFirst(nodes, key', color', a', order')
  {
    StepBasics(m, nodes, key, color, a, order, p, key', color', a', order');
    StepShape(m, nodes, key, color, a, order, p, key', color', a', order');
    forall k | 0 <= k < |order'| ensures a'[order'[k]].cost == key'[order'[k]] && key'[order'[k]] == key[order'[k]] {
      if k < |order| {
        assert order'[k] == order[k] && color[order[k]] == Black;
      }
    }
    forall k, l | 0 <= k < l < |order'| ensures key'[order'[k]] <= key'[order'[l]] {
      assert order'[k] == order[k];
      if l < |order| {
        assert order'[l] == order[l];
      } else {
        assert color[p] != Black;
      }
    }
    forall k, j | 0 <= k < |order'| && 0 <= j < |nodes| && color'[j] != Black
      ensures key'[order'[k]] <= key'[j]
    {
      assert color[j] != Black && j != p;
      if k < |order| {
        assert order'[k] == order[k];
        assert key[order[k]] <= key[p];
      }
      if color[j] == Gray {
        assert key[p] <= key[j];
      }
    }
  }

  lemma StepOptimal(m: Metric, nodes: seq<Node>,
                    key: seq<real>, color: seq<Color>, a: seq<Node>, order: seq<nat>, p: nat,
                    key': seq<real>, color': seq<Color>, a': seq<Node>, order': seq<nat>)
    requires Inv(m, nodes, key, color, a, order) && p < |nodes| && Removable(nodes, key, color, p)
    requires Step(m, nodes, key, color, a, order, p, key', color', a', order')
    ensures Optimal(m, nodes, key', order')
  {

  }

  lemma StepTree(m: Metric, nodes: seq<Node>,
                 key: seq<real>, color: seq<Color>, a: seq<Node>, order: seq<nat>, p: nat,
                 key': seq<real>, color': seq<Color>, a': seq<Node>, order': seq<nat>)
    requires Inv(m, nodes, key, color, a, order) && p < |nodes| && Removable(nodes, key, color, p)
    requires Step(m, nodes, key, color, a, order, p, key', color', a', order')
    ensures Tree(m, nodes, key', a', order')
  {
    StepBasics(m, nodes, key, color, a, order, p, key', color', a', order');
    forall j | 0 <= j < |nodes| && nodes[j].status == Standard && key'[j] < FLOAT_MAX
      ensures Parent(m, nodes, key', a', order', j)
    {
      assert p in order';
      if !Lowers(m, nodes, key, p, j) {
        var r := a[j].pred;
        assert Parent(m, nodes, key, a, order, j);
        assert r in order && color[r] == Black && r != p;
        assert r in order';
      }
    }
    forall k | 0 <= k < |order'| && nodes[order'[k]].status == Standard
      ensures a'[order'[k]].pred in order'[..k]
    {
      if k < |order| {
        assert order'[k] == order[k] && color[order[k]] == Black;
        assert order'[..k] == order[..k];
      } else {
        assert order'[k] == p && order'[..k] == order;
        assert Parent(m, nodes, key, a, order, p);
      }
    }
  }

  /** One pass of the loop keeps the invariant. */
  lemma StepInv(m: Metric, nodes: seq<Node>,
                key: seq<real>, color: seq<Color>, a: seq<Node>, order: seq<nat>, p: nat,
                key': seq<real>, color': seq<Color>, a': seq<Node>, order': seq<nat>)
    requires Inv(m, nodes, key, color, a, order) && p < |nodes| && Removable(nodes, key, color, p)
    requires Step(m, nodes, key, color, a, order, p, key', color', a', order')
    ensures Inv(m, nodes, key', color', a', order')
  {
    StepSettled(m, nodes, key, color, a, order, p, key', color', a', order');
    StepKeys(m, nodes, key, color, a, order, p, key', color', a', order');
    StepOptimal(m, nodes, key, color, a, order, p, key', color', a', order');
    StepTree(m, nodes, key, color, a, order, p, key', color', a', order');
  }

  /** The initial graph and keys meet the invariant with nothing settled. */
  lemma InitialInv(m: Metric, nodes: seq<Node>, key: seq<real>, color: seq<Color>)
    requires Covers(m, nodes) && |key| == |nodes| && |color| == |nodes|
    requires forall j :: 0 <= j < |nodes| ==> key[j] == SeedCost(nodes[j])
    requires forall j :: 0 <= j < |nodes| ==> color[j] == if nodes[j].status == Prototype then Gray else White
    ensures Inv(m, nodes, key, color, Initialise(nodes), [])
  {
  }

  /** Once nothing is queued, the invariant is the optimum-path forest. */
  lemma Finished(m: Metric, nodes: seq<Node>, key: seq<real>, color: seq<Color>, a: seq<Node>, order: seq<nat>)
    requires Inv(m, nodes, key, color, a, order)
    requires forall j :: 0 <= j < |nodes| ==> color[j] != Gray
    ensures OptimumPathForest(m, nodes, a, order)
  {
    forall k | 0 <= k < |order| && nodes[order[k]].status == Standard
      ensures HangsFrom(m, nodes, a, order, k)
    {
      var q := order[k];
      assert color[q] == Black;
      assert Parent(m, nodes, key, a, order, q);
      var r := a[q].pred;
      var l :| 0 <= l < |order| && order[l] == r;
    }
    forall k, j | 0 <= k < |order| && 0 <= j < |nodes| && j !in order
      ensures FLOAT_MAX <= Max(a[order[k]].cost, Weight(m, nodes[order[k]], nodes[j]))
    {
      assert color[j] == White;
    }
  }

  /**
   * The initialisation loop with the prototypes' cost 0 given to the heap as
   * their key: each prototype gets pred NIL, its own label and key 0 and is
   * queued; nothing else moves.
   */
  method InitialiseRoots(m: Metric, nodes: seq<Node>, sg: Subgraph, h: Heap, costs: array<real>)
    requires Covers(m, nodes) && sg.idxNodes == []
    requires sg.nodes[..] == nodes && h.Valid() && h.size == |nodes| && costs.Length == |nodes|
    requires h.color == seq(|nodes|, _ => White) && h.key == seq(|nodes|, _ => FLOAT_MAX)
    requires costs[..] == h.key
    modifies sg.nodes, h, costs
    ensures Progress(m, nodes, sg, h, costs)
    ensures sg.nodes[..] == Initialise(nodes)
    ensures forall j :: 0 <= j < |nodes| ==> h.key[j] == SeedCost(nodes[j])
    ensures forall j :: 0 <= j < |nodes| ==> h.color[j] == if nodes[j].status == Prototype then Gray else White
  {
    var n := sg.NNodes();
    var i := 0;
    while i < n
      invariant 0 <= i <= n
      invariant h.Valid() && h.size == n && costs[..] == h.key
      invariant forall j :: 0 <= j < n ==> h.key[j] == if j < i then SeedCost(nodes[j]) else FLOAT_MAX
      invariant forall j :: 0 <= j < n ==> sg.nodes[j] == if j < i then Initialise(nodes)[j] else nodes[j]
      invariant forall j :: 0 <= j < n ==>
        h.color[j] == if j < i && nodes[j].status == Prototype then Gray else White
    {
      if sg.nodes[i].status == Prototype {
        sg.nodes[i] := sg.nodes[i].(pred := NIL);
        costs[i] := 0.0;
        sg.nodes[i] := sg.nodes[i].(predictedLabel := sg.nodes[i].trueLabel);
        h.Update(i, 0.0);
      }
      i := i + 1;
    }
    InitialInv(m, nodes, h.key, h.color);
  }

  /**
   * The inner loop for the removed node p, lowering costs[q] together with
   * the heap key whenever p offers q a cheaper path.
   */
  method RelaxFrom(m: Metric, nodes: seq<Node>, sg: Subgraph, h: Heap, costs: array<real>, p: nat)
    requires Covers(m, nodes) && p < |nodes|
    requires sg.nodes.Length == |nodes| && h.Valid() && h.size == |nodes| && costs[..] == h.key
    requires forall j :: 0 <= j < |nodes| ==>
      sg.nodes[j].idx == nodes[j].idx && sg.nodes[j].features == nodes[j].features
    modifies sg.nodes, h, costs
    ensures h.Valid() && h.size == |nodes| && costs[..] == h.key && h.Unremoved() == old(h.Unremoved())
    ensures forall j :: 0 <= j < |nodes| ==>
      h.key[j] == if Lowers(m, nodes, old(h.key), p, j) then Max(old(h.key[p]), Weight(m, nodes[p], nodes[j])) else old(h.key[j])
    ensures forall j :: 0 <= j < |nodes| ==>
      sg.nodes[j] == if Lowers(m, nodes, old(h.key), p, j)
        then old(sg.nodes[j]).(pred := p, predictedLabel := old(sg.nodes[p]).predictedLabel)
        else old(sg.nodes[j])
    ensures forall j :: 0 <= j < |nodes| ==>
      h.color[j] == if Lowers(m, nodes, old(h.key), p, j) && old(h.color[j]) == White then Gray else old(h.color[j])
  {
    ghost var key0 := h.key;
    var n := sg.NNodes();
    var q := 0;
    while q < n
      invariant 0 <= q <= n
      invariant h.Valid() && h.size == n && costs[..] == h.key && h.Unremoved() == old(h.Unremoved())
      invariant forall j :: 0 <= j < n ==>
        sg.nodes[j].idx == nodes[j].idx && sg.nodes[j].features == nodes[j].features
      invariant forall j :: 0 <= j < n ==>
        h.key[j] == if j < q && Lowers(m, nodes, key0, p, j) then Max(key0[p], Weight(m, nodes[p], nodes[j])) else key0[j]
      invariant forall j :: 0 <= j < n ==>
        sg.nodes[j] == if j < q && Lowers(m, nodes, key0, p, j)
          then old(sg.nodes[j]).(pred := p, predictedLabel := old(sg.nodes[p]).predictedLabel)
          else old(sg.nodes[j])
      invariant forall j :: 0 <= j < n ==>
        h.color[j] == if j < q && Lowers(m, nodes, key0, p, j) && old(h.color[j]) == White then Gray else old(h.color[j])
    {
      assert Lowers(m, nodes, h.key, p, q) == Lowers(m, nodes, key0, p, q);
      Offer(m, nodes, sg, h, costs, p, q);
      q := q + 1;
    }
  }

  /**
   * The body of the inner loop for the pair (p, q): when p offers q a
   * cheaper path, q takes p as predecessor and p's label, and costs[q] and
   * the heap key of q drop to the candidate.
   */
  method Offer(m: Metric, nodes: seq<Node>, sg: Subgraph, h: Heap, costs: array<real>, p: nat, q: nat)
    requires Covers(m, nodes) && p < |nodes| && q < |nodes|
    requires sg.nodes.Length == |nodes| && h.Valid() && h.size == |nodes| && costs[..] == h.key
    requires sg.nodes[p].idx == nodes[p].idx && sg.nodes[p].features == nodes[p].features
    requires sg.nodes[q].idx == nodes[q].idx && sg.nodes[q].features == nodes[q].features
    modifies sg.nodes, h, costs
    ensures h.Valid() && h.size == |nodes| && costs[..] == h.key && h.Unremoved() == old(h.Unremoved())
    ensures h.key == old(h.key)[q := if Lowers(m, nodes, old(h.key), p, q)
      then Max(old(h.key[p]), Weight(m, nodes[p], nodes[q])) else old(h.key[q])]
    ensures sg.nodes[..] == old(sg.nodes[..])[q := if Lowers(m, nodes, old(h.key), p, q)
      then old(sg.nodes[q]).(pred := p, predictedLabel := old(sg.nodes[p]).predictedLabel) else old(sg.nodes[q])]
    ensures h.color == old(h.color)[q := if Lowers(m, nodes, old(h.key), p, q) && old(h.color[q]) == White
      then Gray else old(h.color[q])]
  {
    if p != q {
      if costs[p] < costs[q] {
        var weight: real;
        if m.preComputed {
          weight := m.distances[sg.nodes[p].idx][sg.nodes[q].idx];
        } else {
          weight := m.distance(sg.nodes[p].features, sg.nodes[q].features);
        }
        var currentCost := Max(costs[p], weight);
        if currentCost < costs[q] {
          sg.nodes[q] := sg.nodes[q].(pred := p);
          sg.nodes[q] := sg.nodes[q].(predictedLabel := sg.nodes[p].predictedLabel);
          costs[q] := currentCost;
          h.Update(q, currentCost);
        }
      }
    }
  }

  /** The heap, the costs and the graph as the corrected loop keeps them. */
  ghost predicate Progress(m: Metric, nodes: seq<Node>, sg: Subgraph, h: Heap, costs: array<real>)
    reads sg, sg.nodes, h, costs
  {
    && sg.nodes.Length == |nodes| && h.Valid() && h.size == |nodes| && costs[..] == h.key
    && Inv(m, nodes, h.key, h.color, sg.nodes[..], sg.idxNodes)
  }

  /** One pass of the corrected main loop. */
  method SettleNext(m: Metric, nodes: seq<Node>, sg: Subgraph, h: Heap, costs: array<real>) returns (p: nat)
    requires Progress(m, nodes, sg, h, costs)
    requires exists j :: 0 <= j < |nodes| && h.color[j] == Gray
    modifies sg, sg.nodes, h, costs
    ensures Progress(m, nodes, sg, h, costs)
    ensures p < |nodes| && sg.idxNodes == old(sg.idxNodes) + [p]
    ensures p in old(h.Unremoved()) && h.Unremoved() == old(h.Unremoved()) - {p}
  {
    ghost var key, color, a, order := h.key, h.color, sg.nodes[..], sg.idxNodes;
    p := h.Remove();
    assert Removable(nodes, key, color, p);
    sg.idxNodes := sg.idxNodes + [p];
    sg.nodes[p] := sg.nodes[p].(cost := costs[p]);
    RelaxFrom(m, nodes, sg, h, costs, p);
    assert Step(m, nodes, key, color, a, order, p, h.key, h.color, sg.nodes[..], sg.idxNodes);
    StepInv(m, nodes, key, color, a, order, p, h.key, h.color, sg.nodes[..], sg.idxNodes);
  }

  /** In an optimum-path forest every settled node carries the true label of some prototype. */
  lemma {:induction false} LabelFromPrototype(m: Metric, nodes: seq<Node>, a: seq<Node>, order: seq<nat>, k: nat)
    requires Covers(m, nodes) && OptimumPathForest(m, nodes, a, order) && k < |order|
    ensures exists r ::
      && 0 <= r < |nodes| && nodes[r].status == Prototype
      && a[order[k]].predictedLabel == nodes[r].trueLabel
    decreases k
  {
    var q := order[k];
    if nodes[q].status == Prototype {
      assert a[q].predictedLabel == nodes[q].trueLabel;
    } else {
      assert HangsFrom(m, nodes, a, order, k);
      var r := a[q].pred;
      var t :| 0 <= t < k && order[..k][t] == r;
      LabelFromPrototype(m, nodes, a, order, t);
    }
  }

  /** The corrected main loop: settle nodes until the heap is empty. */
  method SettleAll(m: Metric, nodes: seq<Node>, sg: Subgraph, h: Heap, costs: array<real>)
    requires Progress(m, nodes, sg, h, costs)
    modifies sg, sg.nodes, h, costs
    ensures Progress(m, nodes, sg, h, costs)
    ensures forall j :: 0 <= j < |nodes| ==> h.color[j] != Gray
  {
    var empty := h.IsEmpty();
    while !empty
      invariant Progress(m, nodes, sg, h, costs)
      invariant empty <==> forall j :: 0 <= j < |nodes| ==> h.color[j] != Gray
      decreases |h.Unremoved()|
    {
      var p := SettleNext(m, nodes, sg, h, costs);
      empty := h.IsEmpty();
    }
  }

  /**
   * The corrected training step: the graph it builds is an optimum-path
   * forest over the prototypes.
   */
  method Fit(m: Metric, nodes: seq<Node>) returns (sg: Subgraph)
    requires Covers(m, nodes)
    ensures fresh(sg) && fresh(sg.nodes)
    ensures OptimumPathForest(m, nodes, sg.nodes[..], sg.idxNodes)
  {
    sg := new Subgraph(nodes);
    var n := sg.NNodes();
    var h := new Heap(n);
    var costs := new real[n](_ => FLOAT_MAX);
    assert costs[..] == h.key;
    InitialiseRoots(m, nodes, sg, h, costs);
    SettleAll(m, nodes, sg, h, costs);
    Finished(m, nodes, h.key, h.color, sg.nodes[..], sg.idxNodes);
  }
}
