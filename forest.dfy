/**
 * What SupervisedOPF.fit does to the training graph, as pure functions: the
 * initialisation, one settling step, and the whole run over a removal order;
 * then a closed form of the run and the properties that follow from it.
 */
module Forest {
  import opened Constants
  import opened Graph

  datatype Option<T> = None | Some(value: T)

  /**
   * How fit weighs the arc between two nodes: a pre-computed matrix indexed
   * by sample identity, or a distance function applied to the features.
   */
  datatype Metric = Metric(
    preComputed: bool,
    distances: seq<seq<real>>,
    distance: (seq<real>, seq<real>) -> real)

  /** In pre-computed mode the matrix has an entry for every pair of nodes. */
  predicate Covers(m: Metric, nodes: seq<Node>)
  {
    m.preComputed ==>
      forall i, j :: 0 <= i < |nodes| && 0 <= j < |nodes| ==>
        nodes[i].idx < |m.distances| && nodes[j].idx < |m.distances[nodes[i].idx]|
  }

  /** The arc weight from a to b, looked up by original identities in pre-computed mode. */
  function Weight(m: Metric, a: Node, b: Node): real
    requires m.preComputed ==> a.idx < |m.distances| && b.idx < |m.distances[a.idx]|
  {
    if m.preComputed then m.distances[a.idx][b.idx] else m.distance(a.features, b.features)
  }

  /**
   * In pre-computed mode the weight depends only on the two original sample
   * identities, not on positions in the graph; otherwise only on the features.
   */
  lemma WeightByIdentity(m: Metric, a: Node, b: Node, c: Node, d: Node)
    requires m.preComputed ==> a.idx < |m.distances| && b.idx < |m.distances[a.idx]|
    requires m.preComputed ==> c.idx < |m.distances| && d.idx < |m.distances[c.idx]|
    ensures m.preComputed && a.idx == c.idx && b.idx == d.idx ==> Weight(m, a, b) == Weight(m, c, d)
    ensures !m.preComputed && a.features == c.features && b.features == d.features ==>
      Weight(m, a, b) == Weight(m, c, d)
  {
  }

  /** The minimax combination of a path cost and an arc weight. */
  function Max(a: real, b: real): (r: real)
    ensures a <= r && b <= r && (r == a || r == b)
  {
    if a >= b then a else b
  }

  /** The entry of the local costs array: 0 for a prototype, FLOAT_MAX otherwise. */
  function SeedCost(n: Node): (r: real)
    ensures r == 0.0 <==> n.status == Prototype
    ensures r == FLOAT_MAX <==> n.status == Standard
  {
    match n.status
    case Prototype => 0.0
    case Standard => FLOAT_MAX
  }

  predicate InRange(nodes: seq<Node>, order: seq<nat>)
  {
    forall k :: 0 <= k < |order| ==> order[k] < |nodes|
  }

  /** No node occurs twice in order. */
  predicate Distinct(order: seq<nat>)
  {
    forall k, l :: 0 <= k < l < |order| ==> order[k] != order[l]
  }

  /**
   * Whether settling p rewrites pred and predictedLabel of q: q is not p,
   * costs[p] < costs[q], and max(costs[p], weight) < costs[q]. Since the
   * costs array keeps its seeds, this holds exactly from a prototype to a
   * standard node at weight below FLOAT_MAX.
   */
  predicate Improves(m: Metric, nodes: seq<Node>, p: nat, q: nat)
    requires Covers(m, nodes) && p < |nodes| && q < |nodes|
    ensures Improves(m, nodes, p, q) <==>
      nodes[p].status == Prototype && nodes[q].status == Standard &&
      Weight(m, nodes[p], nodes[q]) < FLOAT_MAX
  {
    p != q &&
    SeedCost(nodes[p]) < SeedCost(nodes[q]) &&
    Max(SeedCost(nodes[p]), Weight(m, nodes[p], nodes[q])) < SeedCost(nodes[q])
  }

  /** The graph after the initialisation loop. */
  function Initialise(nodes: seq<Node>): (r: seq<Node>)
    ensures |r| == |nodes|
    ensures forall i :: 0 <= i < |nodes| ==>
      r[i].(pred := nodes[i].pred, predictedLabel := nodes[i].predictedLabel) == nodes[i]
    ensures forall i :: 0 <= i < |nodes| && nodes[i].status == Prototype ==>
      r[i].pred == NIL && r[i].predictedLabel == nodes[i].trueLabel
    ensures forall i :: 0 <= i < |nodes| && nodes[i].status == Standard ==> r[i] == nodes[i]
  {
    seq(|nodes|, i requires 0 <= i < |nodes| =>
      if nodes[i].status == Prototype
      then nodes[i].(pred := NIL, predictedLabel := nodes[i].trueLabel)
      else nodes[i])
  }

  /** One pass of the main loop over graph a, for the removed node p. */
  function Settle(m: Metric, nodes: seq<Node>, a: seq<Node>, p: nat): (r: seq<Node>)
    requires Covers(m, nodes) && |a| == |nodes| && p < |nodes|
    ensures |r| == |a|
    ensures r[p] == a[p].(cost := SeedCost(nodes[p]))
    ensures forall j :: 0 <= j < |a| && j != p ==>
      r[j].(pred := a[j].pred, predictedLabel := a[j].predictedLabel) == a[j]
    ensures forall j :: 0 <= j < |a| && j != p && r[j] != a[j] ==>
      Improves(m, nodes, p, j) && r[j].pred == p && r[j].predictedLabel == a[p].predictedLabel
  {
    seq(|a|, j requires 0 <= j < |a| =>
      if j == p then a[j].(cost := SeedCost(nodes[j]))
      else if Improves(m, nodes, p, j) then a[j].(pred := p, predictedLabel := a[p].predictedLabel)
      else a[j])
  }

  /** The graph after initialisation and after settling the nodes of order in turn. */
  function Run(m: Metric, nodes: seq<Node>, order: seq<nat>): (r: seq<Node>)
    requires Covers(m, nodes) && InRange(nodes, order)
    ensures |r| == |nodes|
    decreases |order|
  {
    if order == [] then Initialise(nodes)
    else Settle(m, nodes, Run(m, nodes, order[..|order| - 1]), order[|order| - 1])
  }

  /** The last node of order whose settling improves q, if there is one. */
  function LastImprover(m: Metric, nodes: seq<Node>, order: seq<nat>, q: nat): (r: Option<nat>)
    requires Covers(m, nodes) && InRange(nodes, order) && q < |nodes|
    ensures r.Some? ==> r.value in order && r.value < |nodes| && Improves(m, nodes, r.value, q)
    decreases |order|
  {
    if order == [] then None
    else if Improves(m, nodes, order[|order| - 1], q) then Some(order[|order| - 1])
    else LastImprover(m, nodes, order[..|order| - 1], q)
  }

  /**
   * Node q once order has been settled, stated without replaying the loop:
   * a settled node's cost is its seed; a prototype is a root labelled by its
   * own label; a standard node hangs from the last improving prototype.
   */
  function Outcome(m: Metric, nodes: seq<Node>, order: seq<nat>, q: nat): Node
    requires Covers(m, nodes) && InRange(nodes, order) && q < |nodes|
  {
    var n := nodes[q];
    var cost := if q in order then SeedCost(n) else n.cost;
    if n.status == Prototype then n.(cost := cost, pred := NIL, predictedLabel := n.trueLabel)
    else match LastImprover(m, nodes, order, q)
      case None => n.(cost := cost)
      case Some(p) => n.(cost := cost, pred := p, predictedLabel := nodes[p].trueLabel)
  }

  /** LastImprover finds an improver exactly when order holds one. */
  lemma {:induction false} LastImproverExists(m: Metric, nodes: seq<Node>, order: seq<nat>, q: nat)
    requires Covers(m, nodes) && InRange(nodes, order) && q < |nodes|
    ensures LastImprover(m, nodes, order, q).Some? <==>
      exists k :: 0 <= k < |order| && Improves(m, nodes, order[k], q)
    decreases |order|
  {
    if order != [] {
      var prev, last := order[..|order| - 1], |order| - 1;
      LastImproverExists(m, nodes, prev, q);
      if LastImprover(m, nodes, order, q).Some? {
        var p := LastImprover(m, nodes, order, q).value;
        var k :| 0 <= k < |order| && order[k] == p;
      } else {
        forall k | 0 <= k < |order| ensures !Improves(m, nodes, order[k], q) {
          if k < last { assert order[k] == prev[k]; }
        }
      }
    }
  }

  /** No node settled after the one LastImprover returns improves q. */
  lemma {:induction false} LastImproverIsLast(m: Metric, nodes: seq<Node>, order: seq<nat>, q: nat)
    requires Covers(m, nodes) && InRange(nodes, order) && q < |nodes|
    requires LastImprover(m, nodes, order, q).Some?
    ensures exists k ::
      && 0 <= k < |order|
      && order[k] == LastImprover(m, nodes, order, q).value
      && forall l :: k < l < |order| ==> !Improves(m, nodes, order[l], q)
    decreases |order|
  {
    var prev, last := order[..|order| - 1], |order| - 1;
    if Improves(m, nodes, order[last], q) {
      assert order[last] == LastImprover(m, nodes, order, q).value;
    } else {
      LastImproverIsLast(m, nodes, prev, q);
      var k :| 0 <= k < |prev| && prev[k] == LastImprover(m, nodes, prev, q).value &&
        forall l :: k < l < |prev| ==> !Improves(m, nodes, prev[l], q);
      assert order[k] == prev[k];
      forall l | k < l < |order| ensures !Improves(m, nodes, order[l], q) {
        if l < last { assert order[l] == prev[l]; }
      }
    }
  }

  /** Settling one more node p extends the run by one Settle step. */
  lemma RunStep(m: Metric, nodes: seq<Node>, prev: seq<nat>, p: nat)
    requires Covers(m, nodes) && InRange(nodes, prev) && p < |nodes|
    ensures InRange(nodes, prev + [p])
    ensures Run(m, nodes, prev + [p]) == Settle(m, nodes, Run(m, nodes, prev), p)
    ensures forall q :: 0 <= q < |nodes| ==>
      LastImprover(m, nodes, prev + [p], q) ==
        if Improves(m, nodes, p, q) then Some(p) else LastImprover(m, nodes, prev, q)
  {

  }

  /**
   * The heap key of q once order has been settled. The code never sets a key
   * at insertion, so it stays FLOAT_MAX (prototypes included) until a settled
   * node improves q; then it is the candidate of the last such node.
   */
  function Key(m: Metric, nodes: seq<Node>, order: seq<nat>, q: nat): (r: real)
    requires Covers(m, nodes) && InRange(nodes, order) && q < |nodes|
    ensures r <= FLOAT_MAX
    ensures r < FLOAT_MAX <==> LastImprover(m, nodes, order, q).Some?
  {
    match LastImprover(m, nodes, order, q)
    case None => FLOAT_MAX
    case Some(p) => Max(SeedCost(nodes[p]), Weight(m, nodes[p], nodes[q]))
  }

  /**
   * Settling p changes the key of exactly the nodes p improves, to p's
   * candidate cost max(cost of p, weight).
   */
  lemma KeyStep(m: Metric, nodes: seq<Node>, prev: seq<nat>, p: nat)
    requires Covers(m, nodes) && InRange(nodes, prev) && p < |nodes|
    ensures InRange(nodes, prev + [p])
    ensures forall q :: 0 <= q < |nodes| ==>
      Key(m, nodes, prev + [p], q) ==
        if Improves(m, nodes, p, q) then Max(SeedCost(nodes[p]), Weight(m, nodes[p], nodes[q]))
        else Key(m, nodes, prev, q)
  {
    RunStep(m, nodes, prev, p);
  }

  /** Whether q is in the heap once order has been settled. */
  predicate Queued(m: Metric, nodes: seq<Node>, order: seq<nat>, q: nat)
    requires Covers(m, nodes) && InRange(nodes, order) && q < |nodes|
  {
    q !in order && (nodes[q].status == Prototype || LastImprover(m, nodes, order, q).Some?)
  }

  /** The heap key of every node once order has been settled. */
  function Keys(m: Metric, nodes: seq<Node>, order: seq<nat>): (r: seq<real>)
    requires Covers(m, nodes) && InRange(nodes, order)
    ensures |r| == |nodes|
  {
    seq(|nodes|, q requires 0 <= q < |nodes| => Key(m, nodes, order, q))
  }

  /**
   * Whether remove hands out p once prefix has been settled: p is queued,
   * no queued node has a smaller key, and every queued node before p has a
   * larger one.
   */
  predicate Chosen(m: Metric, nodes: seq<Node>, prefix: seq<nat>, p: nat)
    requires Covers(m, nodes) && InRange(nodes, prefix) && p < |nodes|
  {
    && Queued(m, nodes, prefix, p)
    && (forall j :: 0 <= j < |nodes| && Queued(m, nodes, prefix, j) ==>
          Key(m, nodes, prefix, p) <= Key(m, nodes, prefix, j))
    && (forall j :: 0 <= j < p && Queued(m, nodes, prefix, j) ==>
          Key(m, nodes, prefix, p) < Key(m, nodes, prefix, j))
  }

  /** Every node of order is the one the heap hands out after the ones before it. */
  predicate HeapOrder(m: Metric, nodes: seq<Node>, order: seq<nat>)
    requires Covers(m, nodes)
    decreases |order|
  {
    && InRange(nodes, order)
    && (order != [] ==>
         && HeapOrder(m, nodes, order[..|order| - 1])
         && Chosen(m, nodes, order[..|order| - 1], order[|order| - 1]))
  }

  /** A heap order followed by the node chosen after it is again a heap order. */
  lemma HeapOrderStep(m: Metric, nodes: seq<Node>, prev: seq<nat>, p: nat)
    requires Covers(m, nodes) && HeapOrder(m, nodes, prev) && p < |nodes|
    requires Chosen(m, nodes, prev, p)
    ensures HeapOrder(m, nodes, prev + [p])
  {
    assert (prev + [p])[..|prev|] == prev;
  }

  /** Every prefix of a heap order is a heap order. */
  lemma {:induction false} HeapOrderPrefix(m: Metric, nodes: seq<Node>, order: seq<nat>, k: nat)
    requires Covers(m, nodes) && HeapOrder(m, nodes, order) && k <= |order|
    ensures InRange(nodes, order[..k]) && HeapOrder(m, nodes, order[..k])
    decreases |order|
  {
    if k < |order| {
      var prev := order[..|order| - 1];
      HeapOrderPrefix(m, nodes, prev, k);
      assert prev[..k] == order[..k];
    } else {
      assert order[..k] == order;
    }
  }

  /** Nothing is left in the heap once order has been settled. */
  predicate Exhausted(m: Metric, nodes: seq<Node>, order: seq<nat>)
    requires Covers(m, nodes) && InRange(nodes, order)
  {
    forall q :: 0 <= q < |nodes| ==> !Queued(m, nodes, order, q)
  }

  /** The heap hands out one node at a time: at most one node is chosen after a prefix. */
  lemma ChosenUnique(m: Metric, nodes: seq<Node>, prefix: seq<nat>, p1: nat, p2: nat)
    requires Covers(m, nodes) && InRange(nodes, prefix) && p1 < |nodes| && p2 < |nodes|
    requires Chosen(m, nodes, prefix, p1) && Chosen(m, nodes, prefix, p2)
    ensures p1 == p2
  {
  }

  /** A non-empty prefix is the one before it plus one more element. */
  lemma SliceStep(s: seq<nat>, k: nat)
    requires 0 < k <= |s|
    ensures s[..k] == s[..k - 1] + [s[k - 1]]
  {
  }

  /** Two heap orders agree on their first k nodes. */
  lemma {:induction false} HeapOrderAgree(m: Metric, nodes: seq<Node>, o1: seq<nat>, o2: seq<nat>, k: nat)
    requires Covers(m, nodes) && HeapOrder(m, nodes, o1) && HeapOrder(m, nodes, o2)
    requires k <= |o1| && k <= |o2|
    ensures o1[..k] == o2[..k]
    decreases k
  {
    if k > 0 {
      HeapOrderAgree(m, nodes, o1, o2, k - 1);
      HeapOrderPrefix(m, nodes, o1, k);
      HeapOrderPrefix(m, nodes, o2, k);
      SliceStep(o1, k);
      SliceStep(o2, k);
      assert o1[..k][..k - 1] == o1[..k - 1] && o2[..k][..k - 1] == o2[..k - 1];
      ChosenUnique(m, nodes, o1[..k - 1], o1[k - 1], o2[k - 1]);
    }
  }

  /**
   * A heap order no longer than another is its prefix, and the node the
   * longer one settles next is still queued after the shorter one.
   */
  lemma HeapOrderExtends(m: Metric, nodes: seq<Node>, o1: seq<nat>, o2: seq<nat>)
    requires Covers(m, nodes) && HeapOrder(m, nodes, o1) && HeapOrder(m, nodes, o2)
    requires |o1| <= |o2|
    ensures o1 == o2[..|o1|]
    ensures |o1| < |o2| ==> Queued(m, nodes, o1, o2[|o1|])
  {
    HeapOrderAgree(m, nodes, o1, o2, |o1|);
    assert o1 == o1[..|o1|];
    if |o1| < |o2| {
      HeapOrderPrefix(m, nodes, o2, |o1| + 1);
      assert o2[..|o1| + 1][..|o1|] == o1;
    }
  }

  /**
   * The training run is deterministic: two removal orders that both follow
   * the heap and both leave it empty are the same order.
   */
  lemma HeapOrderUnique(m: Metric, nodes: seq<Node>, o1: seq<nat>, o2: seq<nat>)
    requires Covers(m, nodes) && HeapOrder(m, nodes, o1) && HeapOrder(m, nodes, o2)
    requires Exhausted(m, nodes, o1) && Exhausted(m, nodes, o2)
    ensures o1 == o2
  {
    if |o1| <= |o2| {
      HeapOrderExtends(m, nodes, o1, o2);
      if |o1| < |o2| {
        assert false;
      }
    } else {
      HeapOrderExtends(m, nodes, o2, o1);
      assert false;
    }
  }

  /** Whether fit ever queues q: q is a prototype or some prototype improves it. */
  predicate Reached(m: Metric, nodes: seq<Node>, q: nat)
    requires Covers(m, nodes) && q < |nodes|
  {
    nodes[q].status == Prototype || exists p :: 0 <= p < |nodes| && Improves(m, nodes, p, q)
  }

  /**
   * Once no node is queued, the settled nodes are the prototypes and the
   * standard nodes that some prototype improves.
   */
  lemma {:induction false} SettledExactly(m: Metric, nodes: seq<Node>, order: seq<nat>)
    requires Covers(m, nodes) && InRange(nodes, order)
    requires forall q :: 0 <= q < |nodes| ==>
      (q in order <==> nodes[q].status == Prototype || LastImprover(m, nodes, order, q).Some?)
    ensures forall q :: 0 <= q < |nodes| ==> (q in order <==> Reached(m, nodes, q))
  {
    forall q | 0 <= q < |nodes| ensures q in order <==> Reached(m, nodes, q) {
      LastImproverExists(m, nodes, order, q);
      if exists p :: 0 <= p < |nodes| && Improves(m, nodes, p, q) {
        var p :| 0 <= p < |nodes| && Improves(m, nodes, p, q);
        var k :| 0 <= k < |order| && order[k] == p;
      }
    }
  }

  /** Replaying the loop over order gives, node by node, the closed form Outcome. */
  lemma {:induction false} RunOutcome(m: Metric, nodes: seq<Node>, order: seq<nat>, q: nat)
    requires Covers(m, nodes) && InRange(nodes, order) && q < |nodes|
    ensures Run(m, nodes, order)[q] == Outcome(m, nodes, order, q)
    decreases |order|
  {
    if order != [] {
      var prev, p := order[..|order| - 1], order[|order| - 1];
      assert order == prev + [p];
      RunStep(m, nodes, prev, p);
      RunOutcome(m, nodes, prev, q);
      assert q in order <==> q in prev || q == p;
      if q != p && Improves(m, nodes, p, q) {
        RunOutcome(m, nodes, prev, p);
      }
    }
  }

  /**
   * The local costs array is never lowered inside the loop, so a settled
   * node's cost field is 0 for a prototype and FLOAT_MAX for any other node;
   * a node never settled keeps the cost it came with.
   */
  lemma SettledCosts(m: Metric, nodes: seq<Node>, order: seq<nat>, q: nat)
    requires Covers(m, nodes) && InRange(nodes, order) && q < |nodes|
    ensures q in order && nodes[q].status == Prototype ==> Run(m, nodes, order)[q].cost == 0.0
    ensures q in order && nodes[q].status == Standard ==> Run(m, nodes, order)[q].cost == FLOAT_MAX
    ensures q !in order ==> Run(m, nodes, order)[q].cost == nodes[q].cost
  {

  }

  /**
   * A prototype stays a root labelled by its own label. A standard node that
   * some settled prototype improves hangs directly from a prototype root that
   * improves it, settled, and carries that root's label; any other node keeps
   * its pred and predictedLabel.
   */
  lemma ForestOfStars(m: Metric, nodes: seq<Node>, order: seq<nat>, q: nat)
    requires Covers(m, nodes) && InRange(nodes, order) && q < |nodes|
    ensures var r := Run(m, nodes, order);
      && (nodes[q].status == Prototype ==> r[q].pred == NIL && r[q].predictedLabel == nodes[q].trueLabel)
      && (nodes[q].status == Standard && (exists k :: 0 <= k < |order| && Improves(m, nodes, order[k], q)) ==>
            && 0 <= r[q].pred < |nodes|
            && r[q].pred in order
            && nodes[r[q].pred].status == Prototype
            && Improves(m, nodes, r[q].pred, q)
            && r[r[q].pred].pred == NIL
            && r[q].predictedLabel == r[r[q].pred].predictedLabel == nodes[r[q].pred].trueLabel)
      && (nodes[q].status == Standard && !(exists k :: 0 <= k < |order| && Improves(m, nodes, order[k], q)) ==>
            r[q].pred == nodes[q].pred && r[q].predictedLabel == nodes[q].predictedLabel)
  {
    RunOutcome(m, nodes, order, q);
    LastImproverExists(m, nodes, order, q);
    var found := LastImprover(m, nodes, order, q);
    if nodes[q].status == Standard && found.Some? {
      RunOutcome(m, nodes, order, found.value);
    }
  }

  /**
   * Every predicted label fit assigns is the label of a prototype: line 66
   * seeds it from a prototype's own label and line 88 only copies it.
   */
  lemma AssignedLabelsFromPrototypes(m: Metric, nodes: seq<Node>, order: seq<nat>, q: nat)
    requires Covers(m, nodes) && InRange(nodes, order) && q < |nodes|
    requires Reached(m, nodes, q)
    requires forall j :: 0 <= j < |nodes| && nodes[j].status == Prototype ==> j in order
    ensures exists r ::
      && 0 <= r < |nodes|
      && nodes[r].status == Prototype
      && Run(m, nodes, order)[q].predictedLabel == nodes[r].trueLabel
  {
    ForestOfStars(m, nodes, order, q);
    if nodes[q].status == Standard {
      var p :| 0 <= p < |nodes| && Improves(m, nodes, p, q);
      var k :| 0 <= k < |order| && order[k] == p;
    }
  }

  /**
   * Of two prototypes that both improve q, the one settled earlier never ends
   * up as q's predecessor: fit keeps the last improver, not the nearest.
   */
  lemma LaterImproverWins(m: Metric, nodes: seq<Node>, order: seq<nat>, q: nat, k1: nat, k2: nat)
    requires Covers(m, nodes) && InRange(nodes, order) && q < |nodes| && Distinct(order)
    requires k1 < k2 < |order|
    requires Improves(m, nodes, order[k1], q) && Improves(m, nodes, order[k2], q)
    ensures Run(m, nodes, order)[q].pred != order[k1]
  {

  }

  /** Two nodes improved by the same settled nodes get the same last improver. */
  lemma {:induction false} SameImprovers(m: Metric, nodes: seq<Node>, order: seq<nat>, q1: nat, q2: nat)
    requires Covers(m, nodes) && InRange(nodes, order) && q1 < |nodes| && q2 < |nodes|
    requires forall k :: 0 <= k < |order| ==>
      (Improves(m, nodes, order[k], q1) <==> Improves(m, nodes, order[k], q2))
    ensures LastImprover(m, nodes, order, q1) == LastImprover(m, nodes, order, q2)
    decreases |order|
  {
    if order != [] {
      var prev := order[..|order| - 1];
      forall k | 0 <= k < |prev|
        ensures Improves(m, nodes, prev[k], q1) <==> Improves(m, nodes, prev[k], q2)
      {
        assert prev[k] == order[k];
      }
      SameImprovers(m, nodes, prev, q1, q2);
    }
  }
}
