/**
 * Four samples on a line, two per class, whose inner pair are the
 * prototypes: 0 and 1 have label 0, 10 and 11 have label 1, and the arc
 * weight is the distance on the line.
 */
module LineExample {
  import opened Constants
  import opened Graph
  import opened Forest
  import Intended

  /** Distance between the first coordinates of two feature vectors. */
  function Gap(a: seq<real>, b: seq<real>): real
  {
    if |a| == 0 || |b| == 0 then 0.0
    else if a[0] >= b[0] then a[0] - b[0] else b[0] - a[0]
  }

  function LineMetric(): Metric
  {
    Metric(false, [], Gap)
  }

  function Sample(i: nat, x: real, truth: int, status: Status): Node
  {
    Node(i, truth, [x], status, FLOAT_MAX, NIL, 0)
  }

  function TwoClusters(): seq<Node>
  {
    [ Sample(0, 0.0, 0, Standard), Sample(1, 1.0, 0, Prototype),
      Sample(2, 10.0, 1, Prototype), Sample(3, 11.0, 1, Standard) ]
  }

  /** Both outer samples are improved by exactly the two prototypes. */
  lemma OuterImprovers(x: nat)
    requires x < 4
    ensures Improves(LineMetric(), TwoClusters(), x, 0) <==> x == 1 || x == 2
    ensures Improves(LineMetric(), TwoClusters(), x, 3) <==> x == 1 || x == 2
  {
  }

  /**
   * With the code as written, whatever order the heap settles the nodes in,
   * once a prototype is settled both outer samples take the label of the
   * same prototype, so one of them is labelled against its own class (and
   * its nearest prototype); a settled outer sample keeps cost FLOAT_MAX
   * instead of its path cost 1.
   */
  lemma AsWrittenMislabels(order: seq<nat>)
    requires InRange(TwoClusters(), order) && (1 in order || 2 in order)
    ensures Run(LineMetric(), TwoClusters(), order)[0].predictedLabel ==
      Run(LineMetric(), TwoClusters(), order)[3].predictedLabel
    ensures Run(LineMetric(), TwoClusters(), order)[0].predictedLabel != 0 ||
      Run(LineMetric(), TwoClusters(), order)[3].predictedLabel != 1
    ensures 0 in order ==> Run(LineMetric(), TwoClusters(), order)[0].cost == FLOAT_MAX
    ensures 3 in order ==> Run(LineMetric(), TwoClusters(), order)[3].cost == FLOAT_MAX
  {
    var m, nodes := LineMetric(), TwoClusters();
    forall k | 0 <= k < |order|
      ensures Improves(m, nodes, order[k], 0) <==> Improves(m, nodes, order[k], 3)
    {
      OuterImprovers(order[k]);
    }
    SameImprovers(m, nodes, order, 0, 3);
    var k :| 0 <= k < |order| && (order[k] == 1 || order[k] == 2);
    OuterImprovers(order[k]);
    LastImproverExists(m, nodes, order, 0);
    RunOutcome(m, nodes, order, 0);
    RunOutcome(m, nodes, order, 3);
    var r := LastImprover(m, nodes, order, 0).value;
    OuterImprovers(r);
    SettledCosts(m, nodes, order, 3);
  }

  /**
   * The order in which the heap hands the samples out with the code as
   * written. Both prototypes wait at key FLOAT_MAX, so prototype 1 goes
   * first (lowest index on the tie); then sample 0 at key 1 and sample 3 at
   * key 10; prototype 2 comes last. The cost fields along idxNodes read 0,
   * FLOAT_MAX, FLOAT_MAX, 0, so they do not ascend, and both outer samples
   * end up hanging from prototype 2.
   */
  lemma AsWrittenTrace(order: seq<nat>)
    requires HeapOrder(LineMetric(), TwoClusters(), order)
    requires Exhausted(LineMetric(), TwoClusters(), order)
    ensures order == [1, 0, 3, 2]
    ensures Run(LineMetric(), TwoClusters(), order)[order[1]].cost == FLOAT_MAX
    ensures Run(LineMetric(), TwoClusters(), order)[order[3]].cost == 0.0
    ensures Run(LineMetric(), TwoClusters(), order)[0].pred == 2
    ensures Run(LineMetric(), TwoClusters(), order)[0].predictedLabel == 1
  {
    var m, nodes := LineMetric(), TwoClusters();
    TraceIsHeapOrder();
    HeapOrderUnique(m, nodes, order, [1, 0, 3, 2]);
    OuterImprovers(2);
    RunOutcome(m, nodes, order, 0);
    RunOutcome(m, nodes, order, 2);
  }

  /** The sequence 1, 0, 3, 2 follows the heap and empties it. */
  lemma TraceIsHeapOrder()
    ensures HeapOrder(LineMetric(), TwoClusters(), [1, 0, 3, 2])
    ensures Exhausted(LineMetric(), TwoClusters(), [1, 0, 3, 2])
  {
    var m, nodes := LineMetric(), TwoClusters();
    assert [1, 0, 3, 2][..3] == [1, 0, 3];
    assert [1, 0, 3][..2] == [1, 0];
    assert [1, 0][..1] == [1];
    assert [1][..0] == [];
    ChosenAt(0);
    ChosenAt(1);
    ChosenAt(2);
    ChosenAt(3);
    forall q | 0 <= q < 4 ensures !Queued(m, nodes, [1, 0, 3, 2], q) { }
  }

  /** The k-th entry of 1, 0, 3, 2 is the node the heap hands out after the ones before it. */
  lemma ChosenAt(k: nat)
    requires k < 4
    ensures Chosen(LineMetric(), TwoClusters(), [1, 0, 3, 2][..k], [1, 0, 3, 2][k])
  {
    var m, nodes, order := LineMetric(), TwoClusters(), [1, 0, 3, 2];
    var prefix := order[..k];
    assert [1][..0] == [];
    assert [1, 0][..1] == [1];
    assert [1, 0, 3][..2] == [1, 0];
    if k == 0 {
      assert prefix == [];
    } else if k == 1 {
      assert prefix == [1];
    } else if k == 2 {
      assert prefix == [1, 0];
    } else {
      assert prefix == [1, 0, 3];
    }
    forall x | 0 <= x < 4 { OuterImprovers(x); }
    forall j | 0 <= j < 4
      ensures Key(m, nodes, prefix, j) ==
        if j == 0 && k >= 1 then 1.0 else if j == 3 && k >= 1 then 10.0 else FLOAT_MAX
      ensures Queued(m, nodes, prefix, j) <==> j !in prefix && (j == 1 || j == 2 || k >= 1)
    {
    }
  }

  /**
   * With the corrected bookkeeping every optimum-path forest over the same
   * samples labels each outer sample with its own class, through its
   * nearest prototype, at path cost 1.
   */
  lemma IntendedLabelsCorrectly(a: seq<Node>, order: seq<nat>)
    requires Intended.OptimumPathForest(LineMetric(), TwoClusters(), a, order)
    ensures a[0].predictedLabel == 0 && a[0].pred == 1 && a[0].cost == 1.0
    ensures a[3].predictedLabel == 1 && a[3].pred == 2 && a[3].cost == 1.0
  {
    var m, nodes := LineMetric(), TwoClusters();
    assert nodes[1].status == Prototype && nodes[2].status == Prototype;
    var k1 :| 0 <= k1 < |order| && order[k1] == 1;
    var k2 :| 0 <= k2 < |order| && order[k2] == 2;
    OuterSettled(a, order, 0, 1, k1);
    OuterSettled(a, order, 3, 2, k2);
  }

  /** The outer sample q, whose nearest prototype p is settled at k, hangs from p. */
  lemma OuterSettled(a: seq<Node>, order: seq<nat>, q: nat, p: nat, k: nat)
    requires Intended.OptimumPathForest(LineMetric(), TwoClusters(), a, order)
    requires (q == 0 && p == 1) || (q == 3 && p == 2)
    requires k < |order| && order[k] == p
    ensures a[q].predictedLabel == TwoClusters()[p].trueLabel && a[q].pred == p && a[q].cost == 1.0
  {
    var m, nodes := LineMetric(), TwoClusters();
    var l := SettledAt(a, order, q, k);
    assert a[q].cost <= 1.0 by {
      assert a[q].cost <= Max(a[order[k]].cost, Weight(m, nodes[order[k]], nodes[order[l]]));
    }
    assert Intended.HangsFrom(m, nodes, a, order, l);
    var r := a[q].pred;
    var t :| 0 <= t < l && order[t] == r;
    assert r != q;
    FarWeights(q, p, r);
  }

  /** An outer sample is settled once its nearest prototype is: that prototype reaches it at 1. */
  lemma SettledAt(a: seq<Node>, order: seq<nat>, q: nat, k: nat) returns (l: nat)
    requires Intended.OptimumPathForest(LineMetric(), TwoClusters(), a, order)
    requires q == 0 || q == 3
    requires k < |order| && order[k] == (if q == 0 then 1 else 2)
    ensures l < |order| && order[l] == q
  {
    var m, nodes := LineMetric(), TwoClusters();
    assert Weight(m, nodes[order[k]], nodes[q]) == 1.0;
    if q !in order {
      assert false;
    }
    l :| 0 <= l < |order| && order[l] == q;
  }

  /** Weights on the line: 1 to the nearest prototype, at least 10 to anything else. */
  lemma FarWeights(q: nat, p: nat, r: nat)
    requires (q == 0 && p == 1) || (q == 3 && p == 2)
    requires r < 4 && r != q
    ensures Weight(LineMetric(), TwoClusters()[p], TwoClusters()[q]) == 1.0
    ensures r != p ==> Weight(LineMetric(), TwoClusters()[r], TwoClusters()[q]) >= 10.0
  {
  }
}
