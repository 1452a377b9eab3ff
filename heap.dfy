/**
 * The indexed priority queue that fit drives. Only its observable contract is
 * modelled: a key and a color per index in 0..size-1; the sift-up/sift-down
 * array and the position map are not.
 */
module PriorityQueue {
  import opened Constants

  class Heap {
    const size: nat
    /** The heap's own cost per index (its sort key). */
    var key: seq<real>
    /** White: never queued; Gray: queued; Black: removed. */
    var color: seq<Color>

    ghost predicate Valid()
      reads this
    {
      |key| == size && |color| == size
    }

    /** The indices that have not been removed yet; Remove shrinks this set. */
    ghost function Unremoved(): set<int>
      reads this
    {
      set i | 0 <= i < |color| && color[i] != Black
    }

    /** A fresh heap: nothing queued, every key at FLOAT_MAX. */
    constructor (size: nat)
      ensures Valid() && this.size == size
      ensures key == seq(size, _ => FLOAT_MAX)
      ensures color == seq(size, _ => White)
    {
      this.size := size;
      key := seq(size, _ => FLOAT_MAX);
      color := seq(size, _ => White);
    }

    /** True exactly when no index is queued. */
    method IsEmpty() returns (e: bool)
      requires Valid()
      ensures e <==> forall i :: 0 <= i < size ==> color[i] != Gray
    {
      e := true;
      var i := 0;
      while i < size
        invariant 0 <= i <= size
        invariant e <==> forall j :: 0 <= j < i ==> color[j] != Gray
      {
        if color[i] == Gray {
          e := false;
        }
        i := i + 1;
      }
    }

    /** Queues a never-queued index under its current key. */
    method Insert(p: nat)
      requires Valid() && p < size && color[p] == White
      modifies this
      ensures Valid()
      ensures key == old(key) && color == old(color)[p := Gray]
      ensures Unremoved() == old(Unremoved())
    {
      color := color[p := Gray];
      assert forall i :: 0 <= i < size ==> (color[i] != Black <==> old(color)[i] != Black);
    }

    /**
     * Sets the key of p and queues p if it was never queued. A removed index
     * keeps its new key but is never queued again.
     */
    method Update(p: nat, k: real)
      requires Valid() && p < size
      modifies this
      ensures Valid()
      ensures key == old(key)[p := k]
      ensures color == old(color)[p := if old(color[p]) == White then Gray else old(color[p])]
      ensures Unremoved() == old(Unremoved())
    {
      key := key[p := k];
      if color[p] == White {
        color := color[p := Gray];
      }
      assert forall i :: 0 <= i < size ==> (color[i] != Black <==> old(color)[i] != Black);
    }

    /** Removes and returns a queued index of least key (the lowest such index on ties). */
    method Remove() returns (p: nat)
      requires Valid() && exists i :: 0 <= i < size && color[i] == Gray
      modifies this
      ensures Valid() && p < size && old(color[p]) == Gray
      ensures forall i :: 0 <= i < size && old(color[i]) == Gray ==> key[p] <= key[i]
      ensures forall i :: 0 <= i < p && old(color[i]) == Gray ==> key[p] < key[i]
      ensures key == old(key) && color == old(color)[p := Black]
      ensures p in old(Unremoved()) && Unremoved() == old(Unremoved()) - {p}
    {
      var best := -1;
      var i := 0;
      while i < size
        invariant 0 <= i <= size
        invariant -1 <= best < i
        invariant best == -1 <==> forall j :: 0 <= j < i ==> color[j] != Gray
        invariant best >= 0 ==> color[best] == Gray
        invariant best >= 0 ==> forall j :: 0 <= j < i && color[j] == Gray ==> key[best] <= key[j]
        invariant best >= 0 ==> forall j :: 0 <= j < best && color[j] == Gray ==> key[best] < key[j]
      {
        if color[i] == Gray && (best == -1 || key[i] < key[best]) {
          best := i;
        }
        i := i + 1;
      }
      p := best;
      color := color[p := Black];
      assert forall i :: 0 <= i < size ==> (color[i] != Black <==> old(color)[i] != Black && i != p);
    }
  }
}
