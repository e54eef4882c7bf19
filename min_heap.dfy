/** The binary min-heap that holds the open list of the A* search. Entries are
    (item, priority) pairs kept in one list: the children of index i sit at 2i+1 and 2i+2.
    There is no membership check and no decrease-key. */
module Heap {

  function Parent(i: nat): nat
    requires i > 0
  {
    (i - 1) / 2
  }

  /** Every parent's priority is at most its child's. */
  ghost predicate HeapOrdered<T>(h: seq<(T, int)>) {
    forall i :: 0 < i < |h| ==> h[Parent(i)].1 <= h[i].1
  }

  /** The root of an ordered heap has the least priority of all entries. */
  lemma {:induction false} RootIsMinimal<T>(h: seq<(T, int)>, i: nat)
    requires HeapOrdered(h)
    requires i < |h|
    ensures h[0].1 <= h[i].1
    decreases i
  {
    if i > 0 {
      RootIsMinimal(h, Parent(i));
    }
  }

  lemma RootIsMinimalAll<T>(h: seq<(T, int)>)
    requires HeapOrdered(h)
    requires |h| > 0
    ensures forall e :: e in multiset(h) ==> h[0].1 <= e.1
  {
    forall e | e in multiset(h)
      ensures h[0].1 <= e.1
    {
      var i :| 0 <= i < |h| && h[i] == e;
      RootIsMinimal(h, i);
    }
  }

  /** Swapping two positions keeps the multiset of entries. */
  lemma SwapKeepsMultiset<T>(h: seq<(T, int)>, i: nat, j: nat)
    requires i < |h| && j < |h|
    ensures multiset(h[i := h[j]][j := h[i]]) == multiset(h)
  {
  }

  /** Heap order everywhere except, possibly, between `k` and its own parent (sifting up). */
  ghost predicate OrderedBut<T>(h: seq<(T, int)>, k: nat) {
    forall i :: 0 < i < |h| && i != k ==> h[Parent(i)].1 <= h[i].1
  }

  /** Heap order everywhere except, possibly, between `k` and its children (sifting down). */
  ghost predicate OrderedBelowBut<T>(h: seq<(T, int)>, k: nat) {
    forall i :: 0 < i < |h| && Parent(i) != k ==> h[Parent(i)].1 <= h[i].1
  }

  /** The parent of `k` is no larger than the children of `k`. */
  ghost predicate BridgesChildren<T>(h: seq<(T, int)>, k: nat) {
    k > 0 ==> forall i :: 0 < i < |h| && Parent(i) == k ==> h[Parent(k)].1 <= h[i].1
  }

  lemma ChildrenOf(i: nat, k: nat)
    requires i > 0 && Parent(i) == k
    ensures i == 2 * k + 1 || i == 2 * k + 2
  {
  }

  /** `s` is `k` or one of its children, and no child of `k` is smaller than `s`. */
  lemma SmallestOfFamily<T>(h: seq<(T, int)>, k: nat, s: nat)
    requires k < |h|
    requires s == k || (s < |h| && (s == 2 * k + 1 || s == 2 * k + 2))
    requires 2 * k + 1 < |h| ==> h[s].1 <= h[2 * k + 1].1
    requires 2 * k + 2 < |h| ==> h[s].1 <= h[2 * k + 2].1
    requires h[s].1 <= h[k].1
    ensures s != k ==> Parent(s) == k
    ensures forall i :: 0 < i < |h| && Parent(i) == k ==> h[s].1 <= h[i].1
  {
    forall i | 0 < i < |h| && Parent(i) == k
      ensures h[s].1 <= h[i].1
    {
      ChildrenOf(i, k);
    }
  }

  /** Of `k` and its children 2k+1 and 2k+2 (when present), the index with the least
      priority; on ties the earlier of k, left, right. */
  function Smallest<T>(h: seq<(T, int)>, k: nat): (s: nat)
    requires k < |h|
    ensures s < |h| && h[s].1 <= h[k].1
    ensures s != k ==> k < s && Parent(s) == k && h[s].1 < h[k].1
    ensures forall i :: 0 < i < |h| && Parent(i) == k ==> h[s].1 <= h[i].1
  {
    var lastIndex := |h| - 1;
    var left := k * 2 + 1;
    var right := k * 2 + 2;
    var s1 := if left <= lastIndex && h[left].1 < h[k].1 then left else k;
    var s2 := if right <= lastIndex && h[right].1 < h[s1].1 then right else s1;
    SmallestOfFamily(h, k, s2);
    s2
  }

  lemma MultisetCancel<T>(a: multiset<T>, b: multiset<T>, x: T)
    requires a + multiset{x} == b + multiset{x}
    ensures a == b
  {
    forall e
      ensures a[e] == b[e]
    {
      assert (a + multiset{x})[e] == (b + multiset{x})[e];
    }
  }

  /** One swap of HeapifyUp: `k` is smaller than its parent, so they trade places. */
  lemma {:induction false} SiftUpStep<T>(h: seq<(T, int)>, k: nat)
    requires 0 < k < |h|
    requires OrderedBut(h, k) && BridgesChildren(h, k)
    requires h[k].1 < h[Parent(k)].1
    ensures OrderedBut(h[k := h[Parent(k)]][Parent(k) := h[k]], Parent(k))
    ensures BridgesChildren(h[k := h[Parent(k)]][Parent(k) := h[k]], Parent(k))
  {
    var p := Parent(k);
    var h' := h[k := h[p]][p := h[k]];
    forall i | 0 < i < |h'| && i != p
      ensures h'[Parent(i)].1 <= h'[i].1
    {
      if i == k {
      } else if Parent(i) == k {
        assert h'[k] == h[p] && h'[i] == h[i];
      } else if Parent(i) == p {
        assert h'[p] == h[k] && h'[i] == h[i];
        assert h[p].1 <= h[i].1;
      } else {
        assert h'[Parent(i)] == h[Parent(i)] && h'[i] == h[i];
      }
    }
    if p > 0 {
      forall i | 0 < i < |h'| && Parent(i) == p
        ensures h'[Parent(p)].1 <= h'[i].1
      {
        assert h'[Parent(p)] == h[Parent(p)];
        assert h[Parent(p)].1 <= h[p].1;
        if i != k {
          assert h[p].1 <= h[i].1;
        }
      }
    }
  }

  /** One swap of HeapifyDown: `s` is the smaller child of `k` and smaller than `k`. */
  lemma {:induction false} SiftDownStep<T>(h: seq<(T, int)>, k: nat, s: nat)
    requires k < s < |h| && Parent(s) == k
    requires OrderedBelowBut(h, k) && BridgesChildren(h, k)
    requires h[s].1 < h[k].1
    requires forall i :: 0 < i < |h| && Parent(i) == k ==> h[s].1 <= h[i].1
    ensures OrderedBelowBut(h[k := h[s]][s := h[k]], s)
    ensures BridgesChildren(h[k := h[s]][s := h[k]], s)
  {
    var h' := h[k := h[s]][s := h[k]];
    forall i | 0 < i < |h'| && Parent(i) != s
      ensures h'[Parent(i)].1 <= h'[i].1
    {
      if i == s {
      } else if i == k {
        assert h'[Parent(k)] == h[Parent(k)] && h'[k] == h[s];
      } else if Parent(i) == k {
        assert h'[k] == h[s] && h'[i] == h[i];
      } else {
        assert h'[Parent(i)] == h[Parent(i)] && h'[i] == h[i];
      }
    }
    forall i | 0 < i < |h'| && Parent(i) == s
      ensures h'[Parent(s)].1 <= h'[i].1
    {
      ChildrenOf(i, s);
      assert h'[Parent(s)] == h[s] && h'[i] == h[i];
    }
  }

  class MinHeap<T> {
    var heap: seq<(T, int)>

    ghost predicate Valid()
      reads this
    {
      HeapOrdered(heap)
    }

    /** The entries currently stored, with multiplicity. */
    ghost function Elems(): multiset<(T, int)>
      reads this
    {
      multiset(heap)
    }

    function Count(): nat
      reads this
      ensures Count() == |Elems()|
    {
      |heap|
    }

    constructor ()
      ensures Valid() && Elems() == multiset{} && Count() == 0
    {
      heap := [];
    }

    method Enqueue(item: T, priority: int)
      requires Valid()
      modifies this
      ensures Valid()
      ensures Elems() == old(Elems()) + multiset{(item, priority)}
      ensures Count() == old(Count()) + 1
    {
      heap := heap + [(item, priority)];
      HeapifyUp(|heap| - 1);
    }

    /** Removes the root: the last entry moves to the root and sifts down. The C# code reads
        `_heap[0]` unconditionally, so callers must check `Count` first. */
    method Dequeue() returns (item: T)
      requires Valid()
      requires Count() > 0
      modifies this
      ensures Valid()
      ensures item == old(heap[0]).0
      ensures old(heap[0]) in old(Elems())
      ensures Elems() == old(Elems()) - multiset{old(heap[0])}
      ensures forall e :: e in Elems() ==> old(heap[0]).1 <= e.1
      ensures Count() == old(Count()) - 1
    {
      ghost var h0 := heap;
      RootIsMinimalAll(h0);
      item := heap[0].0;
      var last := |heap| - 1;
      heap := heap[0 := heap[last]];
      ghost var h1 := heap;
      assert multiset(h1) == multiset(h0) - multiset{h0[0]} + multiset{h0[last]};
      assert h1 == h1[..last] + [h0[last]];
      heap := heap[..last];
      assert multiset(h1) == multiset(heap) + multiset{h0[last]};
      MultisetCancel(multiset(heap), multiset(h0) - multiset{h0[0]}, h0[last]);
      if |heap| > 0 {
        HeapifyDown(0);
      }
    }

    /** Sifts the entry at `index` up while it is smaller than its parent. */
    method HeapifyUp(index: nat)
      requires index < |heap|
      requires OrderedBut(heap, index) && BridgesChildren(heap, index)
      modifies this
      ensures Valid()
      ensures multiset(heap) == old(multiset(heap))
      ensures |heap| == old(|heap|)
    {
      var k: nat := index;
      while k > 0
        invariant k < |heap| && |heap| == old(|heap|)
        invariant multiset(heap) == old(multiset(heap))
        invariant OrderedBut(heap, k) && BridgesChildren(heap, k)
      {
        var parent := Parent(k);
        if heap[k].1 >= heap[parent].1 {
          break;
        }
        SiftUpStep(heap, k);
        SwapKeepsMultiset(heap, k, parent);
        heap := heap[k := heap[parent]][parent := heap[k]];
        k := parent;
      }
    }

    /** Sifts the entry at `index` down while a child is smaller. */
    method HeapifyDown(index: nat)
      requires index < |heap|
      requires OrderedBelowBut(heap, index) && BridgesChildren(heap, index)
      modifies this
      ensures Valid()
      ensures multiset(heap) == old(multiset(heap))
      ensures |heap| == old(|heap|)
    {
      var lastIndex := |heap| - 1;
      var k: nat := index;
      while true
        invariant k < |heap| && |heap| == old(|heap|) && lastIndex == |heap| - 1
        invariant multiset(heap) == old(multiset(heap))
        invariant OrderedBelowBut(heap, k) && BridgesChildren(heap, k)
        decreases |heap| - k
      {
        var smallest := Smallest(heap, k);
        if smallest == k {
          break;
        }
        SiftDownStep(heap, k, smallest);
        SwapKeepsMultiset(heap, k, smallest);
        heap := heap[k := heap[smallest]][smallest := heap[k]];
        k := smallest;
      }
    }
  }
}
