/** The order of a binary min-heap, stated on the sequence of deadlines that the
    queue's items carry, and what one swap of container/heap does to it. */
module Heaps {

  /** Go divides toward zero, so the parent of slot 0 is slot 0 itself. */
  function Parent(j: nat): nat {
    if j == 0 then 0 else (j - 1) / 2
  }

  function Swapped<T>(s: seq<T>, i: nat, j: nat): seq<T>
    requires i < |s| && j < |s|
  {
    s[i := s[j]][j := s[i]]
  }

  /** The first n slots form a heap. */
  ghost predicate Ordered(p: seq<int>, n: nat)
    requires n <= |p|
  {
    forall j :: 0 < j < n ==> p[Parent(j)] <= p[j]
  }

  /** The children of slot i are not before the parent of slot i. */
  ghost predicate Bridged(p: seq<int>, i: nat, n: nat)
    requires i < n <= |p|
  {
    0 < i ==> forall j :: 0 < j < n && Parent(j) == i ==> p[Parent(i)] <= p[j]
  }

  /** A heap, except possibly between slot i and its parent. */
  ghost predicate OrderedBelow(p: seq<int>, i: nat, n: nat)
    requires i < n <= |p|
  {
    && (forall j :: 0 < j < n && j != i ==> p[Parent(j)] <= p[j])
    && Bridged(p, i, n)
  }

  /** A heap, except possibly between slot i and its parent or children. */
  ghost predicate OrderedAround(p: seq<int>, i: nat, n: nat)
    requires i < n <= |p|
  {
    && (forall j :: 0 < j < n && j != i && Parent(j) != i ==> p[Parent(j)] <= p[j])
    && Bridged(p, i, n)
  }

  lemma {:induction false} RootIsMinimum(p: seq<int>, j: nat)
    requires j < |p| && Ordered(p, |p|)
    ensures p[0] <= p[j]
  {
    if j != 0 {
      RootIsMinimum(p, Parent(j));
    }
  }

  /** One round of up: the swap with a later parent moves the defect to the parent. */
  lemma UpStep(p: seq<int>, j: nat, n: nat)
    requires 0 < j < n <= |p| && OrderedBelow(p, j, n) && p[j] < p[Parent(j)]
    ensures OrderedBelow(Swapped(p, Parent(j), j), Parent(j), n)
  {
    var i := Parent(j);
    var q := Swapped(p, i, j);
    forall k | 0 < k < n && k != i
      ensures q[Parent(k)] <= q[k]
    {
      if Parent(k) == i {
        assert p[i] <= p[k] || k == j;
      }
    }
    forall k | 0 < i && 0 < k < n && Parent(k) == i
      ensures q[Parent(i)] <= q[k]
    {
      assert p[Parent(i)] <= p[i];
    }
  }

  /** The child that down compares with: the earlier of the two inside the first n slots. */
  function EarlierChild(p: seq<int>, i: nat, n: nat): (c: nat)
    requires 2 * i + 1 < n <= |p|
    ensures 0 < c < n && Parent(c) == i
    ensures forall k :: 0 < k < n && Parent(k) == i ==> p[c] <= p[k]
  {
    var left := 2 * i + 1;
    assert forall k :: 0 < k < n && Parent(k) == i ==> k == left || k == left + 1;
    if left + 1 < n && p[left + 1] < p[left] then left + 1 else left
  }

  /** Slot i is not before its parent. */
  ghost predicate Settled(p: seq<int>, i: nat)
    requires i < |p|
  {
    0 < i && p[Parent(i)] <= p[i]
  }

  /** One round of down: the swap with the earlier child moves the defect to that child. */
  lemma DownStep(p: seq<int>, i: nat, n: nat)
    requires 2 * i + 1 < n <= |p| && OrderedAround(p, i, n)
    requires p[EarlierChild(p, i, n)] < p[i]
    ensures var c := EarlierChild(p, i, n);
      && OrderedAround(Swapped(p, i, c), c, n)
      && Settled(Swapped(p, i, c), c)
  {
    var c := EarlierChild(p, i, n);
    var q := Swapped(p, i, c);
    forall k | 0 < k < n && k != c && Parent(k) != c
      ensures q[Parent(k)] <= q[k]
    {
      if k == i {
        assert p[Parent(i)] <= p[c];
      }
    }
    forall k | 0 < k < n && Parent(k) == c
      ensures q[Parent(c)] <= q[k]
    {
      assert p[c] <= p[k];
    }
  }

  /** Down stops where no child is earlier: only the edge to the parent can be wrong. */
  lemma DownStops(p: seq<int>, i: nat, n: nat)
    requires i < n <= |p| && OrderedAround(p, i, n)
    requires 2 * i + 1 < n ==> p[i] <= p[EarlierChild(p, i, n)]
    ensures OrderedBelow(p, i, n)
  {
    forall j | 0 < j < n && j != i
      ensures p[Parent(j)] <= p[j]
    {
      if Parent(j) == i {
        assert p[EarlierChild(p, i, n)] <= p[j];
      }
    }
  }

  /** Overwriting one slot of a heap spoils it only around that slot. */
  lemma OverwrittenSlot(p: seq<int>, i: nat, v: int, n: nat)
    requires i < n <= |p| && Ordered(p, n)
    ensures OrderedAround(p[i := v], i, n)
  {
    var q := p[i := v];
    forall j | 0 < i && 0 < j < n && Parent(j) == i
      ensures q[Parent(i)] <= q[j]
    {
      assert p[Parent(i)] <= p[i] <= p[j];
    }
  }
}

/** The expiration heap of the memory cache: the slice of item pointers, its
    Swap, Push and Pop, and the container/heap algorithms that drive them. */
module PriorityQueues {
  import opened Heaps
  import opened Sequences

  /** A node of the recency list; its value is the cache key. */
  class ListElement {
    const Value: string

    constructor (value: string)
      ensures Value == value
    {
      Value := value;
    }
  }

  class CacheItem {
    const Key: string
    var Value: string
    var Expiration: int
    var Index: int
    var ListEle: ListElement

    constructor (key: string, value: string, expiration: int, listEle: ListElement)
      ensures Key == key && Value == value && Expiration == expiration && ListEle == listEle
    {
      Key, Value, Expiration, ListEle := key, value, expiration, listEle;
      Index := 0;
    }
  }

  class PriorityQueue {
    var items: seq<CacheItem>

    constructor ()
      ensures items == [] && Valid()
    {
      items := [];
    }

    /** Every item knows its own slot. */
    ghost predicate Indexed()
      reads this, items
    {
      forall i :: 0 <= i < |items| ==> items[i].Index == i
    }

    /** What Less compares: the deadlines, slot by slot. */
    ghost function Deadlines(): (p: seq<int>)
      reads this, items
      ensures |p| == |items|
      ensures forall i :: 0 <= i < |p| ==> p[i] == items[i].Expiration
    {
      seq(|items|, i requires 0 <= i < |items| reads this, items => items[i].Expiration)
    }

    /** The items in the slots, as the sift methods see them. */
    ghost function Slots(): set<CacheItem>
      reads this
    {
      set x | x in items
    }

    /** The items in the queue, as its owner sees them. */
    ghost function Members(): set<CacheItem>
      reads this
    {
      Elements(items)
    }

    ghost predicate Valid()
      reads this, items
    {
      Indexed() && Ordered(Deadlines(), |items|)
    }

    method Swap(i: nat, j: nat)
      requires Indexed() && i < |items| && j < |items|
      modifies this, Slots()`Index
      ensures items == Swapped(old(items), i, j)
      ensures Deadlines() == Swapped(old(Deadlines()), i, j)
      ensures Indexed() && Slots() == old(Slots())
    {
      items := items[i := items[j]][j := items[i]];
      items[i].Index := i;
      items[j].Index := j;
      SwapKeepsMembers(old(items), i, j);
    }

    static lemma SwapKeepsMembers(s: seq<CacheItem>, i: nat, j: nat)
      requires i < |s| && j < |s|
      ensures (set x | x in Swapped(s, i, j)) == (set x | x in s)
    {
      var t := Swapped(s, i, j);
      forall x | x in s
        ensures x in t
      {
        var k :| 0 <= k < |s| && s[k] == x;
        assert t[if k == i then j else if k == j then i else k] == x;
      }
    }

    /** container/heap up. */
    method Up(start: nat, ghost n: nat)
      requires Indexed() && start < n <= |items| && OrderedBelow(Deadlines(), start, n)
      modifies this, Slots()`Index
      ensures |items| == old(|items|) && items[n..] == old(items[n..])
      ensures Slots() == old(Slots())
      ensures Indexed() && Ordered(Deadlines(), n)
    {
      var j: nat := start;
      while true
        invariant j < n <= |items| == old(|items|) && items[n..] == old(items[n..])
        invariant Slots() == old(Slots())
        invariant Indexed() && OrderedBelow(Deadlines(), j, n)
        decreases j
      {
        var i := Parent(j);
        if i == j || !(items[j].Expiration < items[i].Expiration) {
          break;
        }
        UpStep(Deadlines(), j, n);
        Swap(i, j);
        j := i;
      }
    }

    /** The child of slot i that Less puts first. */
    method PickChild(i: nat, n: nat) returns (child: nat)
      requires 2 * i + 1 < n <= |items|
      ensures child == EarlierChild(Deadlines(), i, n)
    {
      child := 2 * i + 1;
      if child + 1 < n && items[child + 1].Expiration < items[child].Expiration {
        child := child + 1;
      }
    }

    /** One round of down: swaps slot i with its earlier child when that child is earlier. */
    method SiftOnce(i: nat, n: nat) returns (child: nat, moved: bool)
      requires Indexed() && i < n <= |items|
      modifies this, Slots()`Index
      ensures Slots() == old(Slots()) && Indexed()
      ensures moved <==> 2 * i + 1 < n && old(Deadlines()[EarlierChild(Deadlines(), i, n)] < Deadlines()[i])
      ensures !moved ==> items == old(items)
      ensures moved ==> child == EarlierChild(old(Deadlines()), i, n) && items == Swapped(old(items), i, child)
      ensures Deadlines() == if moved then Swapped(old(Deadlines()), i, child) else old(Deadlines())
    {
      child, moved := 0, false;
      if 2 * i + 1 < n {
        child := PickChild(i, n);
        if items[child].Expiration < items[i].Expiration {
          moved := true;
          Swap(i, child);
        }
      }
    }

    /** container/heap down over the first n slots; reports whether the item moved. */
    method Down(start: nat, n: nat) returns (moved: bool)
      requires Indexed() && start < n <= |items| && OrderedAround(Deadlines(), start, n)
      modifies this, Slots()`Index
      ensures |items| == old(|items|) && items[n..] == old(items[n..])
      ensures Slots() == old(Slots())
      ensures Indexed()
      ensures moved ==> Ordered(Deadlines(), n)
      ensures !moved ==> OrderedBelow(Deadlines(), start, n)
    {
      var i: nat := start;
      while true
        invariant start <= i < n <= |items| == old(|items|) && items[n..] == old(items[n..])
        invariant Slots() == old(Slots())
        invariant Indexed() && OrderedAround(Deadlines(), i, n)
        invariant i != start ==> Settled(Deadlines(), i)
        decreases n - i
      {
        ghost var p := Deadlines();
        var child, swapped := SiftOnce(i, n);
        if !swapped {
          DownStops(p, i, n);
          break;
        }
        DownStep(p, i, n);
        i := child;
      }
      moved := i > start;
    }

    /** container/heap Push: append, record the slot, sift up. */
    method Push(item: CacheItem)
      requires Valid() && item !in Members()
      modifies this, Members()`Index, item`Index
      ensures Valid() && Members() == old(Members()) + {item}
    {
      ElementsAre(items);
      item.Index := |items|;
      items := items + [item];
      assert Deadlines() == old(Deadlines()) + [item.Expiration];
      Up(|items| - 1, |items|);
      ElementsAre(items);
    }

    /** The sift shared by Fix and Remove: down, and up when down did not move the item. */
    method Settle(i: nat, n: nat)
      requires Indexed() && i < n <= |items| && OrderedAround(Deadlines(), i, n)
      modifies this, Slots()`Index
      ensures |items| == old(|items|) && items[n..] == old(items[n..])
      ensures Slots() == old(Slots())
      ensures Indexed() && Ordered(Deadlines(), n)
    {
      var moved := Down(i, n);
      if !moved {
        Up(i, n);
      }
    }

    /** container/heap Fix after the item in slot i was re-timed. */
    method Fix(i: nat)
      requires Indexed() && i < |items| && OrderedAround(Deadlines(), i, |items|)
      modifies this, Members()`Index
      ensures Valid() && Members() == old(Members())
    {
      ElementsAre(items);
      Settle(i, |items|);
      ElementsAre(items);
    }

    /** PriorityQueue.Pop: cut the last slot off. */
    method Pop() returns (item: CacheItem)
      requires Indexed() && items != []
      modifies this, {items[|items| - 1]}`Index
      ensures item == old(items[|items| - 1]) && items == old(items[..|items| - 1])
      ensures item.Index == -1 && Indexed()
      ensures Slots() == old(Slots()) - {item}
    {
      var n := |items| - 1;
      item := items[n];
      assert forall k :: 0 <= k < n ==> items[k].Index == k;
      assert items == items[..n] + [item];
      items := items[..n];
      item.Index := -1;
    }

    /** container/heap Remove of slot i: swap with the last slot, sift, pop. */
    method Remove(i: nat) returns (item: CacheItem)
      requires Valid() && i < |items|
      modifies this, Members()`Index
      ensures Valid() && Members() == old(Members()) - {item}
      ensures item == old(items[i]) && item.Index == -1
      ensures |items| == old(|items|) - 1
    {
      ElementsAre(items);
      SinkToEnd(i);
      item := Pop();
      ElementsAre(items);
    }

    /** Puts the item of slot i behind a heap of all the others. */
    method SinkToEnd(i: nat)
      requires Valid() && i < |items|
      modifies this, Slots()`Index
      ensures |items| == old(|items|) && Slots() == old(Slots())
      ensures Indexed() && Ordered(Deadlines(), |items| - 1)
      ensures items[|items| - 1] == old(items[i])
    {
      var n := |items| - 1;
      if n != i {
        OverwrittenSlot(Deadlines(), i, items[n].Expiration, n);
        Swap(i, n);
        Settle(i, n);
        assert items[n] == items[n..][0];
      }
    }

    /** No item of the queue expires before the one in slot 0. */
    lemma FirstExpiresFirst(item: CacheItem)
      requires Valid() && item in Members()
      ensures items != [] && items[0].Expiration <= item.Expiration
    {
      OwnSlot(item);
      RootIsMinimum(Deadlines(), item.Index);
    }

    /** An item of the queue sits in the slot it names. */
    lemma OwnSlot(item: CacheItem)
      requires Valid() && item in Members()
      ensures 0 <= item.Index < |items| && items[item.Index] == item
    {
      ElementsAre(items);
    }
  }
}
