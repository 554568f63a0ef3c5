/** The doubly linked recency list (container/list) of the memory cache, as the
    sequence of its nodes, and the entries one reads off it. The predicates are
    recursive so that the cache can carry them around as single facts. */
module RecencyLists {
  import opened Wrappers
  import opened Sequences
  import opened PriorityQueues
  import opened CacheSpec

  /** No two nodes carry the same key. */
  ghost predicate Distinct(nodes: seq<ListElement>) {
    nodes == [] || (Distinct(nodes[1..]) && forall e :: e in nodes[1..] ==> e.Value != nodes[0].Value)
  }

  lemma {:induction false} DistinctPairs(nodes: seq<ListElement>)
    ensures Distinct(nodes) <==> forall i, j :: 0 <= i < j < |nodes| ==> nodes[i].Value != nodes[j].Value
  {
    if nodes != [] {
      DistinctPairs(nodes[1..]);
      if Distinct(nodes) {
        forall i, j | 0 <= i < j < |nodes|
          ensures nodes[i].Value != nodes[j].Value
        {
          if i == 0 {
            assert nodes[j] == nodes[1..][j - 1];
          } else {
            assert nodes[i] == nodes[1..][i - 1] && nodes[j] == nodes[1..][j - 1];
          }
        }
      }
    }
  }

  /** Cutting or rotating a node of a duplicate-free list. */
  lemma CutNodes(nodes: seq<ListElement>, p: nat)
    requires Distinct(nodes) && p < |nodes|
    ensures Distinct(Cut(nodes, p)) && Elements(Cut(nodes, p)) == Elements(nodes) - {nodes[p]}
    ensures Distinct(Cut(nodes, p) + [nodes[p]]) && Elements(Cut(nodes, p) + [nodes[p]]) == Elements(nodes)
  {
    CutDistinct(nodes, p);
    ElementsCut(nodes, p);
    ElementsAre(Cut(nodes, p));
    ElementsConcat(Cut(nodes, p), [nodes[p]]);
  }

  lemma CutDistinct(nodes: seq<ListElement>, p: nat)
    requires Distinct(nodes) && p < |nodes|
    ensures Distinct(Cut(nodes, p)) && Distinct(Cut(nodes, p) + [nodes[p]])
    ensures nodes[p] !in Cut(nodes, p)
  {
    DistinctPairs(nodes);
    var t := Cut(nodes, p);
    assert forall i :: 0 <= i < |t| ==> t[i].Value != nodes[p].Value;
    DistinctPairs(t);
    DistinctPairs(t + [nodes[p]]);
  }

  lemma PushNode(nodes: seq<ListElement>, e: ListElement)
    requires Distinct(nodes) && forall x :: x in Elements(nodes) ==> x.Value != e.Value
    ensures Distinct(nodes + [e]) && Elements(nodes + [e]) == Elements(nodes) + {e}
  {
    DistinctPairs(nodes);
    DistinctPairs(nodes + [e]);
    ElementsAre(nodes);
    ElementsAre(nodes + [e]);
    assert forall i :: 0 <= i < |nodes| ==> nodes[i] in Elements(nodes);
  }

  /** The list without one of its nodes. */
  ghost function Drop(nodes: seq<ListElement>, e: ListElement): seq<ListElement> {
    if nodes == [] then []
    else if nodes[0] == e then nodes[1..]
    else [nodes[0]] + Drop(nodes[1..], e)
  }

  lemma {:induction false} DropCuts(nodes: seq<ListElement>, p: nat)
    requires p < |nodes| && nodes[p] !in nodes[..p]
    ensures Drop(nodes, nodes[p]) == Cut(nodes, p)
  {
    if p > 0 {
      assert nodes[0] in nodes[..p];
      assert nodes[p] == nodes[1..][p - 1];
      assert forall e :: e in nodes[1..][..p - 1] ==> e in nodes[..p];
      DropCuts(nodes[1..], p - 1);
      assert Cut(nodes, p) == [nodes[0]] + Cut(nodes[1..], p - 1);
    }
  }

  /** Where a node of a duplicate-free list is. */
  lemma NodeAt(nodes: seq<ListElement>, e: ListElement) returns (p: nat)
    requires Distinct(nodes) && e in Elements(nodes)
    ensures p < |nodes| && nodes[p] == e && Drop(nodes, e) == Cut(nodes, p)
  {
    ElementsAre(nodes);
    DistinctPairs(nodes);
    p :| p < |nodes| && nodes[p] == e;
    DropCuts(nodes, p);
  }

  /** Every node has an entry filed under its own key. */
  ghost predicate Listable(nodes: seq<ListElement>, contents: map<string, Entry>) {
    nodes == [] ||
    (nodes[0].Value in contents && contents[nodes[0].Value].key == nodes[0].Value && Listable(nodes[1..], contents))
  }

  /** The entries in the order of their list nodes. */
  ghost function Listing(nodes: seq<ListElement>, contents: map<string, Entry>): (es: seq<Entry>)
    requires Listable(nodes, contents)
    ensures |es| == |nodes|
  {
    if nodes == [] then [] else [contents[nodes[0].Value]] + Listing(nodes[1..], contents)
  }

  lemma {:induction false} ListableAll(nodes: seq<ListElement>, contents: map<string, Entry>)
    requires forall e :: e in Elements(nodes) ==> e.Value in contents && contents[e.Value].key == e.Value
    ensures Listable(nodes, contents)
  {
    if nodes != [] {
      ListableAll(nodes[1..], contents);
    }
  }

  lemma {:induction false} ListingAt(nodes: seq<ListElement>, contents: map<string, Entry>, i: nat)
    requires Listable(nodes, contents) && i < |nodes|
    ensures nodes[i].Value in contents && contents[nodes[i].Value].key == nodes[i].Value
    ensures Listing(nodes, contents)[i] == contents[nodes[i].Value]
  {
    if i > 0 {
      ListingAt(nodes[1..], contents, i - 1);
    }
  }

  lemma ListingUnique(nodes: seq<ListElement>, contents: map<string, Entry>)
    requires Listable(nodes, contents) && Distinct(nodes)
    ensures Unique(Listing(nodes, contents))
  {
    DistinctPairs(nodes);
    forall i | 0 <= i < |nodes|
      ensures Listing(nodes, contents)[i].key == nodes[i].Value
    {
      ListingAt(nodes, contents, i);
    }
  }

  /** A listed key looks up to its entry, and an unlisted one to nothing. */
  lemma ListingHit(nodes: seq<ListElement>, contents: map<string, Entry>, e: ListElement)
    requires Listable(nodes, contents) && Distinct(nodes) && e in Elements(nodes)
    ensures e.Value in contents
    ensures Lookup(Listing(nodes, contents), e.Value) == Some(contents[e.Value])
    ensures contents[e.Value] in Listing(nodes, contents)
  {
    var p := NodeAt(nodes, e);
    ListingUnique(nodes, contents);
    ListingAt(nodes, contents, p);
    LookupFinds(Listing(nodes, contents), p);
  }

  lemma {:induction false} ListingMiss(nodes: seq<ListElement>, contents: map<string, Entry>, key: string)
    requires Listable(nodes, contents) && key !in contents
    ensures Lookup(Listing(nodes, contents), key).None?
  {
    if nodes != [] {
      ListingMiss(nodes[1..], contents, key);
    }
  }

  /** The listing depends only on the entries of the listed keys. */
  lemma {:induction false} ListingSame(nodes: seq<ListElement>, c: map<string, Entry>, d: map<string, Entry>)
    requires Listable(nodes, c)
    requires forall e :: e in nodes ==> e.Value in d && e.Value in c && c[e.Value] == d[e.Value]
    ensures Listable(nodes, d) && Listing(nodes, d) == Listing(nodes, c)
  {
    if nodes != [] {
      ListingSame(nodes[1..], c, d);
    }
  }

  lemma {:induction false} ListingConcat(a: seq<ListElement>, b: seq<ListElement>, c: map<string, Entry>)
    ensures Listable(a + b, c) <==> Listable(a, c) && Listable(b, c)
    ensures Listable(a + b, c) ==> Listing(a + b, c) == Listing(a, c) + Listing(b, c)
  {
    if a == [] {
      assert a + b == b;
    } else {
      ListingConcat(a[1..], b, c);
      assert (a + b)[1..] == a[1..] + b;
    }
  }

  /** Dropping a node from the list takes its entry out of the listing. */
  lemma DropListing(nodes: seq<ListElement>, contents: map<string, Entry>, e: ListElement)
    requires Listable(nodes, contents) && Distinct(nodes) && e in Elements(nodes)
    ensures Listable(Drop(nodes, e), contents - {e.Value})
    ensures Listing(Drop(nodes, e), contents - {e.Value}) == Without(Listing(nodes, contents), e.Value)
  {
    var p := NodeAt(nodes, e);
    var es := Listing(nodes, contents);
    ListingUnique(nodes, contents);
    ListingAt(nodes, contents, p);
    WithoutCuts(es, p);
    ListingCut(nodes, contents, p);
    CutDistinct(nodes, p);
    DistinctPairs(nodes);
    forall x | x in Cut(nodes, p)
      ensures x.Value != e.Value && x.Value in contents
    {
      var i :| 0 <= i < |Cut(nodes, p)| && Cut(nodes, p)[i] == x;
      ListingAt(Cut(nodes, p), contents, i);
    }
    ListingSame(Cut(nodes, p), contents, contents - {e.Value});
  }

  lemma ListingCut(nodes: seq<ListElement>, contents: map<string, Entry>, p: nat)
    requires Listable(nodes, contents) && p < |nodes|
    ensures Listable(Cut(nodes, p), contents)
    ensures Listing(Cut(nodes, p), contents) == Cut(Listing(nodes, contents), p)
  {
    assert nodes == nodes[..p] + ([nodes[p]] + nodes[p + 1..]);
    ListingConcat(nodes[..p], [nodes[p]] + nodes[p + 1..], contents);
    ListingConcat([nodes[p]], nodes[p + 1..], contents);
    ListingConcat(nodes[..p], nodes[p + 1..], contents);
  }

  /** Appending a node appends its entry. */
  lemma PushListing(nodes: seq<ListElement>, contents: map<string, Entry>, node: ListElement, e: Entry)
    requires Listable(nodes, contents) && node.Value == e.key && e.key !in contents
    ensures Listable(nodes + [node], contents[e.key := e])
    ensures Listing(nodes + [node], contents[e.key := e]) == Listing(nodes, contents) + [e]
  {
    forall x | x in nodes
      ensures x.Value in contents && x.Value != e.key
    {
      var i :| 0 <= i < |nodes| && nodes[i] == x;
      ListingAt(nodes, contents, i);
    }
    ListingSame(nodes, contents, contents[e.key := e]);
    ListingConcat(nodes, [node], contents[e.key := e]);
  }

  /** Moving a node to the back while its entry is overwritten. */
  lemma MoveListing(nodes: seq<ListElement>, contents: map<string, Entry>, node: ListElement, e: Entry)
    requires Listable(nodes, contents) && Distinct(nodes) && node in Elements(nodes) && node.Value == e.key
    ensures Listable(Drop(nodes, node) + [node], contents[e.key := e])
    ensures Listing(Drop(nodes, node) + [node], contents[e.key := e]) == Put(Listing(nodes, contents), e)
  {
    DropListing(nodes, contents, node);
    PushListing(Drop(nodes, node), contents - {e.key}, node, e);
    assert (contents - {e.key})[e.key := e] == contents[e.key := e];
  }

  class RecencyList {
    var nodes: seq<ListElement>

    ghost predicate Valid()
      reads this
    {
      Distinct(nodes)
    }

    ghost function Members(): set<ListElement>
      reads this
    {
      Elements(nodes)
    }

    constructor ()
      ensures Valid() && nodes == []
    {
      nodes := [];
    }

    /** Finds a node by following the links from the front. */
    method Find(ele: ListElement) returns (p: nat)
      requires ele in nodes
      ensures p < |nodes| && nodes[p] == ele && ele !in nodes[..p]
    {
      p := 0;
      while nodes[p] != ele
        invariant p < |nodes| && ele !in nodes[..p]
        decreases |nodes| - p
      {
        p := p + 1;
      }
    }

    method Remove(ele: ListElement)
      requires Valid() && ele in Members()
      modifies this
      ensures Valid() && Members() == old(Members()) - {ele}
      ensures nodes == Drop(old(nodes), ele)
    {
      ElementsAre(nodes);
      var p := Find(ele);
      CutNodes(nodes, p);
      DropCuts(nodes, p);
      nodes := Cut(nodes, p);
    }

    method PushBack(value: string) returns (ele: ListElement)
      requires Valid() && forall x :: x in Members() ==> x.Value != value
      modifies this
      ensures Valid() && fresh(ele) && ele.Value == value
      ensures nodes == old(nodes) + [ele] && Members() == old(Members()) + {ele}
    {
      ele := new ListElement(value);
      PushNode(nodes, ele);
      nodes := nodes + [ele];
    }

    method MoveToBack(ele: ListElement)
      requires Valid() && ele in Members()
      modifies this
      ensures Valid() && Members() == old(Members())
      ensures nodes == Drop(old(nodes), ele) + [ele]
    {
      ElementsAre(nodes);
      var p := Find(ele);
      CutNodes(nodes, p);
      DropCuts(nodes, p);
      nodes := Cut(nodes, p) + [ele];
    }
  }
}
