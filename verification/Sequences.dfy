/** Facts about sequences that more than one component needs. */
module Sequences {

  function Cut<T>(s: seq<T>, p: nat): (t: seq<T>)
    requires p < |s|
    ensures |t| == |s| - 1
    ensures forall i :: 0 <= i < |t| ==> t[i] == s[if i < p then i else i + 1]
  {
    s[..p] + s[p + 1..]
  }

  /** What a sequence holds. Recursive, so that owners can pass it around as one fact. */
  ghost function Elements<T>(s: seq<T>): set<T> {
    if s == [] then {} else {s[0]} + Elements(s[1..])
  }

  lemma {:induction false} ElementsAre<T>(s: seq<T>)
    ensures Elements(s) == set x | x in s
  {
    if s != [] {
      ElementsAre(s[1..]);
      assert s == [s[0]] + s[1..];
    }
  }

  lemma {:induction false} ElementsConcat<T>(a: seq<T>, b: seq<T>)
    ensures Elements(a + b) == Elements(a) + Elements(b)
  {
    if a == [] {
      assert a + b == b;
    } else {
      ElementsConcat(a[1..], b);
      assert (a + b)[1..] == a[1..] + b;
    }
  }

  /** Cutting out one position takes at most that one element away. */
  lemma ElementsCut<T>(s: seq<T>, p: nat)
    requires p < |s|
    ensures Elements(s) == Elements(Cut(s, p)) + {s[p]}
  {
    var t := Cut(s, p);
    ElementsAre(s);
    ElementsAre(t);
    forall x | x in s
      ensures x in t || x == s[p]
    {
      var i :| 0 <= i < |s| && s[i] == x;
      if i != p {
        assert t[if i < p then i else i - 1] == x;
      }
    }
    forall x | x in t
      ensures x in s
    {
      var i :| 0 <= i < |t| && t[i] == x;
      assert s[if i < p then i else i + 1] == x;
    }
  }
}
