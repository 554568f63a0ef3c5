/** What the memory cache means, without its heap, list nodes and back-pointers:
    one sequence of entries, least recently used first, and a byte counter. */
module CacheSpec {
  import opened Wrappers

  datatype Entry = Entry(key: string, value: string, deadline: int)

  datatype State = State(entries: seq<Entry>, used: int, limit: int)

  /** Hangs: RemoveOldest never returns, because the list is empty and the counter is still too high. */
  datatype SetOutcome = Stored | EncodeFailed | TooLarge | Hangs

  function Size(key: string, value: string): nat {
    |key| + |value|
  }

  function Live(es: seq<Entry>): nat {
    if es == [] then 0 else Size(es[0].key, es[0].value) + Live(es[1..])
  }

  ghost predicate Unique(es: seq<Entry>) {
    forall i, j :: 0 <= i < j < |es| ==> es[i].key != es[j].key
  }

  function Without(es: seq<Entry>, key: string): seq<Entry> {
    if es == [] then []
    else if es[0].key == key then Without(es[1..], key)
    else [es[0]] + Without(es[1..], key)
  }

  function Unexpired(es: seq<Entry>, now: int): seq<Entry> {
    if es == [] then []
    else if es[0].deadline <= now then Unexpired(es[1..], now)
    else [es[0]] + Unexpired(es[1..], now)
  }

  function Lookup(es: seq<Entry>, key: string): (r: Option<Entry>)
    ensures r.Some? ==> r.value.key == key && r.value in es
    ensures r.None? ==> forall i :: 0 <= i < |es| ==> es[i].key != key
  {
    if es == [] then None
    else if es[0].key == key then Some(es[0])
    else Lookup(es[1..], key)
  }

  predicate Over(s: State) {
    s.limit != 0 && s.used > s.limit
  }

  function DropOldest(s: State): State
    requires s.entries != []
  {
    s.(entries := s.entries[1..], used := s.used - Size(s.entries[0].key, s.entries[0].value))
  }

  /** RemoveOldest, stopped where the original has no list node left to remove. */
  function Trim(s: State): State
    decreases |s.entries|
  {
    if Over(s) && s.entries != [] then Trim(DropOldest(s)) else s
  }

  function Delete(s: State, e: Entry): State {
    s.(entries := Without(s.entries, e.key), used := s.used - Size(e.key, e.value))
  }

  function Put(es: seq<Entry>, e: Entry): seq<Entry> {
    Without(es, e.key) + [e]
  }

  function SetStep(s: State, key: string, encoded: Option<string>, deadline: int): (State, SetOutcome) {
    if encoded.None? then (s, EncodeFailed)
    else if s.limit != 0 && s.limit < Size(key, encoded.value) then (s, TooLarge)
    else
      var t := Admit(s, Size(key, encoded.value));
      if Over(t) then (t, Hangs)
      else (t.(entries := Put(t.entries, Entry(key, encoded.value, deadline))), Stored)
  }

  /** Making room for n more bytes. */
  function Admit(s: State, n: nat): State {
    Trim(s.(used := s.used + n))
  }

  function GetStep(s: State, key: string, now: int): (State, Option<string>) {
    match Lookup(s.entries, key)
    case None => (s, None)
    case Some(e) =>
      if e.deadline < now then (Delete(s, e), None)
      else (s.(entries := Put(s.entries, e)), Some(e.value))
  }

  function EvictStep(s: State, now: int): State {
    var kept := Unexpired(s.entries, now);
    s.(entries := kept, used := s.used - (Live(s.entries) - Live(kept)))
  }

  function GcStep(s: State): State {
    s.(entries := [], used := 0)
  }

  const MAX_TIMEOUT: int := 365 * 24 * 3600
  const NANOS: int := 1_000_000_000

  /** Two's-complement wrap-around of Go's int64. */
  function Wrap64(x: int): (r: int)
    ensures -0x8000_0000_0000_0000 <= r < 0x8000_0000_0000_0000
    ensures -0x8000_0000_0000_0000 <= x < 0x8000_0000_0000_0000 ==> r == x
  {
    (x + 0x8000_0000_0000_0000) % 0x1_0000_0000_0000_0000 - 0x8000_0000_0000_0000
  }

  /** The stored Expiration of an entry set at instant now for exp seconds. */
  function Deadline(now: int, exp: int): int {
    Wrap64(now + Wrap64((if exp <= 0 then MAX_TIMEOUT else exp) * NANOS))
  }

  // ---------- sequences of entries ----------

  lemma {:induction false} LiveConcat(a: seq<Entry>, b: seq<Entry>)
    ensures Live(a + b) == Live(a) + Live(b)
  {
    if a == [] {
      assert a + b == b;
    } else {
      LiveConcat(a[1..], b);
      assert (a + b)[1..] == a[1..] + b;
    }
  }

  lemma {:induction false} WithoutAbsent(es: seq<Entry>, key: string)
    requires forall i :: 0 <= i < |es| ==> es[i].key != key
    ensures Without(es, key) == es
  {
    if es != [] {
      WithoutAbsent(es[1..], key);
    }
  }

  /** With unique keys, removing a key cuts out exactly its own position. */
  lemma {:induction false} WithoutCuts(es: seq<Entry>, p: nat)
    requires Unique(es) && p < |es|
    ensures Without(es, es[p].key) == es[..p] + es[p + 1..]
  {
    if p == 0 {
      WithoutAbsent(es[1..], es[0].key);
      assert es[..0] + es[1..] == es[1..];
    } else {
      WithoutCuts(es[1..], p - 1);
      assert es[..p] + es[p + 1..] == [es[0]] + (es[1..][..p - 1] + es[1..][p..]);
    }
  }

  lemma {:induction false} LookupFinds(es: seq<Entry>, p: nat)
    requires Unique(es) && p < |es|
    ensures Lookup(es, es[p].key) == Some(es[p])
  {
    if p > 0 {
      LookupFinds(es[1..], p - 1);
    }
  }

  lemma {:induction false} LookupWithout(es: seq<Entry>, key: string, other: string)
    ensures Lookup(Without(es, key), other) == if other == key then None else Lookup(es, other)
  {
    if es != [] {
      LookupWithout(es[1..], key, other);
      if es[0].key != key {
        assert Without(es, key)[1..] == Without(es[1..], key);
      }
    }
  }

  lemma {:induction false} LookupConcat(a: seq<Entry>, b: seq<Entry>, key: string)
    ensures Lookup(a + b, key) == if Lookup(a, key).Some? then Lookup(a, key) else Lookup(b, key)
  {
    if a == [] {
      assert a + b == b;
    } else {
      LookupConcat(a[1..], b, key);
      assert (a + b)[1..] == a[1..] + b;
    }
  }

  lemma {:induction false} LookupPut(es: seq<Entry>, e: Entry, key: string)
    ensures Lookup(Put(es, e), key) == if key == e.key then Some(e) else Lookup(es, key)
  {
    LookupConcat(Without(es, e.key), [e], key);
    LookupWithout(es, e.key, key);
  }

  lemma {:induction false} LookupUnexpired(es: seq<Entry>, now: int, key: string)
    requires Unique(es)
    ensures Lookup(Unexpired(es, now), key) ==
            if Lookup(es, key).Some? && Lookup(es, key).value.deadline > now then Lookup(es, key) else None
  {
    if es != [] {
      LookupUnexpired(es[1..], now, key);
      if es[0].deadline > now {
        assert Unexpired(es, now)[1..] == Unexpired(es[1..], now);
      } else if es[0].key == key {
        if Lookup(es[1..], key).Some? {
          assert false;
        }
      }
    }
  }

  lemma {:induction false} UniqueWithout(es: seq<Entry>, key: string)
    requires Unique(es)
    ensures Unique(Without(es, key))
    ensures forall e :: e in Without(es, key) <==> e in es && e.key != key
  {
    if es != [] {
      UniqueWithout(es[1..], key);
      if es[0].key != key {
        assert forall e :: e in Without(es[1..], key) ==> e in es[1..];
      }
    }
  }

  lemma {:induction false} UniqueUnexpired(es: seq<Entry>, now: int)
    requires Unique(es)
    ensures Unique(Unexpired(es, now))
    ensures forall e :: e in Unexpired(es, now) <==> e in es && e.deadline > now
  {
    if es != [] {
      UniqueUnexpired(es[1..], now);
      if es[0].deadline > now {
        assert forall e :: e in Unexpired(es[1..], now) ==> e in es[1..];
      }
    }
  }

  lemma UniquePut(es: seq<Entry>, e: Entry)
    requires Unique(es)
    ensures Unique(Put(es, e))
  {
    UniqueWithout(es, e.key);
    forall i | 0 <= i < |Without(es, e.key)|
      ensures Without(es, e.key)[i].key != e.key
    {
      assert Without(es, e.key)[i] in Without(es, e.key);
    }
  }

  lemma {:induction false} LiveWithout(es: seq<Entry>, e: Entry)
    requires Unique(es) && e in es
    ensures Live(es) == Live(Without(es, e.key)) + Size(e.key, e.value)
  {
    var p :| 0 <= p < |es| && es[p] == e;
    WithoutCuts(es, p);
    LiveConcat(es[..p], es[p..]);
    LiveConcat(es[..p], es[p + 1..]);
    assert es == es[..p] + es[p..];
  }

  /** Evicting one expired entry at a time reaches the same survivors. */
  lemma {:induction false} UnexpiredWithout(es: seq<Entry>, e: Entry, now: int)
    requires Unique(es) && e in es && e.deadline <= now
    ensures Unexpired(Without(es, e.key), now) == Unexpired(es, now)
  {
    if es[0] == e {
      assert forall i :: 0 <= i < |es[1..]| ==> es[1..][i].key != e.key;
      WithoutAbsent(es[1..], e.key);
    } else {
      assert e in es[1..];
      UnexpiredWithout(es[1..], e, now);
      assert es[0].key != e.key;
      assert Without(es, e.key)[1..] == Without(es[1..], e.key);
    }
  }

  lemma {:induction false} UnexpiredAll(es: seq<Entry>, now: int)
    requires forall e :: e in es ==> e.deadline > now
    ensures Unexpired(es, now) == es
  {
    if es != [] {
      UnexpiredAll(es[1..], now);
    }
  }

  lemma LivePut(es: seq<Entry>, e: Entry)
    requires Unique(es)
    ensures Live(Put(es, e)) == Live(Without(es, e.key)) + Size(e.key, e.value)
    ensures Live(Without(es, e.key)) <= Live(es)
  {
    LiveConcat(Without(es, e.key), [e]);
    match Lookup(es, e.key)
    case None => WithoutAbsent(es, e.key);
    case Some(was) => LiveWithout(es, was);
  }

  lemma DeletingTheOldest(s: State)
    requires Unique(s.entries) && s.entries != []
    ensures Delete(s, s.entries[0]) == DropOldest(s)
  {
    WithoutCuts(s.entries, 0);
  }

  lemma WithoutMiss(es: seq<Entry>, key: string)
    requires Lookup(es, key).None?
    ensures Without(es, key) == es
  {
    WithoutAbsent(es, key);
  }

  /** Trimming keeps the gap between the counter and the live bytes, and unique keys. */
  lemma {:induction false} TrimKeepsGap(s: State)
    requires Unique(s.entries)
    ensures Unique(Trim(s).entries)
    ensures Trim(s).used - Live(Trim(s).entries) == s.used - Live(s.entries)
    ensures Trim(s).limit == s.limit
    decreases |s.entries|
  {
    if Over(s) && s.entries != [] {
      TrimKeepsGap(DropOldest(s));
    }
  }
}
