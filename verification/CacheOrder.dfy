/** What the order of the cache's entries means, from the events of a run alone: when each key was
    last used, what it was last set to, and for how many seconds. */
module CacheOrder {
  import opened Wrappers
  import opened CacheSpec
  import opened CacheRuns

  /** The event uses the key, if the cache holds the key afterwards: it asks for it, or sets it to a
      value that fits. */
  predicate Uses(limit: int, e: Event, key: string) {
    || (e.DoGet? && e.key == key)
    || (e.DoSet? && e.key == key && e.encoded.Some? && (limit == 0 || |key| + |e.encoded.value| <= limit))
  }

  /** The index of the last event that uses the key; -1 when there is none. */
  function LastUse(limit: int, events: seq<Event>, key: string): (i: int)
    ensures -1 <= i < |events|
  {
    if events == [] then -1
    else if Uses(limit, events[|events| - 1], key) then |events| - 1
    else LastUse(limit, events[..|events| - 1], key)
  }

  /** Each entry is later than the one before it. */
  ghost predicate Rising(es: seq<Entry>, when: string -> int) {
    forall i, j | 0 <= i < j < |es| :: when(es[i].key) < when(es[j].key)
  }

  lemma {:induction false} RisingWithout(es: seq<Entry>, key: string, when: string -> int)
    requires Rising(es, when) && Unique(es)
    ensures Rising(Without(es, key), when)
  {
    if es != [] {
      RisingWithout(es[1..], key, when);
      UniqueWithout(es[1..], key);
      if es[0].key != key {
        RisingPrepend(es[0], Without(es[1..], key), es, when);
      }
    }
  }

  lemma {:induction false} RisingUnexpired(es: seq<Entry>, now: int, when: string -> int)
    requires Rising(es, when) && Unique(es)
    ensures Rising(Unexpired(es, now), when)
  {
    if es != [] {
      RisingUnexpired(es[1..], now, when);
      UniqueUnexpired(es[1..], now);
      if es[0].deadline > now {
        RisingPrepend(es[0], Unexpired(es[1..], now), es, when);
      }
    }
  }

  lemma RisingPrepend(first: Entry, rest: seq<Entry>, es: seq<Entry>, when: string -> int)
    requires Rising(es, when) && es != [] && es[0] == first && Rising(rest, when)
    requires forall e | e in rest :: e in es[1..]
    ensures Rising([first] + rest, when)
  {
    forall j | 0 <= j < |rest|
      ensures when(first.key) < when(rest[j].key)
    {
      assert rest[j] in es[1..];
      var i :| 0 <= i < |es[1..]| && es[1..][i] == rest[j];
      assert es[i + 1] == rest[j];
    }
  }

  /** Moving or adding a key at the back, where it was used last. */
  lemma RisingPut(es: seq<Entry>, e: Entry, when: string -> int, now: string -> int)
    requires Rising(es, when) && Unique(es)
    requires forall key | key != e.key :: now(key) == when(key) < now(e.key)
    ensures Rising(Put(es, e), now)
  {
    RisingWithout(es, e.key, when);
    UniqueWithout(es, e.key);
    var rest := Without(es, e.key);
    forall i | 0 <= i < |rest|
      ensures rest[i].key != e.key
    {
      assert rest[i] in rest;
    }
  }

  lemma {:induction false} TrimIsSuffix(s: State) returns (k: nat)
    ensures k <= |s.entries| && Trim(s).entries == s.entries[k..] && Trim(s).limit == s.limit
    decreases |s.entries|
  {
    if Over(s) && s.entries != [] {
      k := TrimIsSuffix(DropOldest(s));
      k := k + 1;
    } else {
      k := 0;
    }
  }

  lemma SetKeepsOrder(s: State, e: Event, when: string -> int, now: string -> int)
    requires Sound(s) && Rising(s.entries, when) && e.DoSet?
    requires forall key :: now(key) == when(key) || (key == e.key && Uses(s.limit, e, key))
    requires Uses(s.limit, e, e.key) ==> forall key | key != e.key :: now(key) == when(key) < now(e.key)
    ensures Rising(Step(s, e).entries, now)
  {
    if Uses(s.limit, e, e.key) {
      var charged := s.(used := s.used + Size(e.key, e.encoded.value));
      var k := TrimIsSuffix(charged);
      TrimFits(charged);
      TrimKeepsGap(charged);
      RisingPut(Trim(charged).entries, Entry(e.key, e.encoded.value, Deadline(e.now, e.exp)), when, now);
    }
  }

  lemma GetKeepsOrder(s: State, e: Event, when: string -> int, now: string -> int)
    requires Sound(s) && Rising(s.entries, when) && e.DoGet?
    requires forall key | key != e.key :: now(key) == when(key) < now(e.key)
    ensures Rising(Step(s, e).entries, now)
  {
    match Lookup(s.entries, e.key) {
      case None =>
        assert forall i | 0 <= i < |s.entries| :: s.entries[i].key != e.key;
      case Some(entry) =>
        RisingPut(s.entries, entry, when, now);
        RisingWithout(s.entries, e.key, when);
        UniqueWithout(s.entries, e.key);
        var rest := Without(s.entries, e.key);
        assert forall i | 0 <= i < |rest| :: rest[i] in rest;
    }
  }

  /** In every run the entries stand in the order of their last use: a hit makes its entry the most
      recent, and so does a Set. */
  lemma {:induction false} EntriesStandByLastUse(limit: int, events: seq<Event>)
    ensures Rising(Run(State([], 0, limit), events).entries, key => LastUse(limit, events, key))
  {
    if events != [] {
      var before, e := events[..|events| - 1], events[|events| - 1];
      EntriesStandByLastUse(limit, before);
      LiveNeverExceedsUsedInRuns(limit, before);
      var s := Run(State([], 0, limit), before);
      var when, now := key => LastUse(limit, before, key), key => LastUse(limit, events, key);
      match e
      case DoSet(_, _, _, _) => SetKeepsOrder(s, e, when, now);
      case DoGet(_, _) => GetKeepsOrder(s, e, when, now);
      case DoEvict(at) => RisingUnexpired(s.entries, at, when);
      case DoGc(_) =>
    }
  }

  /** A Set drops entries from the front alone, and what it keeps besides its own stood behind them. */
  lemma SetCutsFront(s: State, e: Event) returns (k: nat)
    requires Sound(s) && e.DoSet?
    ensures k <= |s.entries|
    ensures forall x | x in Step(s, e).entries && x.key != e.key :: x in s.entries[k..]
    ensures forall x | x in s.entries[k..] && x.key != e.key :: x in Step(s, e).entries
  {
    if Uses(s.limit, e, e.key) {
      var charged := s.(used := s.used + Size(e.key, e.encoded.value));
      k := TrimIsSuffix(charged);
      TrimFits(charged);
      TrimKeepsGap(charged);
      UniqueWithout(Trim(charged).entries, e.key);
    } else {
      k := 0;
    }
  }

  lemma FrontWasUsedBefore(es: seq<Entry>, k: nat, gone: Entry, kept: Entry, when: string -> int)
    requires Rising(es, when) && k <= |es| && gone in es && gone !in es[k..] && kept in es[k..]
    ensures when(gone.key) < when(kept.key)
  {
    var g :| 0 <= g < |es| && es[g] == gone;
    var j :| 0 <= j < |es[k..]| && es[k..][j] == kept;
    forall i | k <= i < |es|
      ensures es[i] != gone
    {
      assert es[k..][i - k] == es[i];
    }
    assert es[j + k] == kept;
  }

  /** What a Set evicts was used before everything that it keeps. */
  lemma EvictsTheLeastRecentlyUsed(limit: int, events: seq<Event>, e: Event, gone: Entry, kept: Entry)
    requires e.DoSet? && gone.key != e.key && kept.key != e.key
    requires gone in Run(State([], 0, limit), events).entries
    requires gone !in Step(Run(State([], 0, limit), events), e).entries
    requires kept in Step(Run(State([], 0, limit), events), e).entries
    ensures LastUse(limit, events, gone.key) < LastUse(limit, events, kept.key)
  {
    LiveNeverExceedsUsedInRuns(limit, events);
    EntriesStandByLastUse(limit, events);
    var s := Run(State([], 0, limit), events);
    var k := SetCutsFront(s, e);
    FrontWasUsedBefore(s.entries, k, gone, kept, key => LastUse(limit, events, key));
  }

  // ---------- what a held key was last set to ----------

  /** The value and deadline of the last Set of the key that fits, since the last Gc. */
  function LastStored(limit: int, events: seq<Event>, key: string): Option<Entry> {
    if events == [] then None
    else
      var e := events[|events| - 1];
      if e.DoGc? then None
      else if e.DoSet? && Uses(limit, e, key) then Some(Entry(key, e.encoded.value, Deadline(e.now, e.exp)))
      else LastStored(limit, events[..|events| - 1], key)
  }

  /** A step leaves what it holds alone, but for a Set of that key. */
  lemma StepHolds(s: State, e: Event, key: string)
    requires Sound(s) && Lookup(Step(s, e).entries, key).Some?
    ensures !e.DoGc?
    ensures Lookup(Step(s, e).entries, key) ==
      if e.DoSet? && Uses(s.limit, e, key) then Some(Entry(key, e.encoded.value, Deadline(e.now, e.exp)))
      else Lookup(s.entries, key)
  {
    match e
    case DoSet(_, _, _, _) => SetHolds(s, e, key);
    case DoGet(k, now) =>
      match Lookup(s.entries, k) {
        case None =>
        case Some(entry) =>
          LookupPut(s.entries, entry, key);
          LookupWithout(s.entries, k, key);
      }
    case DoEvict(now) => LookupUnexpired(s.entries, now, key);
    case DoGc(_) =>
  }

  lemma SetHolds(s: State, e: Event, key: string)
    requires Sound(s) && e.DoSet? && Lookup(Step(s, e).entries, key).Some?
    ensures Lookup(Step(s, e).entries, key) ==
      if Uses(s.limit, e, key) then Some(Entry(key, e.encoded.value, Deadline(e.now, e.exp)))
      else Lookup(s.entries, key)
  {
    if Uses(s.limit, e, e.key) {
      var charged := s.(used := s.used + Size(e.key, e.encoded.value));
      var cut := TrimIsSuffix(charged);
      TrimFits(charged);
      LookupPut(Trim(charged).entries, Entry(e.key, e.encoded.value, Deadline(e.now, e.exp)), key);
      LookupSuffix(s.entries, cut, key);
    }
  }

  /** Under any byte limit, what is held under a key is what it was last set to. */
  lemma {:induction false} HeldIsLastStored(limit: int, events: seq<Event>, key: string)
    ensures var held := Lookup(Run(State([], 0, limit), events).entries, key);
      held.Some? ==> held == LastStored(limit, events, key)
  {
    if events != [] {
      var before, e := events[..|events| - 1], events[|events| - 1];
      HeldIsLastStored(limit, before, key);
      LiveNeverExceedsUsedInRuns(limit, before);
      if Lookup(Run(State([], 0, limit), events).entries, key).Some? {
        StepHolds(Run(State([], 0, limit), before), e, key);
      }
    }
  }

  lemma LookupSuffix(es: seq<Entry>, k: nat, key: string)
    requires Unique(es) && k <= |es|
    ensures Lookup(es[k..], key).Some? ==> Lookup(es, key) == Lookup(es[k..], key)
  {
    if Lookup(es[k..], key).Some? {
      var e := Lookup(es[k..], key).value;
      var i :| 0 <= i < |es[k..]| && es[k..][i] == e;
      LookupFinds(es, i + k);
    }
  }

  /** A Get answers with the last value set, and only up to its deadline; when it answers with
      nothing, the key is not held any more. */
  lemma GetIsNeverStale(limit: int, events: seq<Event>, key: string, now: int)
    ensures var s := Run(State([], 0, limit), events);
      var got := GetStep(s, key, now);
      && (got.1.Some? ==>
            && LastStored(limit, events, key).Some? && LastStored(limit, events, key).value.value == got.1.value
            && now <= LastStored(limit, events, key).value.deadline)
      && (got.1.None? ==> Lookup(got.0.entries, key).None?)
  {
    HeldIsLastStored(limit, events, key);
    LookupWithout(Run(State([], 0, limit), events).entries, key, key);
  }

  /** How a Set ends, from the sizes and the drift. */
  lemma SetOutcomes(s: State, key: string, encoded: Option<string>, deadline: int)
    requires Sound(s)
    ensures var outcome := SetStep(s, key, encoded, deadline).1;
      && (outcome == EncodeFailed <==> encoded.None?)
      && (outcome == TooLarge <==> encoded.Some? && s.limit != 0 && |key| + |encoded.value| > s.limit)
      && (outcome == Stored <==>
            encoded.Some?
            && (s.limit == 0
                || (|key| + |encoded.value| <= s.limit && Drift(s) + |key| + |encoded.value| <= s.limit)))
  {
    if encoded.Some? {
      SetHangsExactlyOnDrift(s, key, encoded.value, deadline);
    }
  }

  // ---------- seconds ----------

  /** The deadline in nanoseconds: so many seconds after the Set, or 365 days for no positive number. */
  lemma DeadlineInSeconds(now: int, exp: int)
    requires 0 <= now && 0 <= exp * 1_000_000_000 < 0x8000_0000_0000_0000
    requires now + (if exp <= 0 then 31_536_000 else exp) * 1_000_000_000 < 0x8000_0000_0000_0000
    ensures Deadline(now, exp) == now + (if exp <= 0 then 31_536_000 else exp) * 1_000_000_000
  {
  }

  /** An entry set for n seconds is returned for n seconds, and from the next nanosecond on no more. */
  lemma SetLastsForItsSeconds(key: string, value: string, n: int, now: int, t: int)
    requires 0 < n && 0 <= now && now + n * 1_000_000_000 < 0x8000_0000_0000_0000
    ensures GetStep(Run(State([], 0, 0), [DoSet(key, Some(value), n, now)]), key, t).1
            == if t <= now + n * 1_000_000_000 then Some(value) else None
  {
    DeadlineInSeconds(now, n);
    var e := DoSet(key, Some(value), n, now);
    assert [e][..0] == [] && Run(State([], 0, 0), [e]) == Step(Run(State([], 0, 0), []), e);
    LookupPut([], Entry(key, value, Deadline(now, n)), key);
  }
}
