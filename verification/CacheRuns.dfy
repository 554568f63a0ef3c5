/** Whole runs of the memory cache: what Get returns after any interleaving, how far
    the byte counter drifts, and exactly when RemoveOldest fails to return. */
module CacheRuns {
  import opened Wrappers
  import opened CacheSpec

  datatype Event =
    | DoSet(key: string, encoded: Option<string>, exp: int, now: int)
    | DoGet(key: string, now: int)
    | DoEvict(now: int)
    | DoGc(now: int)

  function Step(s: State, e: Event): State {
    match e
    case DoSet(key, encoded, exp, now) => SetStep(s, key, encoded, Deadline(now, exp)).0
    case DoGet(key, now) => GetStep(s, key, now).0
    case DoEvict(now) => EvictStep(s, now)
    case DoGc(_) => GcStep(s)
  }

  function Run(s: State, events: seq<Event>): State
    decreases |events|
  {
    if events == [] then s else Step(Run(s, events[..|events| - 1]), events[|events| - 1])
  }

  /** Every state the cache's methods can produce keeps these. */
  ghost predicate Sound(s: State) {
    Unique(s.entries) && Live(s.entries) <= s.used
  }

  lemma LiveNeverExceedsUsed(s: State, e: Event)
    requires Sound(s)
    ensures Sound(Step(s, e)) && Step(s, e).limit == s.limit
  {
    match e
    case DoSet(key, encoded, exp, now) =>
      if encoded.Some? {
        var charged := s.(used := s.used + Size(key, encoded.value));
        TrimKeepsGap(charged);
        var entry := Entry(key, encoded.value, Deadline(now, exp));
        LivePut(Trim(charged).entries, entry);
        UniquePut(Trim(charged).entries, entry);
      }
    case DoGet(key, now) =>
      match Lookup(s.entries, key) {
        case None =>
        case Some(entry) =>
          LiveWithout(s.entries, entry);
          LivePut(s.entries, entry);
          UniquePut(s.entries, entry);
          UniqueWithout(s.entries, key);
      }
    case DoEvict(now) => UniqueUnexpired(s.entries, now);
    case DoGc(_) =>
  }

  lemma {:induction false} LiveNeverExceedsUsedInRuns(limit: int, events: seq<Event>)
    ensures var s := Run(State([], 0, limit), events); Sound(s) && s.limit == limit
  {
    if events != [] {
      LiveNeverExceedsUsedInRuns(limit, events[..|events| - 1]);
      LiveNeverExceedsUsed(Run(State([], 0, limit), events[..|events| - 1]), events[|events| - 1]);
    }
  }

  // ---------- the byte budget ----------

  /** Bytes the counter still charges for values that were overwritten. */
  function Drift(s: State): int {
    s.used - Live(s.entries)
  }

  /** Set charges an overwritten live key twice: the drift grows by the size of the old entry. */
  lemma SetDrifts(s: State, key: string, value: string, deadline: int)
    requires Sound(s) && SetStep(s, key, Some(value), deadline).1 == Stored
    ensures var t := Admit(s, Size(key, value));
      Drift(SetStep(s, key, Some(value), deadline).0) == Drift(s) +
        (match Lookup(t.entries, key) case None => 0 case Some(was) => Size(key, was.value))
  {
    var charged := s.(used := s.used + Size(key, value));
    TrimKeepsGap(charged);
    var t := Trim(charged);
    LivePut(t.entries, Entry(key, value, deadline));
    match Lookup(t.entries, key)
    case None => WithoutMiss(t.entries, key);
    case Some(was) => LiveWithout(t.entries, was);
  }

  /** Trimming stops within the limit unless the drift alone, with the new bytes, exceeds it. */
  lemma {:induction false} TrimFits(s: State)
    requires Unique(s.entries)
    ensures Over(Trim(s)) <==> s.limit != 0 && s.used - Live(s.entries) > s.limit
    ensures Over(Trim(s)) ==> Trim(s).entries == []
    decreases |s.entries|
  {
    if Over(s) && s.entries != [] {
      TrimFits(DropOldest(s));
    }
  }

  /** Exactly when Set never returns: the value fits the limit, but the drift plus its size does not. */
  lemma SetHangsExactlyOnDrift(s: State, key: string, value: string, deadline: int)
    requires Sound(s)
    ensures SetStep(s, key, Some(value), deadline).1 == Hangs <==>
            s.limit != 0 && Size(key, value) <= s.limit && Drift(s) + Size(key, value) > s.limit
  {
    var charged := s.(used := s.used + Size(key, value));
    TrimFits(charged);
  }

  /** Three writes of one five-byte value fill a 20-byte cache's counter to 18 while it holds 6
      bytes; a nine-byte value, which would fit, then hangs it. */
  lemma OverwritesCanHang()
    ensures var e := DoSet("k", Some("12345"), 1, 0);
      && Drift(Run(State([], 0, 20), [e, e, e])) == 12
      && SetStep(Run(State([], 0, 20), [e, e, e]), "b", Some("12345678"), 100).1 == Hangs
  {
    var e := DoSet("k", Some("12345"), 1, 0);
    var s0 := State([], 0, 20);
    var entry := Entry("k", "12345", Deadline(0, 1));
    assert [e, e, e][..2] == [e, e] && [e, e][..1] == [e] && [e][..0] == [];
    assert Size("k", "12345") == 6 && Size("b", "12345678") == 9;
    assert Without([entry], "k") == [] && Without([], "k") == [];
    assert [] + [entry] == [entry];
    assert Step(s0, e) == State([entry], 6, 20);
    assert Step(State([entry], 6, 20), e) == State([entry], 12, 20);
    assert Step(State([entry], 12, 20), e) == State([entry], 18, 20);
    assert Run(s0, [e]) == Step(Run(s0, []), e);
    assert Run(s0, [e, e]) == Step(Run(s0, [e]), e);
    assert Run(s0, [e, e, e]) == Step(Run(s0, [e, e]), e);
    assert Live([entry]) == 6;
    SetHangsExactlyOnDrift(State([entry], 18, 20), "b", "12345678", 100);
  }

  /** A Set that finds its key live, after making room, overwrites. */
  predicate Overwrites(s: State, e: Event) {
    e.DoSet? && e.encoded.Some? && SetStep(s, e.key, e.encoded, Deadline(e.now, e.exp)).1 == Stored &&
    Lookup(Admit(s, Size(e.key, e.encoded.value)).entries, e.key).Some?
  }

  ghost predicate NoOverwrites(limit: int, events: seq<Event>) {
    forall i :: 0 <= i < |events| ==> !Overwrites(Run(State([], 0, limit), events[..i]), events[i])
  }

  /** Without overwrites the counter is exact, so no Set ever hangs. */
  lemma {:induction false} ExactWithoutOverwrites(limit: int, events: seq<Event>)
    requires NoOverwrites(limit, events)
    ensures var s := Run(State([], 0, limit), events);
      && Sound(s) && s.limit == limit && Drift(s) == 0
      && (forall key, value, deadline :: SetStep(s, key, Some(value), deadline).1 != Hangs)
  {
    var s := Run(State([], 0, limit), events);
    LiveNeverExceedsUsedInRuns(limit, events);
    if events != [] {
      var before, e := events[..|events| - 1], events[|events| - 1];
      assert forall i :: 0 <= i < |before| ==> before[..i] == events[..i] && before[i] == events[i];
      ExactWithoutOverwrites(limit, before);
      StepDrifts(Run(State([], 0, limit), before), e);
      if e.DoSet? && e.encoded.Some? {
        SetHangsExactlyOnDrift(Run(State([], 0, limit), before), e.key, e.encoded.value, Deadline(e.now, e.exp));
      }
    }
    forall key, value, deadline
      ensures SetStep(s, key, Some(value), deadline).1 != Hangs
    {
      SetHangsExactlyOnDrift(s, key, value, deadline);
    }
  }

  /** The event is a Set that charges its bytes and then never returns. */
  predicate Spins(s: State, e: Event) {
    e.DoSet? && SetStep(s, e.key, e.encoded, Deadline(e.now, e.exp)).1 == Hangs
  }

  /** What one event adds to the drift: an overwrite the size of the old entry, a Set that never
      returns the bytes it charged, and everything else nothing; Gc sets the drift to zero. */
  lemma StepDrifts(s: State, e: Event)
    requires Sound(s)
    ensures Drift(Step(s, e)) ==
      if e.DoGc? then 0
      else if Overwrites(s, e) then
        Drift(s) + Size(e.key, Lookup(Admit(s, Size(e.key, e.encoded.value)).entries, e.key).value.value)
      else if Spins(s, e) then Drift(s) + Size(e.key, e.encoded.value)
      else Drift(s)
  {
    match e
    case DoSet(key, encoded, exp, now) =>
      if encoded.Some? {
        match SetStep(s, key, encoded, Deadline(now, exp)).1
        case Stored => SetDrifts(s, key, encoded.value, Deadline(now, exp));
        case Hangs => TrimKeepsGap(s.(used := s.used + Size(key, encoded.value)));
        case _ =>
      }
    case DoGet(key, now) =>
      match Lookup(s.entries, key) {
        case None =>
        case Some(entry) =>
          LiveWithout(s.entries, entry);
          LivePut(s.entries, entry);
      }
    case DoEvict(now) =>
    case DoGc(_) =>
  }

  /** RemoveOldest drops the shortest least-recently-used prefix that makes the rest fit. */
  lemma {:induction false} TrimDropsShortestPrefix(s: State) returns (k: nat)
    requires !Over(Trim(s))
    ensures k <= |s.entries| && Trim(s).entries == s.entries[k..]
    ensures Trim(s).used == s.used - Live(s.entries[..k])
    ensures forall j :: 0 <= j < k ==> s.limit != 0 && s.used - Live(s.entries[..j]) > s.limit
    decreases |s.entries|
  {
    if Over(s) && s.entries != [] {
      k := TrimDropsShortestPrefix(DropOldest(s));
      k := k + 1;
      var rest := s.entries[1..];
      assert s.entries[..k] == [s.entries[0]] + rest[..k - 1];
      assert s.entries[..k][1..] == rest[..k - 1];
      forall j | 0 <= j < k
        ensures s.used - Live(s.entries[..j]) > s.limit
      {
        if j > 0 {
          assert s.entries[..j][1..] == rest[..j - 1];
        }
      }
    } else {
      k := 0;
    }
  }

  /** A successful bounded Set leaves the live bytes within the limit. */
  lemma StoredFitsTheLimit(s: State, key: string, value: string, deadline: int)
    requires Sound(s) && s.limit != 0 && SetStep(s, key, Some(value), deadline).1 == Stored
    ensures var t := SetStep(s, key, Some(value), deadline).0;
      && Live(t.entries) <= t.used <= t.limit
      && t.entries[|t.entries| - 1] == Entry(key, value, deadline)
  {
    LiveNeverExceedsUsed(s, DoSet(key, Some(value), 0, 0));
    var charged := s.(used := s.used + Size(key, value));
    TrimKeepsGap(charged);
    LivePut(Trim(charged).entries, Entry(key, value, deadline));
  }

  // ---------- what Get returns ----------

  /** The value and deadline the most recent effective Set left for a key, since the last Gc. */
  function LastSet(events: seq<Event>, key: string): Option<Entry>
    decreases |events|
  {
    if events == [] then None
    else
      var e := events[|events| - 1];
      if e.DoGc? then None
      else if e.DoSet? && e.key == key && e.encoded.Some? then Some(Entry(key, e.encoded.value, Deadline(e.now, e.exp)))
      else LastSet(events[..|events| - 1], key)
  }

  ghost predicate ClockNeverRunsBack(events: seq<Event>) {
    forall i, j :: 0 <= i < j < |events| ==> events[i].now <= events[j].now
  }

  /** What the entries must say about one key after the clock has reached now. */
  predicate Agrees(held: Option<Entry>, last: Option<Entry>, now: int) {
    match last
    case None => held.None?
    case Some(e) => held == last || (held.None? && e.deadline <= now)
  }

  lemma {:induction false} UnlimitedRunsAgree(events: seq<Event>, key: string)
    requires ClockNeverRunsBack(events)
    ensures var s := Run(State([], 0, 0), events);
      && s.limit == 0 && Unique(s.entries)
      && (events == [] ==> Lookup(s.entries, key).None?)
      && (events != [] ==> Agrees(Lookup(s.entries, key), LastSet(events, key), events[|events| - 1].now))
  {
    LiveNeverExceedsUsedInRuns(0, events);
    if events != [] {
      var before, e := events[..|events| - 1], events[|events| - 1];
      UnlimitedRunsAgree(before, key);
      var s := Run(State([], 0, 0), before);
      assert before != [] ==> before[|before| - 1].now <= e.now;
      match e
      case DoSet(k, encoded, exp, now) =>
        if encoded.Some? {
          LookupPut(s.entries, Entry(k, encoded.value, Deadline(now, exp)), key);
        }
      case DoGet(k, now) =>
        match Lookup(s.entries, k) {
          case None =>
          case Some(entry) =>
            LookupPut(s.entries, entry, key);
            LookupWithout(s.entries, k, key);
        }
      case DoEvict(now) => LookupUnexpired(s.entries, now, key);
      case DoGc(_) =>
    }
  }

  /** With no byte limit, a Get at or after the last event returns the last value set while its
      deadline has not been reached, and nothing once it has passed, however evictions interleave. */
  lemma GetReturnsTheLastSet(events: seq<Event>, key: string, t: int)
    requires ClockNeverRunsBack(events) && (events != [] ==> events[|events| - 1].now <= t)
    ensures var got := GetStep(Run(State([], 0, 0), events), key, t).1;
      match LastSet(events, key)
      case None => got.None?
      case Some(e) =>
        && (e.deadline > t ==> got == Some(e.value))
        && (e.deadline < t ==> got.None?)
        && (got.Some? ==> got == Some(e.value))
  {
    UnlimitedRunsAgree(events, key);
  }

  /** Eviction removes exactly the entries whose deadline has come, and nothing else moves. */
  lemma EvictionRemovesExactlyTheExpired(s: State, now: int)
    requires Sound(s)
    ensures var t := EvictStep(s, now);
      && (forall e :: e in t.entries <==> e in s.entries && e.deadline > now)
      && Drift(t) == Drift(s)
  {
    UniqueUnexpired(s.entries, now);
  }
}
