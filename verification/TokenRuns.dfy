/** What becomes of one stored token over a run: when it dies, and that until then it lives. */
module TokenRuns {
  import opened Wrappers
  import opened AccountSpec
  import opened AuthRuns

  /** Row ids come from the counter, so no stored row is overwritten by a later one. */
  ghost predicate RowsCounted(s: State) {
    forall k :: k in s.t.tokens ==> k < s.t.nextToken
  }

  /** The row is the same but for a revocation, which is never taken back. */
  predicate SameRow(before: Token, after: Token) {
    after == before.(revoked := after.revoked) && (before.revoked ==> after.revoked)
  }

  lemma StepKeepsRows(s: State, e: Event)
    requires RowsCounted(s)
    ensures RowsCounted(Step(s, e))
    ensures forall k | k in s.t.tokens :: k in Step(s, e).t.tokens && SameRow(s.t.tokens[k], Step(s, e).t.tokens[k])
  {
  }

  lemma {:induction false} RunKeepsRows(s: State, events: seq<Event>)
    requires RowsCounted(s)
    ensures RowsCounted(Run(s, events))
    ensures forall k | k in s.t.tokens ::
      k in Run(s, events).t.tokens && SameRow(s.t.tokens[k], Run(s, events).t.tokens[k])
  {
    if events != [] {
      RunKeepsRows(s, events[..|events| - 1]);
      StepKeepsRows(Run(s, events[..|events| - 1]), events[|events| - 1]);
    }
  }

  /** A row that was revoked at any earlier state authenticates in no continuation, and none does from
      its expiry on: not even where updates write versions back. */
  lemma DeadRowsStayDead(s: State, events: seq<Event>, i: nat, k: nat, now: int)
    requires RowsCounted(s) && i <= |events| && k in Run(s, events[..i]).t.tokens
    requires Run(s, events[..i]).t.tokens[k].revoked || Run(s, events[..i]).t.tokens[k].expiresAt <= now
    ensures !Authenticates(Run(s, events).t, k, now)
  {
    assert events == events[..i] + events[i..];
    RunSplits(s, events[..i], events[i..]);
    RunKeepsRows(s, events[..i]);
    RunKeepsRows(Run(s, events[..i]), events[i..]);
  }

  /** A single logout kills that token and leaves every other one as it was. */
  lemma LogoutKillsOne(s: State, k: nat, events: seq<Event>, other: nat, now: int)
    requires RowsCounted(s) && k in s.t.tokens
    ensures !Authenticates(Run(Step(s, Revokes(k)), events).t, k, now)
    ensures other != k ==> (Authenticates(Step(s, Revokes(k)).t, other, now) <==> Authenticates(s.t, other, now))
  {
    StepKeepsRows(s, Revokes(k));
    assert events[..0] == [];
    DeadRowsStayDead(Step(s, Revokes(k)), events, 0, k, now);
  }

  // ---------- until then it lives ----------

  predicate CarriesNoOlder(t: Tables, e: Event) {
    e.Updates? && e.userID in t.users && e.payload.authVersion != 0 ==>
      t.users[e.userID].authVersion <= e.payload.authVersion
  }

  /** No update request of the run carries a version older than the row's. */
  ghost predicate NoneOlder(s: State, events: seq<Event>) {
    forall i | 0 <= i < |events| :: CarriesNoOlder(Run(s, events[..i]).t, events[i])
  }

  predicate OfVersion(s: State, userID: nat, version: nat) {
    userID in s.t.users && s.t.users[userID].authVersion == version
  }

  /** While the user's version stands still, only its own revocation touches a row. */
  lemma OnlyRevokesRevoke(s: State, e: Event, k: nat)
    requires Counted(s) && Positive(s) && RowsCounted(s) && CarriesNoOlder(s.t, e) && k in s.t.tokens
    requires OfVersion(s, s.t.tokens[k].userID, s.t.tokens[k].authVersion)
    requires OfVersion(Step(s, e), s.t.tokens[k].userID, s.t.tokens[k].authVersion)
    ensures Step(s, e).t.tokens[k] == s.t.tokens[k].(revoked := s.t.tokens[k].revoked || e == Revokes(k))
  {
  }

  /** A version that is the same at both ends stood still in between. */
  lemma StoodStill(first: State, middle: State, last: State, userID: nat, version: nat)
    requires Counted(first) && NoneLower(first, middle) && NoneLower(middle, last)
    requires OfVersion(first, userID, version) && OfVersion(last, userID, version)
    ensures OfVersion(middle, userID, version)
  {
  }

  lemma ShorterRun(s: State, events: seq<Event>)
    requires events != [] && NoneOlder(s, events)
    ensures NoneOlder(s, events[..|events| - 1])
    ensures CarriesNoOlder(Run(s, events[..|events| - 1]).t, events[|events| - 1])
  {
    var before := events[..|events| - 1];
    assert forall i :: 0 <= i < |before| ==> before[i] == events[i] && before[..i] == events[..i];
  }

  lemma NoneOlderNeverLowers(s: State, events: seq<Event>)
    requires NoneOlder(s, events)
    ensures NeverLowers(s, events)
  {
    forall i | 0 <= i < |events|
      ensures KeepsVersion(Run(s, events[..i]).t, events[i])
    {
      assert CarriesNoOlder(Run(s, events[..i]).t, events[i]);
    }
  }

  lemma StillRevokedExactly(s: State, middle: State, e: Event, k: nat)
    requires Counted(s) && NoneLower(s, middle) && k in s.t.tokens
    requires Counted(middle) && Positive(middle) && RowsCounted(middle) && CarriesNoOlder(middle.t, e)
    requires k in middle.t.tokens && SameRow(s.t.tokens[k], middle.t.tokens[k])
    requires OfVersion(s, s.t.tokens[k].userID, s.t.tokens[k].authVersion)
    requires OfVersion(Step(middle, e), s.t.tokens[k].userID, s.t.tokens[k].authVersion)
    ensures OfVersion(middle, s.t.tokens[k].userID, s.t.tokens[k].authVersion)
    ensures k in Step(middle, e).t.tokens
    ensures Step(middle, e).t.tokens[k].revoked <==> middle.t.tokens[k].revoked || e == Revokes(k)
  {
    StepRaises(middle, e);
    StoodStill(s, middle, Step(middle, e), s.t.tokens[k].userID, s.t.tokens[k].authVersion);
    OnlyRevokesRevoke(middle, e, k);
  }

  lemma {:induction false} RevokedExactly(s: State, events: seq<Event>, k: nat)
    requires Counted(s) && Positive(s) && RowsCounted(s) && NoneOlder(s, events) && k in s.t.tokens
    requires OfVersion(s, s.t.tokens[k].userID, s.t.tokens[k].authVersion)
    requires OfVersion(Run(s, events), s.t.tokens[k].userID, s.t.tokens[k].authVersion)
    ensures k in Run(s, events).t.tokens
    ensures Run(s, events).t.tokens[k].revoked <==> s.t.tokens[k].revoked || Revokes(k) in events
    decreases |events|
  {
    if events != [] {
      var before, e := events[..|events| - 1], events[|events| - 1];
      ShorterRun(s, events);
      NoneOlderNeverLowers(s, before);
      RunRaises(s, before);
      RunKeepsRows(s, before);
      StillRevokedExactly(s, Run(s, before), e, k);
      RevokedExactly(s, before, k);
      assert events == before + [e];
    }
  }

  /** A live row authenticates at exactly those instants before its expiry at which its user is there,
      enabled and of its version, as long as nobody revoked it by itself: nothing else kills it. */
  lemma TokenLivesExactly(s: State, events: seq<Event>, k: nat, now: int)
    requires Counted(s) && Positive(s) && RowsCounted(s) && NoneOlder(s, events)
    requires k in s.t.tokens && !s.t.tokens[k].revoked
    requires OfVersion(s, s.t.tokens[k].userID, s.t.tokens[k].authVersion)
    ensures var after, u := Run(s, events).t, s.t.tokens[k].userID;
      Authenticates(after, k, now) <==>
        && now < s.t.tokens[k].expiresAt && Revokes(k) !in events
        && u in after.users && after.users[u].status == 1 && after.users[u].authVersion == s.t.tokens[k].authVersion
  {
    RunKeepsRows(s, events);
    NoneOlderNeverLowers(s, events);
    RunRaises(s, events);
    if OfVersion(Run(s, events), s.t.tokens[k].userID, s.t.tokens[k].authVersion) {
      RevokedExactly(s, events, k);
    }
  }

  /** The three steps of a login: read the user, issue, store the row. */
  function LoggedIn(s: State, id: nat, jti: string, kid: string, hash: string, expiresAt: int): State {
    Step(Step(Step(s, Reads(id)), Issues(|s.logins|)), Persists(|s.logins|, jti, kid, hash, expiresAt))
  }

  /** A login stores one row, with the version the user has, and its token lives on from there. */
  lemma LoginLives(s: State, id: nat, jti: string, kid: string, hash: string, expiresAt: int,
                   events: seq<Event>, now: int)
    requires Counted(s) && Positive(s) && RowsCounted(s) && id in s.t.users
    requires NoneOlder(LoggedIn(s, id, jti, kid, hash, expiresAt), events)
    ensures var stored := LoggedIn(s, id, jti, kid, hash, expiresAt).t;
      && stored.users == s.t.users && s.t.nextToken !in s.t.tokens
      && stored.tokens == s.t.tokens[s.t.nextToken := Token(id, Some(jti), kid, Some(hash), "",
                                                            s.t.users[id].authVersion, expiresAt, false)]
    ensures var after := Run(LoggedIn(s, id, jti, kid, hash, expiresAt), events).t;
      Authenticates(after, s.t.nextToken, now) <==>
        && now < expiresAt && Revokes(s.t.nextToken) !in events
        && id in after.users && after.users[id].status == 1
        && after.users[id].authVersion == s.t.users[id].authVersion
  {
    var read := Step(s, Reads(id));
    var issued := Step(read, Issues(|s.logins|));
    var stored := LoggedIn(s, id, jti, kid, hash, expiresAt);
    StepRaises(s, Reads(id));
    StepRaises(read, Issues(|s.logins|));
    StepRaises(issued, Persists(|s.logins|, jti, kid, hash, expiresAt));
    TokenLivesExactly(stored, events, s.t.nextToken, now);
  }
}
