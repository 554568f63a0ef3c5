/** Runs of account transactions with logins in flight: a login reads the user, later issues a
    token from what it read, and later still stores the token's row. */
module AuthRuns {
  import opened Wrappers
  import opened AccountSpec

  /** A login holds the version it read, and then the version its token was issued with. */
  datatype Login = HasRead(userID: nat, version: nat) | HasIssued(userID: nat, version: nat)

  datatype State = State(t: Tables, logins: seq<Login>)

  datatype Event =
    | Reads(userID: nat)
    | Issues(login: nat)
    | Persists(login: nat, jti: string, kid: string, hash: string, expiresAt: int)
    | Bumps(userID: nat)
    | Updates(userID: nat, payload: Payload)
    | Deletes(userID: nat)
    | Recovers(userID: nat)
    | Creates(role: Role, isAdmin: bool, status: int)
    | Revokes(token: nat)

  /** GenerateTokenForClient: a version read as zero is first written back as one. */
  function Issued(s: State, i: nat): State
    requires i < |s.logins|
  {
    var login := s.logins[i];
    if login.version == 0 then
      State(if login.userID in s.t.users
            then s.t.(users := s.t.users[login.userID := s.t.users[login.userID].(authVersion := 1)]) else s.t,
            s.logins[i := HasIssued(login.userID, 1)])
    else s.(logins := s.logins[i := HasIssued(login.userID, login.version)])
  }

  /** persistIssuedToken stores the version the token was issued with. */
  function Persisted(s: State, i: nat, jti: string, kid: string, hash: string, expiresAt: int): State
    requires i < |s.logins|
  {
    var token := Token(s.logins[i].userID, Some(jti), kid, Some(hash), "", s.logins[i].version, expiresAt, false);
    s.(t := s.t.(tokens := s.t.tokens[s.t.nextToken := token], nextToken := s.t.nextToken + 1))
  }

  function Step(s: State, e: Event): State {
    match e
    case Reads(id) =>
      if id in s.t.users then s.(logins := s.logins + [HasRead(id, s.t.users[id].authVersion)]) else s
    case Issues(i) => if i < |s.logins| && s.logins[i].HasRead? then Issued(s, i) else s
    case Persists(i, jti, kid, hash, expiresAt) =>
      if i < |s.logins| && s.logins[i].HasIssued? then Persisted(s, i, jti, kid, hash, expiresAt) else s
    case Bumps(id) => if id in s.t.users then s.(t := Bump(s.t, id)) else s
    case Updates(id, p) => s.(t := Update(s.t, id, p))
    case Deletes(id) => s.(t := Delete(s.t, id))
    case Recovers(id) => s.(t := Recover(s.t, id))
    case Creates(role, isAdmin, status) => s.(t := Create(s.t, role, isAdmin, status))
    case Revokes(k) =>
      if k in s.t.tokens then s.(t := s.t.(tokens := s.t.tokens[k := s.t.tokens[k].(revoked := true)])) else s
  }

  function Run(s: State, events: seq<Event>): State
    decreases |events|
  {
    if events == [] then s else Step(Run(s, events[..|events| - 1]), events[|events| - 1])
  }

  /** Ids come from the counter, so a deleted id never returns. */
  ghost predicate Counted(s: State) {
    && (forall id :: id in s.t.users ==> id < s.t.nextUser)
    && (forall i :: 0 <= i < |s.logins| ==> s.logins[i].userID < s.t.nextUser)
  }

  /** No row, and no login that can still write one, holds version zero. */
  ghost predicate Positive(s: State) {
    && (forall id :: id in s.t.users ==> s.t.users[id].authVersion > 0)
    && (forall i :: 0 <= i < |s.logins| && s.logins[i].HasRead? && s.logins[i].userID in s.t.users ==>
          s.logins[i].version > 0)
  }

  /** What the update leaves in the row is no older than what was there: the request carries no
      version, or one that, bumped where the update bumps, is not older. */
  predicate KeepsVersion(t: Tables, e: Event) {
    e.Updates? && UpdateError(t, e.userID, e.payload).None? && e.payload.authVersion != 0 ==>
      t.users[e.userID].authVersion
      <= e.payload.authVersion + if BumpsVersion(t.users[e.userID], e.payload) then 1 else 0
  }

  /** Every update along the run does. */
  ghost predicate NeverLowers(s: State, events: seq<Event>) {
    forall i | 0 <= i < |events| :: KeepsVersion(Run(s, events[..i]).t, events[i])
  }

  /** No update request carries an authentication version of its own. */
  predicate CarriesNoVersion(events: seq<Event>) {
    forall i :: 0 <= i < |events| && events[i].Updates? ==> events[i].payload.authVersion == 0
  }

  /** Later tables hold no user with a lower version than before, and no user under a retired id. */
  ghost predicate NoneLower(a: State, b: State) {
    && a.t.nextUser <= b.t.nextUser
    && (forall id :: id in b.t.users && id < a.t.nextUser ==>
          id in a.t.users && a.t.users[id].authVersion <= b.t.users[id].authVersion)
  }

  lemma StepRaises(s: State, e: Event)
    requires Counted(s) && Positive(s) && KeepsVersion(s.t, e)
    ensures Counted(Step(s, e)) && Positive(Step(s, e)) && NoneLower(s, Step(s, e))
  {
  }

  lemma {:induction false} RunRaises(s: State, events: seq<Event>)
    requires Counted(s) && Positive(s) && NeverLowers(s, events)
    ensures Counted(Run(s, events)) && Positive(Run(s, events)) && NoneLower(s, Run(s, events))
  {
    if events != [] {
      var before := events[..|events| - 1];
      assert forall i :: 0 <= i < |before| ==> before[i] == events[i] && before[..i] == events[..i];
      RunRaises(s, before);
      StepRaises(Run(s, before), events[|events| - 1]);
    }
  }

  /** A token that authenticates although its version was superseded at an earlier state. */
  ghost predicate Resurrected(earlier: State, later: State, k: nat, now: int) {
    && Authenticates(later.t, k, now)
    && later.t.tokens[k].userID in earlier.t.users
    && later.t.tokens[k].authVersion < earlier.t.users[later.t.tokens[k].userID].authVersion
  }

  /** Along a run no superseded token ever authenticates. */
  ghost predicate Safe(s: State, events: seq<Event>) {
    forall i, k, now | 0 <= i <= |events| :: !Resurrected(Run(s, events[..i]), Run(s, events), k, now)
  }

  lemma {:induction false} RunSplits(s: State, a: seq<Event>, b: seq<Event>)
    ensures Run(s, a + b) == Run(Run(s, a), b)
    decreases |b|
  {
    if b == [] {
      assert a + b == a;
    } else {
      assert (a + b)[..|a + b| - 1] == a + b[..|b| - 1];
      RunSplits(s, a, b[..|b| - 1]);
    }
  }

  lemma NeverLowersSplits(s: State, a: seq<Event>, b: seq<Event>)
    requires NeverLowers(s, a + b)
    ensures NeverLowers(s, a) && NeverLowers(Run(s, a), b)
  {
    assert forall i :: 0 <= i < |a| ==> (a + b)[..i] == a[..i] && (a + b)[i] == a[i];
    forall j | 0 <= j < |b|
      ensures KeepsVersion(Run(Run(s, a), b[..j]).t, b[j])
    {
      RunSplits(s, a, b[..j]);
      assert (a + b)[..|a| + j] == a + b[..j] && (a + b)[|a| + j] == b[j];
    }
  }

  lemma NeverLowersJoins(s: State, e: Event, events: seq<Event>)
    requires KeepsVersion(s.t, e) && NeverLowers(Step(s, e), events)
    ensures NeverLowers(s, [e] + events)
  {
    forall i | 0 <= i < |[e] + events|
      ensures KeepsVersion(Run(s, ([e] + events)[..i]).t, ([e] + events)[i])
    {
      if i > 0 {
        assert ([e] + events)[..i] == [e] + events[..i - 1] && [e][..0] == [];
        assert Run(s, [e]) == Step(Run(s, []), e);
        RunSplits(s, [e], events[..i - 1]);
      }
    }
  }

  lemma CarryingNoneNeverLowers(s: State, events: seq<Event>)
    requires CarriesNoVersion(events)
    ensures NeverLowers(s, events)
  {
  }

  /** Once a version has been superseded, no token based on it authenticates in any continuation,
      whenever its row was stored, as long as no update writes an older version back. */
  lemma SupersededTokensStayDead(s: State, events: seq<Event>)
    requires Counted(s) && Positive(s) && NeverLowers(s, events)
    ensures Safe(s, events)
  {
    forall i, k, now | 0 <= i <= |events|
      ensures !Resurrected(Run(s, events[..i]), Run(s, events), k, now)
    {
      assert events == events[..i] + events[i..];
      RunSplits(s, events[..i], events[i..]);
      NeverLowersSplits(s, events[..i], events[i..]);
      RunRaises(s, events[..i]);
      RunRaises(Run(s, events[..i]), events[i..]);
    }
  }

  /** In particular after a bump: every row of the user with the old version or an older one is dead. */
  lemma BumpKillsEarlierTokens(s: State, id: nat, events: seq<Event>, k: nat, now: int)
    requires Counted(s) && Positive(s) && id in s.t.users && NeverLowers(Step(s, Bumps(id)), events)
    requires k in Run(Step(s, Bumps(id)), events).t.tokens
    requires Run(Step(s, Bumps(id)), events).t.tokens[k].userID == id
    requires Run(Step(s, Bumps(id)), events).t.tokens[k].authVersion <= s.t.users[id].authVersion
    ensures !Authenticates(Run(Step(s, Bumps(id)), events).t, k, now)
  {
    StepRaises(s, Bumps(id));
    RunRaises(Step(s, Bumps(id)), events);
  }

  /** The user is gone, or may do something else than before: another role, or no longer enabled. */
  predicate AuthorityChanged(before: Tables, after: Tables, id: nat)
    requires id in before.users
  {
    id in after.users ==>
      || EffectiveRole(after.users[id]) != EffectiveRole(before.users[id])
      || (before.users[id].status == ENABLED && after.users[id].status != ENABLED)
  }

  /** A request for this user that carries a version carries one that is not older. */
  predicate NotOlder(t: Tables, e: Event, id: nat)
    requires id in t.users
  {
    e.Updates? && e.userID == id && e.payload.authVersion != 0 ==> t.users[id].authVersion <= e.payload.authVersion
  }

  lemma AuthorityChangeRaises(s: State, e: Event, id: nat)
    requires Counted(s) && Positive(s) && id in s.t.users && NotOlder(s.t, e, id)
    requires AuthorityChanged(s.t, Step(s, e).t, id)
    ensures id in Step(s, e).t.users ==> Step(s, e).t.users[id].authVersion > s.t.users[id].authVersion
  {
  }

  /** No transaction takes a user's role, status or row away and leaves its sessions: from then on no
      token that was issued before, or from what was read before, authenticates. */
  lemma AuthorityChangeKillsEarlierTokens(s: State, e: Event, id: nat, events: seq<Event>, k: nat, now: int)
    requires Counted(s) && Positive(s) && id in s.t.users && NotOlder(s.t, e, id) && KeepsVersion(s.t, e)
    requires AuthorityChanged(s.t, Step(s, e).t, id) && NeverLowers(Step(s, e), events)
    requires k in Run(Step(s, e), events).t.tokens && Run(Step(s, e), events).t.tokens[k].userID == id
    requires Run(Step(s, e), events).t.tokens[k].authVersion <= s.t.users[id].authVersion
    ensures !Authenticates(Run(Step(s, e), events).t, k, now)
  {
    AuthorityChangeRaises(s, e, id);
    StepRaises(s, e);
    RunRaises(Step(s, e), events);
  }

  /** An update lowers a version exactly when its request names an older one. */
  lemma UpdateLowersExactly(s: State, id: nat, p: Payload)
    requires Counted(s)
    ensures NoneLower(s, Step(s, Updates(id, p))) <==> KeepsVersion(s.t, Updates(id, p))
  {
    if UpdateError(s.t, id, p).None? {
      var after := Step(s, Updates(id, p));
      assert id in after.t.users && id < s.t.nextUser;
    }
  }

  /** The events that end with a token issued from a version read as zero: the write-back of one
      lowers the row under two committed recoveries. */
  function LowersUnderway(i: nat, id: nat): seq<Event> {
    [Recovers(id), Recovers(id), Issues(i), Persists(i, "", "", "", 1)]
  }

  lemma {:induction false} WriteBackResurrects(s: State, i: nat)
    requires i < |s.logins| && s.logins[i] == HasRead(s.logins[i].userID, 0) && s.logins[i].userID in s.t.users
    ensures !Safe(s, LowersUnderway(i, s.logins[i].userID))
  {
    var id := s.logins[i].userID;
    var events := LowersUnderway(i, id);
    var a := Step(s, Recovers(id));
    var b := Step(a, Recovers(id));
    var c := Step(b, Issues(i));
    assert Run(s, events[..0]) == s;
    assert events[..1][..0] == events[..0] && Run(s, events[..1]) == a;
    assert events[..2][..1] == events[..1] && Run(s, events[..2]) == b;
    assert events[..3][..2] == events[..2] && Run(s, events[..3]) == c;
    assert events[..4] == events && events[..4][..3] == events[..3];
    assert b.t.users[id].authVersion >= 2 && b.t.users[id].status == ENABLED;
    assert Resurrected(Run(s, events[..2]), Run(s, events), s.t.nextToken, 0);
  }

  /** An event more in front of an unsafe run leaves it unsafe. */
  lemma {:induction false} UnsafeAfter(s: State, e: Event, events: seq<Event>)
    requires !Safe(Step(s, e), events)
    ensures !Safe(s, [e] + events)
  {
    var later := Run(Step(s, e), events);
    var i, k, now :| 0 <= i <= |events| && Resurrected(Run(Step(s, e), events[..i]), later, k, now);
    assert Run(s, [e]) == Step(s, e) by {
      assert [e][..0] == [] && Run(s, []) == s;
    }
    RunSplits(s, [e], events);
    RunSplits(s, [e], events[..i]);
    assert ([e] + events)[..i + 1] == [e] + events[..i];
    assert Resurrected(Run(s, ([e] + events)[..i + 1]), Run(s, [e] + events), k, now);
  }

  /** Positive versions are exactly what the guarantee needs: with a version of zero in a row, or in
      a login that may still write it back, some run brings a superseded token back. */
  lemma SafeExactlyWhenPositive(s: State)
    requires Counted(s)
    ensures Positive(s) <==> forall events | NeverLowers(s, events) :: Safe(s, events)
    ensures Positive(s) <==> forall events | CarriesNoVersion(events) :: Safe(s, events)
  {
    forall events | CarriesNoVersion(events)
      ensures NeverLowers(s, events)
    {
      CarryingNoneNeverLowers(s, events);
    }
    if Positive(s) {
      forall events | NeverLowers(s, events)
        ensures Safe(s, events)
      {
        SupersededTokensStayDead(s, events);
      }
    } else if i :| 0 <= i < |s.logins| && s.logins[i].HasRead? && s.logins[i].userID in s.t.users
                   && s.logins[i].version == 0 {
      WriteBackResurrects(s, i);
      assert CarriesNoVersion(LowersUnderway(i, s.logins[i].userID));
    } else {
      var id :| id in s.t.users && s.t.users[id].authVersion == 0;
      var i := |s.logins|;
      WriteBackResurrects(Step(s, Reads(id)), i);
      UnsafeAfter(s, Reads(id), LowersUnderway(i, id));
      assert CarriesNoVersion([Reads(id)] + LowersUnderway(i, id));
    }
  }

  /** The events that make a token of the version a row was lowered to: enable the user, log in. */
  function LogsIn(s: State, id: nat): seq<Event> {
    [Updates(id, Payload(Unset, None, ENABLED, 0)), Reads(id), Issues(|s.logins|), Persists(|s.logins|, "", "", "", 1)]
  }

  lemma {:induction false} LoginAuthenticates(s: State, id: nat)
    requires id in s.t.users && s.t.users[id].authVersion > 0
    ensures var after := Run(s, LogsIn(s, id)).t;
      && Authenticates(after, s.t.nextToken, 0)
      && after.tokens[s.t.nextToken].userID == id
      && after.tokens[s.t.nextToken].authVersion == s.t.users[id].authVersion
  {
    var events := LogsIn(s, id);
    var a := Step(s, events[0]);
    assert UpdateError(s.t, id, Payload(Unset, None, ENABLED, 0)).None?;
    assert a.t.users[id].authVersion == s.t.users[id].authVersion && a.t.users[id].status == ENABLED;
    var b := Step(a, events[1]);
    var c := Step(b, events[2]);
    assert Run(s, events[..0]) == s;
    assert events[..1][..0] == events[..0] && Run(s, events[..1]) == a;
    assert events[..2][..1] == events[..1] && Run(s, events[..2]) == b;
    assert events[..3][..2] == events[..2] && Run(s, events[..3]) == c;
    assert events[..4] == events && events[..4][..3] == events[..3];
  }

  /** After an update that lowers a version, a fresh login gets a token of a superseded version. */
  lemma LoweringResurrects(s: State, id: nat, p: Payload)
    requires Counted(s) && Positive(s) && !KeepsVersion(s.t, Updates(id, p))
    ensures !Safe(s, [Updates(id, p)] + LogsIn(Step(s, Updates(id, p)), id))
  {
    var lowered := Step(s, Updates(id, p));
    var events := LogsIn(lowered, id);
    LoginAuthenticates(lowered, id);
    assert Run(s, [Updates(id, p)]) == lowered by {
      assert [Updates(id, p)][..0] == [] && Run(s, []) == s;
    }
    RunSplits(s, [Updates(id, p)], events);
    var all := [Updates(id, p)] + events;
    assert all[..0] == [];
    assert Resurrected(Run(s, all[..0]), Run(s, all), lowered.t.nextToken, 0);
  }

  /** An update is harmless exactly when it writes no older version: then no continuation whose
      requests carry none brings a superseded token back, and otherwise a login does. */
  lemma SafeExactlyWhenUpdateKeepsVersion(s: State, id: nat, p: Payload)
    requires Counted(s) && Positive(s)
    ensures KeepsVersion(s.t, Updates(id, p)) <==>
      forall events | CarriesNoVersion(events) :: Safe(s, [Updates(id, p)] + events)
  {
    if KeepsVersion(s.t, Updates(id, p)) {
      forall events | CarriesNoVersion(events)
        ensures Safe(s, [Updates(id, p)] + events)
      {
        CarryingNoneNeverLowers(Step(s, Updates(id, p)), events);
        NeverLowersJoins(s, Updates(id, p), events);
        SupersededTokensStayDead(s, [Updates(id, p)] + events);
      }
    } else {
      LoweringResurrects(s, id, p);
      assert CarriesNoVersion(LogsIn(Step(s, Updates(id, p)), id));
    }
  }

  /** A request that carries the version it read earlier undoes a recovery in between: the row goes
      back to that version and a token stored after the recovery comes alive. */
  lemma {:induction false} StalePayloadResurrects(s: State, id: nat)
    requires id in s.t.users && s.t.users[id].authVersion > 0
    ensures var stale := Payload(Unset, None, ENABLED, s.t.users[id].authVersion);
      !Safe(s, [Reads(id), Issues(|s.logins|), Recovers(id), Persists(|s.logins|, "", "", "", 1), Updates(id, stale)])
  {
    var v, i := s.t.users[id].authVersion, |s.logins|;
    var stale := Payload(Unset, None, ENABLED, v);
    var events := [Reads(id), Issues(i), Recovers(id), Persists(i, "", "", "", 1), Updates(id, stale)];
    var a := Step(s, Reads(id));
    var b := Step(a, Issues(i));
    var c := Step(b, Recovers(id));
    var d := Step(c, Persists(i, "", "", "", 1));
    assert Run(s, events[..0]) == s;
    assert events[..1][..0] == events[..0] && Run(s, events[..1]) == a;
    assert events[..2][..1] == events[..1] && Run(s, events[..2]) == b;
    assert events[..3][..2] == events[..2] && Run(s, events[..3]) == c;
    assert events[..4][..3] == events[..3] && Run(s, events[..4]) == d;
    assert events[..5] == events && events[..5][..4] == events[..4];
    assert Resurrected(Run(s, events[..3]), Run(s, events), s.t.nextToken, 0);
  }
}
