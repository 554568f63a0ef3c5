/** What every run of the two-factor operations keeps. */
module TwoFactorRuns {
  import opened Wrappers
  import opened Totp
  import opened TwoFactorSpec

  /** No secret is handed out twice: setup draws 20 random bytes. */
  ghost predicate FreshSecrets(log: seq<Entry>) {
    forall i, j :: 0 <= i < j < |log| && log[i].Issued? && log[j].Issued? ==> log[i].secret != log[j].secret
  }

  predicate Evaluates(e: Entry) {
    e.Tried? || e.Challenged?
  }

  /** The clock a code was checked against. */
  function At(e: Entry): int
    requires Evaluates(e)
  {
    if e.Tried? then e.now else e.clock.now
  }

  /** A code for this secret was accepted. */
  predicate AcceptedFor(e: Entry, secret: Secret) {
    Evaluates(e) && e.secret == secret && e.step.Some?
  }

  /** The accepted steps of one secret strictly increase. */
  ghost predicate StepsIncrease(log: seq<Entry>) {
    forall i, j, secret ::
      0 <= i < j < |log| && AcceptedFor(log[i], secret) && AcceptedFor(log[j], secret) ==>
        log[i].step.value < log[j].step.value
  }

  /** The code spells the one-time password of its step, and the step is in the window of its clock. */
  predicate InWindow(mac: Mac, e: Entry) {
    Evaluates(e) && e.step.Some? ==>
      && ClockStep(At(e)) - 1 <= e.step.value <= ClockStep(At(e)) + 1
      && e.code == Spelled(Truncated(mac(e.secret, e.step.value)), 6)
  }

  predicate HeldBy(f: Factor, secret: Secret) {
    f.secret == Some(secret) || f.pending == Some(secret)
  }

  ghost predicate WasIssued(log: seq<Entry>, secret: Secret) {
    exists i :: 0 <= i < |log| && log[i] == Issued(secret)
  }

  predicate Sound(f: Factor) {
    && (f.secret.Some? <==> f.enabled)
    && (f.secret.Some? ==> f.secret != f.pending)
  }

  /** What the row knows of the codes accepted so far: its own secret only for steps it covers, and
      its pending secret never. */
  predicate Covers(f: Factor, e: Entry) {
    Evaluates(e) && e.step.Some? ==>
      && (f.secret == Some(e.secret) ==> e.step.value <= f.lastUsedStep)
      && f.pending != Some(e.secret)
  }

  /** A setup under way holds its secret until it writes it. */
  predicate Carries(setup: Setup, secret: Secret) {
    !setup.Written? && setup.secret == secret
  }

  /** A secret on its way to a row is in no row yet, was never accepted, and is on no other way. */
  ghost predicate SetupsKept(s: State) {
    && (forall i | 0 <= i < |s.setups| && !s.setups[i].Written? :: WasIssued(s.log, s.setups[i].secret))
    && (forall i, u | 0 <= i < |s.setups| && u in s.t.factors && !s.setups[i].Written? ::
          !HeldBy(s.t.factors[u], s.setups[i].secret))
    && (forall i, j | 0 <= i < |s.setups| && 0 <= j < |s.log| && !s.setups[i].Written? ::
          !AcceptedFor(s.log[j], s.setups[i].secret))
    && (forall i, j | 0 <= i < j < |s.setups| && !s.setups[i].Written? :: !Carries(s.setups[j], s.setups[i].secret))
  }

  /** Each secret was issued, is held by one user, and is covered. */
  ghost predicate SecretsKept(s: State) {
    && (forall u, secret | u in s.t.factors && HeldBy(s.t.factors[u], secret) :: WasIssued(s.log, secret))
    && (forall i | 0 <= i < |s.log| && Evaluates(s.log[i]) :: WasIssued(s.log, s.log[i].secret))
    && (forall u, v, secret | u in s.t.factors && v in s.t.factors && HeldBy(s.t.factors[u], secret)
                              && HeldBy(s.t.factors[v], secret) :: u == v)
    && (forall u | u in s.t.factors :: Sound(s.t.factors[u]))
    && (forall u, i | u in s.t.factors && 0 <= i < |s.log| :: Covers(s.t.factors[u], s.log[i]))
  }

  /** All that a run keeps about secrets. */
  ghost predicate Kept(s: State) {
    SecretsKept(s) && SetupsKept(s) && StepsIncrease(s.log)
  }

  lemma IssuedStays(log: seq<Entry>, e: Entry, secret: Secret)
    ensures WasIssued(log + [e], secret) <==> WasIssued(log, secret) || e == Issued(secret)
  {
    if WasIssued(log, secret) {
      var i :| 0 <= i < |log| && log[i] == Issued(secret);
      assert (log + [e])[i] == Issued(secret);
    }
    if e == Issued(secret) {
      assert (log + [e])[|log|] == Issued(secret);
    }
  }

  lemma BeginKeepsSecrets(s: State, user: nat, secret: Secret)
    requires Kept(s) && !WasIssued(s.log, secret)
    ensures Kept(Begin(s, user, secret))
  {
    forall x
      ensures WasIssued(s.log + [Issued(secret)], x) <==> WasIssued(s.log, x) || x == secret
    {
      IssuedStays(s.log, Issued(secret), x);
    }
  }

  lemma FindRowKeepsSecrets(s: State, i: nat)
    requires Kept(s)
    ensures Kept(FindRow(s, i))
  {
  }

  /** A secret on its way comes to a row that nothing was accepted for. */
  lemma PendingKeepsSecrets(s: State, u: nat, f: Factor, secret: Secret)
    requires SecretsKept(s) && u in s.t.factors && WasIssued(s.log, secret)
    requires forall v | v in s.t.factors :: !HeldBy(s.t.factors[v], secret)
    requires forall j | 0 <= j < |s.log| :: !AcceptedFor(s.log[j], secret)
    requires f == s.t.factors[u].(pending := Some(secret), pendingExpiresAt := f.pendingExpiresAt)
    ensures SecretsKept(s.(t := s.t.(factors := s.t.factors[u := f])))
  {
    forall i | 0 <= i < |s.log|
      ensures Covers(f, s.log[i])
    {
      assert Covers(s.t.factors[u], s.log[i]) && !AcceptedFor(s.log[i], secret);
    }
  }

  lemma WriteKeepsSetups(s: State, i: nat, now: int)
    requires SetupsKept(s)
    ensures SetupsKept(WritePending(s, i, now))
  {
  }

  lemma WriteKeepsSecrets(s: State, i: nat, now: int)
    requires Kept(s)
    ensures Kept(WritePending(s, i, now))
  {
    WriteKeepsSetups(s, i, now);
    if i < |s.setups| && s.setups[i].HasRow? && s.setups[i].user in s.t.factors {
      var setup := s.setups[i];
      var f := s.t.factors[setup.user].(pending := Some(setup.secret), pendingExpiresAt := now + SETUP_SECONDS);
      PendingKeepsSecrets(s, setup.user, f, setup.secret);
    }
  }

  /** An evaluation at the end of the log, with the row it belongs to moved on. */
  lemma EvaluationKeepsSecrets(s: State, u: nat, f: Factor, e: Entry)
    requires SecretsKept(s) && StepsIncrease(s.log) && u in s.t.factors && Evaluates(e)
    requires HeldBy(s.t.factors[u], e.secret) && Sound(f) && (f != s.t.factors[u] ==> e.step.Some?)
    requires forall secret | HeldBy(f, secret) :: HeldBy(s.t.factors[u], secret)
    requires e.step.Some? ==>
      && Covers(f, e) && (s.t.factors[u].secret == Some(e.secret) ==> e.step.value > s.t.factors[u].lastUsedStep)
      && (f.secret.Some? ==> f.secret.value == e.secret)
      && (f.pending == s.t.factors[u].pending || f.pending.None?)
    ensures var after := s.(t := s.t.(factors := s.t.factors[u := f]), log := s.log + [e]);
      SecretsKept(after) && StepsIncrease(after.log)
  {
    var after := s.(t := s.t.(factors := s.t.factors[u := f]), log := s.log + [e]);
    forall x
      ensures WasIssued(after.log, x) <==> WasIssued(s.log, x)
    {
      IssuedStays(s.log, e, x);
    }
    forall i | 0 <= i < |s.log|
      ensures Covers(f, s.log[i])
    {
      assert Covers(s.t.factors[u], s.log[i]);
    }
    forall i, secret | 0 <= i < |s.log| && AcceptedFor(s.log[i], secret) && AcceptedFor(e, secret)
      ensures s.log[i].step.value < e.step.value
    {
      assert Covers(s.t.factors[u], s.log[i]);
    }
  }

  lemma EvaluationKeepsSetups(s: State, u: nat, f: Factor, e: Entry)
    requires SetupsKept(s) && u in s.t.factors && Evaluates(e) && HeldBy(s.t.factors[u], e.secret)
    requires forall secret | HeldBy(f, secret) :: HeldBy(s.t.factors[u], secret)
    ensures SetupsKept(s.(t := s.t.(factors := s.t.factors[u := f]), log := s.log + [e]))
  {
    forall x
      ensures WasIssued(s.log + [e], x) <==> WasIssued(s.log, x)
    {
      IssuedStays(s.log, e, x);
    }
  }

  lemma ConfirmKeepsSecrets(mac: Mac, s: State, user: nat, code: string, checked: int, now: int)
    requires Kept(s)
    ensures Kept(Confirm(mac, s, user, code, checked, now))
  {
    if Confirmable(s.t, user, checked) {
      var f := s.t.factors[user];
      var step := ConfirmStep(mac, s.t, user, code, now);
      var after := if step.None? then f else Factor(f.id, f.pending, None, 0, true, step.value);
      var e := Tried(f.pending.value, code, now, step);
      EvaluationKeepsSecrets(s, user, after, e);
      EvaluationKeepsSetups(s, user, after, e);
      assert step.None? ==> s.t.factors[user := after] == s.t.factors;
    }
  }

  lemma DisableKeepsSecrets(mac: Mac, s: State, user: nat, code: string, now: int)
    requires Kept(s)
    ensures Kept(DisableFactor(mac, s, user, code, now))
  {
    if Disableable(s.t, user) {
      var f := s.t.factors[user];
      var step := DisableStep(mac, s.t, user, code, now);
      var after := if step.None? then f else Factor(f.id, None, None, 0, false, 0);
      var e := Tried(f.secret.value, code, now, step);
      EvaluationKeepsSecrets(s, user, after, e);
      EvaluationKeepsSetups(s, user, after, e);
      assert step.None? ==> s.t.factors[user := after] == s.t.factors;
    }
  }

  lemma CompleteKeepsSecrets(mac: Mac, s: State, token: string, username: string, code: string, binding: Binding,
                             clock: Clock)
    requires Kept(s)
    ensures Kept(Complete(mac, s, token, username, code, binding, clock))
  {
    if Answerable(s.t, token, username, binding, clock.checked) {
      var c := s.t.challenges[token];
      var f := s.t.factors[c.userID];
      var step := if c.userID in s.t.users then CompleteStep(mac, s.t, token, code, clock.now) else None;
      var after := if step.None? then f else f.(lastUsedStep := step.value);
      var e := Challenged(c.id, username, binding, f.secret.value, code, clock, step);
      EvaluationKeepsSecrets(s, c.userID, after, e);
      EvaluationKeepsSetups(s, c.userID, after, e);
      assert step.None? ==> s.t.factors[c.userID := after] == s.t.factors;
    }
  }

  /** A step that only drops rows, or touches other tables. */
  lemma DroppingKeepsSecrets(s: State, after: State)
    requires Kept(s) && after.setups == s.setups
    requires after.t.factors.Keys <= s.t.factors.Keys
    requires forall u | u in after.t.factors :: after.t.factors[u] == s.t.factors[u]
    requires after.log == s.log || exists e: Entry :: e.Opened? && after.log == s.log + [e]
    ensures Kept(after)
  {
    forall x
      ensures WasIssued(after.log, x) <==> WasIssued(s.log, x)
    {
      if after.log != s.log {
        var e: Entry :| e.Opened? && after.log == s.log + [e];
        IssuedStays(s.log, e, x);
      }
    }
  }

  lemma StepKeepsSecrets(mac: Mac, s: State, e: Event)
    requires Kept(s) && FreshSecrets(Step(mac, s, e).log)
    ensures Kept(Step(mac, s, e))
  {
    match e
    case Begins(user, secret) =>
      if BeginError(s.t, user).None? {
        var log := Begin(s, user, secret).log;
        assert log[|s.log|] == Issued(secret);
        assert forall i :: 0 <= i < |s.log| ==> log[i] == s.log[i] != Issued(secret);
        BeginKeepsSecrets(s, user, secret);
      }
    case FindsRow(i) => FindRowKeepsSecrets(s, i);
    case WritesPending(i, now) => WriteKeepsSecrets(s, i, now);
    case Confirms(user, code, checked, now) => ConfirmKeepsSecrets(mac, s, user, code, checked, now);
    case Disables(user, code, now) => DisableKeepsSecrets(mac, s, user, code, now);
    case Completes(token, username, code, binding, clock) =>
      CompleteKeepsSecrets(mac, s, token, username, code, binding, clock);
    case _ => DroppingKeepsSecrets(s, Step(mac, s, e));
  }

  lemma LogGrows(mac: Mac, s: State, e: Event)
    ensures s.log <= Step(mac, s, e).log && |Step(mac, s, e).log| <= |s.log| + 1
    ensures forall x | x in Step(mac, s, e).log :: x in s.log || InWindow(mac, x)
  {
    var after := Step(mac, s, e).log;
    if after != s.log {
      var x := after[|s.log|];
      assert after == s.log + [x];
      if Evaluates(x) && x.step.Some? {
        OneCodePerValue(Truncated(mac(x.secret, x.step.value)), x.code);
      }
    }
  }

  lemma {:induction false} RunKeepsSecrets(mac: Mac, events: seq<Event>)
    requires FreshSecrets(Run(mac, events).log)
    ensures Kept(Run(mac, events))
  {
    if events != [] {
      var before := Run(mac, events[..|events| - 1]);
      LogGrows(mac, before, events[|events| - 1]);
      assert FreshSecrets(before.log) by {
        assert forall i :: 0 <= i < |before.log| ==> before.log[i] == Run(mac, events).log[i];
      }
      RunKeepsSecrets(mac, events[..|events| - 1]);
      StepKeepsSecrets(mac, before, events[|events| - 1]);
    }
  }

  /** Replay protection: over any run, the steps accepted for one secret, at setup, login and disable
      alike, strictly increase. */
  lemma NoStepIsAcceptedTwice(mac: Mac, events: seq<Event>)
    requires FreshSecrets(Run(mac, events).log)
    ensures StepsIncrease(Run(mac, events).log)
  {
    RunKeepsSecrets(mac, events);
  }

  /** Every accepted code is the one-time password of a step within one of the clock's. */
  lemma {:induction false} AcceptedCodesAreCurrent(mac: Mac, events: seq<Event>)
    ensures forall e | e in Run(mac, events).log :: InWindow(mac, e)
    ensures forall e | e in Run(mac, events).log && Evaluates(e) && e.step.Some? && At(e) >= 0 ::
      At(e) / 30 - 1 <= e.step.value <= At(e) / 30 + 1
  {
    if events != [] {
      AcceptedCodesAreCurrent(mac, events[..|events| - 1]);
      LogGrows(mac, Run(mac, events[..|events| - 1]), events[|events| - 1]);
    }
  }

  predicate About(e: Entry, id: nat) {
    e.Challenged? && e.id == id
  }

  /** How many codes were evaluated for a challenge. */
  ghost function Evaluations(log: seq<Entry>, id: nat): nat {
    if log == [] then 0
    else Evaluations(log[..|log| - 1], id) + if About(log[|log| - 1], id) then 1 else 0
  }

  /** Evaluating a code says whether it succeeded; no evaluation of the same challenge follows a success. */
  ghost predicate SuccessIsLast(log: seq<Entry>) {
    forall i, j | 0 <= i < j < |log| && log[i].Challenged? && About(log[j], log[i].id) :: log[i].step.None?
  }

  /** The challenge was opened earlier with this id, for this account name and binding, and is not
      past its deadline. */
  predicate Opening(o: Entry, e: Entry) {
    && o.Opened? && e.Challenged? && o.id == e.id && o.username == e.username && o.binding == e.binding
    && e.clock.checked <= o.expiresAt
  }

  ghost predicate WasOpened(log: seq<Entry>, e: Entry) {
    exists o :: o in log && Opening(o, e)
  }

  /** Clocks past the epoch: a used-at time of zero would mean unused. */
  ghost predicate PastTheEpoch(log: seq<Entry>) {
    forall e | e in log && e.Challenged? :: e.clock.used != 0
  }

  /** A stored challenge: its row agrees with the log. */
  ghost predicate RowAgrees(log: seq<Entry>, c: Challenge) {
    && Evaluations(log, c.id) == c.attempts
    && Opened(c.id, c.username, c.binding, c.expiresAt) in log
    && (c.usedAt == 0 ==> forall e | e in log && About(e, c.id) :: e.step.None?)
  }

  /** The stored challenges agree with the log and have ids of their own. */
  ghost predicate RowsKept(s: State) {
    && (forall token | token in s.t.challenges :: RowAgrees(s.log, s.t.challenges[token]))
    && (forall token | token in s.t.challenges :: s.t.challenges[token].id < s.t.nextChallenge)
    && (forall a, b | a in s.t.challenges && b in s.t.challenges && s.t.challenges[a].id == s.t.challenges[b].id ::
          a == b)
  }

  /** No challenge, stored or gone, has had too many codes evaluated, nor any before it was opened. */
  ghost predicate LogKept(s: State) {
    && (forall id :: Evaluations(s.log, id) <= MAX_ATTEMPTS)
    && (forall e | e in s.log && e.Opened? :: e.id < s.t.nextChallenge)
    && (forall e | e in s.log && e.Challenged? :: e.id < s.t.nextChallenge && WasOpened(s.log, e))
    && (forall i, j | 0 <= i < j < |s.log| && s.log[i].Opened? && s.log[j].Opened? :: s.log[i].id != s.log[j].id)
  }

  ghost predicate ChallengesKept(s: State) {
    RowsKept(s) && LogKept(s)
  }

  /** An enabled factor belongs to a user row. */
  ghost predicate EnabledHaveUsers(t: Tables) {
    forall u | u in t.factors && t.factors[u].enabled :: u in t.users
  }

  lemma {:induction false} NoneWithoutEntries(log: seq<Entry>, id: nat)
    requires forall e | e in log :: !About(e, id)
    ensures Evaluations(log, id) == 0
  {
    if log != [] {
      NoneWithoutEntries(log[..|log| - 1], id);
    }
  }

  lemma EvaluationsExtend(log: seq<Entry>, e: Entry, id: nat)
    ensures Evaluations(log + [e], id) == Evaluations(log, id) + if About(e, id) then 1 else 0
  {
    assert (log + [e])[..|log + [e]| - 1] == log;
  }

  /** Steps that evaluate no challenge and open none, but may drop some. */
  lemma QuietStepKeepsChallenges(s: State, after: State)
    requires ChallengesKept(s)
    requires after.t.nextChallenge == s.t.nextChallenge
    requires forall token | token in after.t.challenges ::
      token in s.t.challenges && after.t.challenges[token] == s.t.challenges[token]
    requires after.log == s.log || exists e: Entry :: !e.Challenged? && !e.Opened? && after.log == s.log + [e]
    ensures ChallengesKept(after)
  {
    if after.log != s.log {
      var e: Entry :| !e.Challenged? && !e.Opened? && after.log == s.log + [e];
      forall id
        ensures Evaluations(after.log, id) == Evaluations(s.log, id)
      {
        EvaluationsExtend(s.log, e, id);
      }
    }
  }

  lemma PurgeKeepsChallenges(s: State, now: int)
    requires ChallengesKept(s)
    ensures ChallengesKept(s.(t := s.t.(challenges := Unexpired(s.t.challenges, now))))
  {
    QuietStepKeepsChallenges(s, s.(t := s.t.(challenges := Unexpired(s.t.challenges, now))));
  }

  /** The state with one more challenge opened. */
  function WithChallenge(s: State, token: string, row: Challenge): State {
    s.(t := s.t.(challenges := s.t.challenges[token := row], nextChallenge := s.t.nextChallenge + 1),
       log := s.log + [Opened(row.id, row.username, row.binding, row.expiresAt)])
  }

  lemma OpeningKeepsLog(s: State, token: string, row: Challenge)
    requires LogKept(s) && row.id == s.t.nextChallenge
    ensures LogKept(WithChallenge(s, token, row))
  {
    var e := Opened(row.id, row.username, row.binding, row.expiresAt);
    forall id
      ensures Evaluations(s.log + [e], id) == Evaluations(s.log, id)
    {
      EvaluationsExtend(s.log, e, id);
    }
    forall x | x in s.log && x.Challenged?
      ensures WasOpened(s.log + [e], x)
    {
      var o :| o in s.log && Opening(o, x);
      assert o in s.log + [e];
    }
  }

  /** No code was evaluated for a new challenge's id. */
  lemma OpeningKeepsRows(s: State, token: string, row: Challenge)
    requires RowsKept(s) && token !in s.t.challenges
    requires row.id == s.t.nextChallenge && row.attempts == 0 && row.usedAt == 0
    requires forall e | e in s.log && e.Challenged? :: e.id < s.t.nextChallenge
    ensures RowsKept(WithChallenge(s, token, row))
  {
    var e := Opened(row.id, row.username, row.binding, row.expiresAt);
    forall id
      ensures Evaluations(s.log + [e], id) == Evaluations(s.log, id)
    {
      EvaluationsExtend(s.log, e, id);
    }
    NoneWithoutEntries(s.log, e.id);
  }

  lemma CreateKeepsChallenges(s: State, user: nat, username: string, token: string, binding: Binding, now: int,
                              ttl: int)
    requires ChallengesKept(s)
    ensures ChallengesKept(CreateChallenge(s, user, username, token, binding, now, ttl))
  {
    PurgeKeepsChallenges(s, now);
    if CreateError(s.t, user, token, now).None? {
      var purged := s.(t := s.t.(challenges := Unexpired(s.t.challenges, now)));
      var row := Challenge(s.t.nextChallenge, user, username, binding, now + ttl, 0, 0);
      OpeningKeepsLog(purged, token, row);
      OpeningKeepsRows(purged, token, row);
    }
  }

  /** The state after an evaluation of a stored challenge. */
  ghost predicate Answers(s: State, after: State, token: string, e: Entry, usedAt: int) {
    && token in s.t.challenges && About(e, s.t.challenges[token].id)
    && after.log == s.log + [e] && after.t.nextChallenge == s.t.nextChallenge
    && after.t.challenges == s.t.challenges[token :=
         s.t.challenges[token].(attempts := s.t.challenges[token].attempts + 1, usedAt := usedAt)]
  }

  lemma AnswerCounts(log: seq<Entry>, e: Entry)
    requires e.Challenged?
    ensures forall id :: Evaluations(log + [e], id) == Evaluations(log, id) + if id == e.id then 1 else 0
  {
    forall id
      ensures Evaluations(log + [e], id) == Evaluations(log, id) + if id == e.id then 1 else 0
    {
      EvaluationsExtend(log, e, id);
    }
  }

  /** An evaluation raises the count of its own challenge, which was below the limit. */
  lemma AnswerKeepsLog(s: State, after: State, token: string, e: Entry, usedAt: int)
    requires ChallengesKept(s) && Answers(s, after, token, e, usedAt)
    requires s.t.challenges[token].attempts < MAX_ATTEMPTS
    requires Opening(Opened(e.id, s.t.challenges[token].username, s.t.challenges[token].binding,
                            s.t.challenges[token].expiresAt), e)
    ensures LogKept(after)
  {
    AnswerCounts(s.log, e);
    assert RowAgrees(s.log, s.t.challenges[token]);
    forall x | x in after.log && x.Challenged?
      ensures WasOpened(after.log, x)
    {
      if x == e {
        assert Opening(Opened(e.id, e.username, e.binding, s.t.challenges[token].expiresAt), e);
      } else {
        var o :| o in s.log && Opening(o, x);
        assert o in after.log;
      }
    }
  }

  lemma AnswerKeepsRows(s: State, after: State, token: string, e: Entry, usedAt: int)
    requires RowsKept(s) && Answers(s, after, token, e, usedAt)
    requires s.t.challenges[token].usedAt == 0 && (e.step.Some? ==> usedAt != 0)
    ensures RowsKept(after)
  {
    AnswerCounts(s.log, e);
    forall other | other in after.t.challenges
      ensures RowAgrees(after.log, after.t.challenges[other])
    {
      assert RowAgrees(s.log, s.t.challenges[other]);
    }
  }

  lemma AnswerKeepsOrder(log: seq<Entry>, e: Entry)
    requires SuccessIsLast(log) && e.Challenged?
    requires forall x | x in log && About(x, e.id) :: x.step.None?
    ensures SuccessIsLast(log + [e])
  {
  }

  lemma CompleteKeepsChallenges(mac: Mac, s: State, token: string, username: string, code: string, binding: Binding,
                                clock: Clock)
    requires ChallengesKept(s) && SuccessIsLast(s.log) && EnabledHaveUsers(s.t) && clock.used != 0
    ensures var after := Complete(mac, s, token, username, code, binding, clock);
      ChallengesKept(after) && SuccessIsLast(after.log)
  {
    if Answerable(s.t, token, username, binding, clock.checked) {
      var after := Complete(mac, s, token, username, code, binding, clock);
      assert RowAgrees(s.log, s.t.challenges[token]) && s.t.challenges[token].userID in s.t.users;
      var e := after.log[|s.log|];
      assert after.log == s.log + [e];
      AnswerKeepsOrder(s.log, e);
      var usedAt := if e.step.Some? then clock.used else 0;
      assert Answers(s, after, token, e, usedAt);
      AnswerKeepsLog(s, after, token, e, usedAt);
      AnswerKeepsRows(s, after, token, e, usedAt);
    }
  }

  lemma StepKeepsUsers(mac: Mac, s: State, e: Event)
    requires EnabledHaveUsers(s.t)
    ensures EnabledHaveUsers(Step(mac, s, e).t)
  {
  }

  lemma DropsKeepChallenges(mac: Mac, s: State, e: Event)
    requires ChallengesKept(s) && (e.AddsUser? || e.DeletesUser? || e.Resets?)
    ensures ChallengesKept(Step(mac, s, e)) && Step(mac, s, e).log == s.log
  {
    QuietStepKeepsChallenges(s, Step(mac, s, e));
  }

  lemma SetupsKeepChallenges(mac: Mac, s: State, e: Event)
    requires ChallengesKept(s) && (e.Begins? || e.FindsRow? || e.WritesPending? || e.Confirms? || e.Disables?)
    ensures ChallengesKept(Step(mac, s, e)) && (SuccessIsLast(s.log) ==> SuccessIsLast(Step(mac, s, e).log))
  {
    QuietStepKeepsChallenges(s, Step(mac, s, e));
  }

  lemma StepKeepsChallenges(mac: Mac, s: State, e: Event)
    requires ChallengesKept(s) && SuccessIsLast(s.log) && EnabledHaveUsers(s.t)
    requires PastTheEpoch(Step(mac, s, e).log)
    ensures ChallengesKept(Step(mac, s, e)) && SuccessIsLast(Step(mac, s, e).log)
  {
    match e
    case Creates(user, username, token, binding, now, ttl) =>
      CreateKeepsChallenges(s, user, username, token, binding, now, ttl);
    case Completes(token, username, code, binding, clock) =>
      if Answerable(s.t, token, username, binding, clock.checked) {
        var after := Step(mac, s, e);
        assert after.log[|s.log|] in after.log && after.log[|s.log|].clock == clock;
      }
      if clock.used != 0 {
        CompleteKeepsChallenges(mac, s, token, username, code, binding, clock);
      }
    case _ =>
      if e.AddsUser? || e.DeletesUser? || e.Resets? {
        DropsKeepChallenges(mac, s, e);
      } else {
        SetupsKeepChallenges(mac, s, e);
      }
  }

  /** A code that fits never meets a missing user row at login, so no evaluation goes uncounted. */
  lemma {:induction false} EnabledFactorsHaveUsers(mac: Mac, events: seq<Event>)
    ensures EnabledHaveUsers(Run(mac, events).t)
  {
    if events == [] {
    } else {
      EnabledFactorsHaveUsers(mac, events[..|events| - 1]);
      StepKeepsUsers(mac, Run(mac, events[..|events| - 1]), events[|events| - 1]);
    }
  }

  lemma {:induction false} RunKeepsChallenges(mac: Mac, events: seq<Event>)
    requires PastTheEpoch(Run(mac, events).log)
    ensures ChallengesKept(Run(mac, events)) && SuccessIsLast(Run(mac, events).log)
  {
    if events == [] {
    } else {
      var before := Run(mac, events[..|events| - 1]);
      LogGrows(mac, before, events[|events| - 1]);
      RunKeepsChallenges(mac, events[..|events| - 1]);
      EnabledFactorsHaveUsers(mac, events[..|events| - 1]);
      StepKeepsChallenges(mac, before, events[|events| - 1]);
    }
  }

  /** Each challenge evaluates at most five codes, succeeds at most once and then never again, and
      only for the account name and binding it was opened with, up to its deadline. */
  lemma ChallengesAreOneShot(mac: Mac, events: seq<Event>, id: nat)
    requires PastTheEpoch(Run(mac, events).log)
    ensures Evaluations(Run(mac, events).log, id) <= 5
    ensures SuccessIsLast(Run(mac, events).log)
    ensures forall e | e in Run(mac, events).log && About(e, id) :: WasOpened(Run(mac, events).log, e)
  {
    RunKeepsChallenges(mac, events);
  }
}
