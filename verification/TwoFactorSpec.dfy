/** Two-factor tables and the operations on them. Each is one committed transaction, except for setup,
    which draws a secret, finds a row and writes it in three statements that others may come between.
    The log records what no table keeps: which secrets were handed out, and every code evaluated. */
module TwoFactorSpec {
  import opened Wrappers
  import opened Totp

  const SETUP_SECONDS := 600
  const MAX_ATTEMPTS := 5

  type Mac = (Secret, int) -> Digest

  datatype Factor = Factor(
    id: nat, secret: Option<Secret>, pending: Option<Secret>, pendingExpiresAt: int, enabled: bool, lastUsedStep: int)

  datatype Binding = Binding(client: string, deviceID: string, uuid: string, platform: string)

  datatype Challenge = Challenge(
    id: nat, userID: nat, username: string, binding: Binding, expiresAt: int, attempts: nat, usedAt: int)

  /** factors by user, challenges by token (its hash in the source). */
  datatype Tables = Tables(
    users: set<nat>, factors: map<nat, Factor>, nextFactor: nat,
    challenges: map<string, Challenge>, nextChallenge: nat)

  /** An evaluation carries the step it was accepted for; None when the code was refused or the
      transaction rolled back. */
  datatype Entry =
    | Issued(secret: Secret)
    | Opened(id: nat, username: string, binding: Binding, expiresAt: int)
    | Tried(secret: Secret, code: string, now: int, step: Option<int>)
    | Challenged(id: nat, username: string, binding: Binding, secret: Secret, code: string, clock: Clock,
                 step: Option<int>)

  /** A login reads the clock for the deadline, for the code, and for the mark that it was used. */
  datatype Clock = Clock(checked: int, now: int, used: int)

  /** A setup under way: its secret drawn, then its row found, then the secret written there. */
  datatype Setup =
    | Drawn(user: nat, secret: Secret)
    | HasRow(user: nat, secret: Secret, row: nat)
    | Written

  datatype State = State(t: Tables, setups: seq<Setup>, log: seq<Entry>)

  datatype Error = AuthenticationFailed | AlreadyEnabled | CodeRefused | SecondFactorRequired | ChallengeRefused
                 | StorageFailed

  const Empty := State(Tables({}, map[], 0, map[], 0), [], [])

  predicate EnabledForUser(t: Tables, user: nat) {
    user != 0 && user in t.factors && t.factors[user].enabled
  }

  function Logged(s: State, e: Entry): State {
    s.(log := s.log + [e])
  }

  function BeginError(t: Tables, user: nat): Option<Error> {
    if user == 0 then Some(AuthenticationFailed)
    else if EnabledForUser(t, user) then Some(AlreadyEnabled)
    else None
  }

  function Begin(s: State, user: nat, secret: Secret): State {
    if BeginError(s.t, user).Some? then s
    else Logged(s.(setups := s.setups + [Drawn(user, secret)]), Issued(secret))
  }

  /** FirstOrCreate. */
  function WithRow(t: Tables, user: nat): Tables {
    if user in t.factors then t
    else t.(factors := t.factors[user := Factor(t.nextFactor, None, None, 0, false, 0)],
            nextFactor := t.nextFactor + 1)
  }

  function FindRow(s: State, i: nat): State {
    if i < |s.setups| && s.setups[i].Drawn? then
      var t := WithRow(s.t, s.setups[i].user);
      var found := HasRow(s.setups[i].user, s.setups[i].secret, t.factors[s.setups[i].user].id);
      s.(t := t, setups := s.setups[i := found])
    else s
  }

  /** The pending columns are written to the row that was found, if it is still there, whatever has
      become of it. */
  function WritePending(s: State, i: nat, now: int): State {
    if i < |s.setups| && s.setups[i].HasRow? then
      var setup := s.setups[i];
      var done := s.(setups := s.setups[i := Written]);
      if setup.user in s.t.factors && s.t.factors[setup.user].id == setup.row then
        var factor := s.t.factors[setup.user].(pending := Some(setup.secret), pendingExpiresAt := now + SETUP_SECONDS);
        done.(t := s.t.(factors := s.t.factors[setup.user := factor]))
      else done
    else s
  }

  /** A row whose pending secret may still be confirmed. */
  predicate Confirmable(t: Tables, user: nat, checked: int) {
    && user != 0 && user in t.factors && !t.factors[user].enabled
    && t.factors[user].pendingExpiresAt >= checked && t.factors[user].pending.Some?
  }

  /** The step a setup code is accepted for; enabling also needs the user row for its version bump. */
  function ConfirmStep(mac: Mac, t: Tables, user: nat, code: string, now: int): Option<int>
    requires user in t.factors && t.factors[user].pending.Some?
  {
    if user !in t.users then None else Accepts(mac, t.factors[user].pending.value, code, now, 0)
  }

  function Confirm(mac: Mac, s: State, user: nat, code: string, checked: int, now: int): State {
    if !Confirmable(s.t, user, checked) then s
    else
      var f := s.t.factors[user];
      var step := ConfirmStep(mac, s.t, user, code, now);
      var after := if step.None? then s.t
                   else s.t.(factors := s.t.factors[user := Factor(f.id, f.pending, None, 0, true, step.value)]);
      Logged(s.(t := after), Tried(f.pending.value, code, now, step))
  }

  predicate Disableable(t: Tables, user: nat) {
    EnabledForUser(t, user) && t.factors[user].secret.Some?
  }

  function DisableStep(mac: Mac, t: Tables, user: nat, code: string, now: int): Option<int>
    requires Disableable(t, user)
  {
    if user !in t.users then None
    else Accepts(mac, t.factors[user].secret.value, code, now, t.factors[user].lastUsedStep)
  }

  function DisableFactor(mac: Mac, s: State, user: nat, code: string, now: int): State {
    if !Disableable(s.t, user) then s
    else
      var f := s.t.factors[user];
      var step := DisableStep(mac, s.t, user, code, now);
      var after := if step.None? then s.t
                   else s.t.(factors := s.t.factors[user := Factor(f.id, None, None, 0, false, 0)]);
      Logged(s.(t := after), Tried(f.secret.value, code, now, step))
  }

  function Unexpired(challenges: map<string, Challenge>, now: int): map<string, Challenge> {
    map token | token in challenges && challenges[token].expiresAt >= now :: challenges[token]
  }

  function CreateError(t: Tables, user: nat, token: string, now: int): Option<Error> {
    if !EnabledForUser(t, user) then Some(SecondFactorRequired)
    else if token in Unexpired(t.challenges, now) then Some(StorageFailed)
    else None
  }

  /** Expired rows go first, in a statement of their own. */
  function CreateChallenge(s: State, user: nat, username: string, token: string, binding: Binding, now: int,
                           ttl: int): State {
    var error := CreateError(s.t, user, token, now);
    if error == Some(SecondFactorRequired) then s
    else
      var purged := s.(t := s.t.(challenges := Unexpired(s.t.challenges, now)));
      if error.Some? then purged
      else
        var row := Challenge(s.t.nextChallenge, user, username, binding, now + ttl, 0, 0);
        Logged(purged.(t := purged.t.(challenges := purged.t.challenges[token := row],
                                      nextChallenge := s.t.nextChallenge + 1)),
               Opened(row.id, username, binding, row.expiresAt))
  }

  /** A challenge that gets a code evaluated for this caller. */
  predicate Answerable(t: Tables, token: string, username: string, binding: Binding, checked: int) {
    && 32 <= |token| <= 128 && token in t.challenges
    && var c := t.challenges[token];
       && c.usedAt == 0 && c.expiresAt >= checked && c.attempts < MAX_ATTEMPTS
       && c.username == username && c.binding == binding
       && c.userID in t.factors && t.factors[c.userID].enabled && t.factors[c.userID].secret.Some?
  }

  function CompleteStep(mac: Mac, t: Tables, token: string, code: string, now: int): Option<int>
    requires token in t.challenges && t.challenges[token].userID in t.factors
    requires t.factors[t.challenges[token].userID].secret.Some?
  {
    var f := t.factors[t.challenges[token].userID];
    Accepts(mac, f.secret.value, code, now, f.lastUsedStep)
  }

  function Complete(mac: Mac, s: State, token: string, username: string, code: string, binding: Binding,
                    clock: Clock): State {
    if !Answerable(s.t, token, username, binding, clock.checked) then s
    else
      var c := s.t.challenges[token];
      var f := s.t.factors[c.userID];
      var step := CompleteStep(mac, s.t, token, code, clock.now);
      var tried := c.(attempts := c.attempts + 1);
      var after :=
        if step.None? then s.t.(challenges := s.t.challenges[token := tried])
        else if c.userID !in s.t.users then s.t
        else s.t.(factors := s.t.factors[c.userID := f.(lastUsedStep := step.value)],
                  challenges := s.t.challenges[token := tried.(usedAt := clock.used)]);
      Logged(s.(t := after),
             Challenged(c.id, username, binding, f.secret.value, code, clock,
                        if c.userID in s.t.users then step else None))
  }

  function WithoutChallengesOf(challenges: map<string, Challenge>, user: nat): map<string, Challenge> {
    map token | token in challenges && challenges[token].userID != user :: challenges[token]
  }

  /** Local maintenance: challenges go, and the factor when asked for; user deletion takes all three. */
  function Reset(s: State, user: nat, dropFactor: bool): State {
    if user !in s.t.users then s
    else s.(t := s.t.(challenges := WithoutChallengesOf(s.t.challenges, user),
                      factors := if dropFactor then s.t.factors - {user} else s.t.factors))
  }

  function DeleteUser(s: State, user: nat): State {
    if user !in s.t.users then s
    else
      var cleared := Reset(s, user, true);
      cleared.(t := cleared.t.(users := cleared.t.users - {user}))
  }

  datatype Event =
    | AddsUser(user: nat)
    | DeletesUser(user: nat)
    | Resets(user: nat, dropFactor: bool)
    | Begins(user: nat, secret: Secret)
    | FindsRow(setup: nat)
    | WritesPending(setup: nat, now: int)
    | Confirms(user: nat, code: string, checked: int, now: int)
    | Disables(user: nat, code: string, now: int)
    | Creates(user: nat, username: string, token: string, binding: Binding, now: int, ttl: int)
    | Completes(token: string, username: string, code: string, binding: Binding, clock: Clock)

  function Step(mac: Mac, s: State, e: Event): State {
    match e
    case AddsUser(user) => s.(t := s.t.(users := s.t.users + {user}))
    case DeletesUser(user) => DeleteUser(s, user)
    case Resets(user, dropFactor) => Reset(s, user, dropFactor)
    case Begins(user, secret) => Begin(s, user, secret)
    case FindsRow(i) => FindRow(s, i)
    case WritesPending(i, now) => WritePending(s, i, now)
    case Confirms(user, code, checked, now) => Confirm(mac, s, user, code, checked, now)
    case Disables(user, code, now) => DisableFactor(mac, s, user, code, now)
    case Creates(user, username, token, binding, now, ttl) =>
      CreateChallenge(s, user, username, token, binding, now, ttl)
    case Completes(token, username, code, binding, clock) => Complete(mac, s, token, username, code, binding, clock)
  }

  function Run(mac: Mac, events: seq<Event>): State {
    if events == [] then Empty else Step(mac, Run(mac, events[..|events| - 1]), events[|events| - 1])
  }
}
