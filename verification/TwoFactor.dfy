/** The two-factor service: the operations as statements on its tables. */
module TwoFactors {
  import opened Wrappers
  import opened Totp
  import opened TwoFactorSpec

  class TwoFactorService {
    const mac: Mac
    var users: set<nat>
    var factors: map<nat, Factor>
    var nextFactor: nat
    var challenges: map<string, Challenge>
    var nextChallenge: nat
    ghost var setups: seq<Setup>
    ghost var log: seq<Entry>

    ghost function Contents(): State
      reads this
    {
      State(Tables(users, factors, nextFactor, challenges, nextChallenge), setups, log)
    }

    constructor (mac: Mac)
      ensures this.mac == mac && Contents() == Empty
    {
      this.mac := mac;
      users, factors, nextFactor, challenges, nextChallenge := {}, map[], 0, map[], 0;
      setups, log := [], [];
    }

    /** The check of a setup; the secret drawn is an argument. */
    method checkSetup(user: nat, secret: Secret) returns (e: Option<Error>)
      modifies this
      ensures e == BeginError(old(Contents()).t, user)
      ensures Contents() == Begin(old(Contents()), user, secret)
    {
      if user == 0 {
        return Some(AuthenticationFailed);
      }
      if user in factors && factors[user].enabled {
        return Some(AlreadyEnabled);
      }
      setups := setups + [Drawn(user, secret)];
      log := log + [Issued(secret)];
      e := None;
    }

    method firstOrCreate(user: nat, ghost setup: nat) returns (row: nat)
      requires setup < |setups| && setups[setup].Drawn? && setups[setup].user == user
      modifies this
      ensures Contents() == FindRow(old(Contents()), setup)
      ensures setups == old(setups)[setup := HasRow(user, old(setups)[setup].secret, row)]
    {
      if user !in factors {
        factors := factors[user := Factor(nextFactor, None, None, 0, false, 0)];
        nextFactor := nextFactor + 1;
      }
      row := factors[user].id;
      setups := setups[setup := HasRow(user, setups[setup].secret, row)];
    }

    method writePending(user: nat, row: nat, secret: Secret, now: int, ghost setup: nat)
      requires setup < |setups| && setups[setup] == HasRow(user, secret, row)
      modifies this
      ensures Contents() == WritePending(old(Contents()), setup, now)
    {
      if user in factors && factors[user].id == row {
        factors := factors[user := factors[user].(pending := Some(secret), pendingExpiresAt := now + SETUP_SECONDS)];
      }
      setups := setups[setup := Written];
    }

    /** The three statements of a setup, with nothing between them. Afterwards the secret is pending. */
    method BeginSetup(user: nat, secret: Secret, now: int) returns (e: Option<Error>)
      modifies this
      ensures e == BeginError(old(Contents()).t, user)
      ensures e.Some? ==> Contents() == old(Contents())
      ensures e.None? ==>
        Contents() == WritePending(FindRow(Begin(old(Contents()), user, secret), |old(setups)|), |old(setups)|, now)
      ensures e.None? ==>
        user in factors && factors[user].pending == Some(secret)
        && factors[user].pendingExpiresAt == now + 600
    {
      e := checkSetup(user, secret);
      if e.None? {
        ghost var setup := |setups| - 1;
        var row := firstOrCreate(user, setup);
        writePending(user, row, secret, now, setup);
      }
    }

    method ConfirmSetup(user: nat, code: string, checked: int, now: int) returns (e: Option<Error>)
      modifies this
      ensures Contents() == Confirm(mac, old(Contents()), user, code, checked, now)
      ensures e.None? <==>
        Confirmable(old(Contents()).t, user, checked)
        && ConfirmStep(mac, old(Contents()).t, user, code, now).Some?
      ensures e.None? ==>
        var was := old(factors)[user];
        && user in old(users) && was.pending.Some? && checked <= was.pendingExpiresAt
        && ValidCode(code) && now / 30 - 1 <= factors[user].lastUsedStep
        && Truncated(mac(was.pending.value, factors[user].lastUsedStep)) == Decimal(code)
        && factors == old(factors)[user := Factor(was.id, was.pending, None, 0, true, factors[user].lastUsedStep)]
      ensures e.Some? ==> factors == old(factors)
    {
      if user == 0 {
        return Some(AuthenticationFailed);
      }
      if user !in factors {
        return Some(CodeRefused);
      }
      var record := factors[user];
      if record.enabled || record.pendingExpiresAt < checked || record.pending.None? {
        return Some(CodeRefused);
      }
      var step := verifyTOTP(mac, record.pending.value, code, now, 0);
      if step.None? {
        log := log + [Tried(record.pending.value, code, now, None)];
        return Some(CodeRefused);
      }
      if user !in users {
        // the version bump finds no row, and the transaction rolls back
        log := log + [Tried(record.pending.value, code, now, None)];
        return Some(StorageFailed);
      }
      factors := factors[user := record.(secret := record.pending, pending := None, pendingExpiresAt := 0,
                                         enabled := true, lastUsedStep := step.value)];
      log := log + [Tried(record.pending.value, code, now, step)];
      e := None;
    }

    method Disable(user: nat, code: string, now: int) returns (e: Option<Error>)
      modifies this
      ensures Contents() == DisableFactor(mac, old(Contents()), user, code, now)
      ensures e.None? <==>
        Disableable(old(Contents()).t, user) && DisableStep(mac, old(Contents()).t, user, code, now).Some?
      ensures factors ==
        if e.None? then old(factors)[user := Factor(old(factors)[user].id, None, None, 0, false, 0)] else old(factors)
    {
      if user == 0 {
        return Some(AuthenticationFailed);
      }
      if user !in factors || !factors[user].enabled || factors[user].secret.None? {
        return Some(CodeRefused);
      }
      var record := factors[user];
      var step := verifyTOTP(mac, record.secret.value, code, now, record.lastUsedStep);
      if step.None? {
        log := log + [Tried(record.secret.value, code, now, None)];
        return Some(CodeRefused);
      }
      if user !in users {
        log := log + [Tried(record.secret.value, code, now, None)];
        return Some(StorageFailed);
      }
      factors := factors[user := record.(secret := None, pending := None, pendingExpiresAt := 0, enabled := false,
                                         lastUsedStep := 0)];
      log := log + [Tried(record.secret.value, code, now, step)];
      e := None;
    }

    method CreateLoginChallenge(user: nat, username: string, token: string, binding: Binding, now: int, ttl: int)
      returns (e: Option<Error>)
      modifies this
      ensures e == CreateError(old(Contents()).t, user, token, now)
      ensures Contents() == CreateChallenge(old(Contents()), user, username, token, binding, now, ttl)
      ensures e.None? ==>
        && token in challenges && challenges[token].userID == user && challenges[token].username == username
        && challenges[token].binding == binding && challenges[token].expiresAt == now + ttl
        && challenges[token].attempts == 0 && challenges[token].usedAt == 0
    {
      if user == 0 || user !in factors || !factors[user].enabled {
        return Some(SecondFactorRequired);
      }
      challenges := map k | k in challenges && challenges[k].expiresAt >= now :: challenges[k];
      if token in challenges {
        return Some(StorageFailed);
      }
      challenges := challenges[token := Challenge(nextChallenge, user, username, binding, now + ttl, 0, 0)];
      log := log + [Opened(nextChallenge, username, binding, now + ttl)];
      nextChallenge := nextChallenge + 1;
      e := None;
    }

    method CompleteLoginChallenge(token: string, username: string, code: string, binding: Binding, clock: Clock)
      returns (r: Result<nat, Error>)
      modifies this
      ensures Contents() == Complete(mac, old(Contents()), token, username, code, binding, clock)
      ensures r.Ok? <==>
        && Answerable(old(Contents()).t, token, username, binding, clock.checked)
        && CompleteStep(mac, old(Contents()).t, token, code, clock.now).Some?
        && old(challenges)[token].userID in old(users)
      ensures r.Ok? ==>
        var was := old(challenges)[token];
        && r.value == was.userID && r.value in factors
        && 32 <= |token| <= 128 && was.usedAt == 0 && was.attempts < 5 && clock.checked <= was.expiresAt
        && was.username == username && was.binding == binding
        && challenges == old(challenges)[token := was.(usedAt := clock.used, attempts := was.attempts + 1)]
        && old(factors)[r.value].enabled && old(factors)[r.value].lastUsedStep < factors[r.value].lastUsedStep
        && factors == old(factors)[r.value := old(factors)[r.value].(lastUsedStep := factors[r.value].lastUsedStep)]
      ensures r == Err(CodeRefused) ==> factors == old(factors) && token in old(challenges)
      ensures r == Err(CodeRefused) ==>
        var was := old(challenges)[token];
        challenges == old(challenges)[token := was.(attempts := was.attempts + 1)]
      ensures r == Err(ChallengeRefused) <==> !Answerable(old(Contents()).t, token, username, binding, clock.checked)
      ensures r == Err(CodeRefused) <==>
        && Answerable(old(Contents()).t, token, username, binding, clock.checked)
        && CompleteStep(mac, old(Contents()).t, token, code, clock.now).None?
    {
      if |token| < 32 || |token| > 128 || token !in challenges {
        return Err(ChallengeRefused);
      }
      var challenge := challenges[token];
      if challenge.usedAt != 0 || challenge.expiresAt < clock.checked || challenge.attempts >= 5
         || challenge.username != username || challenge.binding != binding {
        return Err(ChallengeRefused);
      }
      var user := challenge.userID;
      if user !in factors || !factors[user].enabled || factors[user].secret.None? {
        return Err(ChallengeRefused);
      }
      var factor := factors[user];
      var step := verifyTOTP(mac, factor.secret.value, code, clock.now, factor.lastUsedStep);
      if step.None? {
        challenges := challenges[token := challenge.(attempts := challenge.attempts + 1)];
        log := log + [Challenged(challenge.id, username, binding, factor.secret.value, code, clock, None)];
        return Err(CodeRefused);
      }
      if user !in users {
        // the user row is read last, and without it the transaction rolls back
        log := log + [Challenged(challenge.id, username, binding, factor.secret.value, code, clock, None)];
        return Err(StorageFailed);
      }
      factors := factors[user := factor.(lastUsedStep := step.value)];
      challenges := challenges[token := challenge.(usedAt := clock.used, attempts := challenge.attempts + 1)];
      log := log + [Challenged(challenge.id, username, binding, factor.secret.value, code, clock, step)];
      r := Ok(user);
    }

    /** The two-factor part of local maintenance. */
    method ResetTwoFactorMaintenance(user: nat) returns (e: Option<Error>)
      modifies this
      ensures e.None? <==> user in old(users)
      ensures Contents() == Reset(old(Contents()), user, true)
    {
      if user !in users {
        return Some(StorageFailed);
      }
      factors := factors - {user};
      challenges := map k | k in challenges && challenges[k].userID != user :: challenges[k];
      e := None;
    }
  }
}
