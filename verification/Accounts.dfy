/** User and token rows, and how account transactions change them. Every function here is one
    committed transaction on both tables. */
module AccountSpec {
  import opened Wrappers

  datatype Role = PlainUser | ScopedAdmin | SuperAdmin | Unset

  const ENABLED := 1
  const DISABLED := 2

  datatype User = User(role: Role, isAdmin: bool, status: int, authVersion: nat)

  datatype Token = Token(
    userID: nat, jti: Option<string>, kid: string, tokenHash: Option<string>, legacyToken: string,
    authVersion: nat, expiresAt: int, revoked: bool)

  /** nextUser and nextToken are the auto-increment counters: ids are never used twice. */
  datatype Tables = Tables(users: map<nat, User>, tokens: map<nat, Token>, nextUser: nat, nextToken: nat)

  datatype Error = NotFound | InvalidStatus | LastSuperAdministrator

  /** The columns an update request carries; zero values are not written. */
  datatype Payload = Payload(role: Role, isAdmin: Option<bool>, status: int, authVersion: nat)

  function EffectiveRole(u: User): Role {
    if u.role != Unset then u.role else if u.isAdmin then SuperAdmin else PlainUser
  }

  predicate AdminTier(r: Role) {
    r == ScopedAdmin || r == SuperAdmin
  }

  predicate EnabledSuper(u: User) {
    EffectiveRole(u) == SuperAdmin && u.status == ENABLED
  }

  /** What getAdminUserCountTx counts: the stored role, not the effective one. */
  predicate CountedSuper(u: User) {
    u.role == SuperAdmin && u.status == ENABLED
  }

  function Supers(users: map<nat, User>): set<nat> {
    set id | id in users && CountedSuper(users[id])
  }

  function RequestedRole(u: User, p: Payload): Role {
    var named := if p.role != Unset then p.role else EffectiveRole(u);
    if p.isAdmin.Some? && p.isAdmin.value != AdminTier(named) then (if p.isAdmin.value then SuperAdmin else PlainUser)
    else named
  }

  function Written(u: User, p: Payload): User {
    var role := RequestedRole(u, p);
    User(role, AdminTier(role), p.status, if p.authVersion == 0 then u.authVersion else p.authVersion)
  }

  predicate RemovesEnabledSuper(u: User, p: Payload) {
    EnabledSuper(u) && (RequestedRole(u, p) != SuperAdmin || p.status == DISABLED)
  }

  predicate BumpsVersion(u: User, p: Payload) {
    (u.status == ENABLED && p.status == DISABLED) || RequestedRole(u, p) != EffectiveRole(u)
  }

  function RevokeAll(tokens: map<nat, Token>, userID: nat): map<nat, Token> {
    map k | k in tokens :: if tokens[k].userID == userID then tokens[k].(revoked := true) else tokens[k]
  }

  /** bumpAuthVersionAndRevokeCount. */
  function Bump(t: Tables, id: nat): Tables
    requires id in t.users
  {
    t.(users := t.users[id := t.users[id].(authVersion := t.users[id].authVersion + 1)],
       tokens := RevokeAll(t.tokens, id))
  }

  function UpdateError(t: Tables, id: nat, p: Payload): Option<Error> {
    if p.status != ENABLED && p.status != DISABLED then Some(InvalidStatus)
    else if id !in t.users then Some(NotFound)
    else if RemovesEnabledSuper(t.users[id], p) && |Supers(t.users)| <= 1 then Some(LastSuperAdministrator)
    else None
  }

  function Update(t: Tables, id: nat, p: Payload): Tables {
    if UpdateError(t, id, p).Some? then t
    else
      var w := t.(users := t.users[id := Written(t.users[id], p)]);
      if BumpsVersion(t.users[id], p) then Bump(w, id) else w
  }

  function DeleteError(t: Tables, id: nat): Option<Error> {
    if id !in t.users then Some(NotFound)
    else if |Supers(t.users)| <= 1 && EnabledSuper(t.users[id]) then Some(LastSuperAdministrator)
    else None
  }

  function Delete(t: Tables, id: nat): Tables {
    if DeleteError(t, id).Some? then t
    else t.(users := t.users - {id}, tokens := RevokeAll(t.tokens, id))
  }

  /** RecoverAdministratorContext, once its selector matched. */
  function Recover(t: Tables, id: nat): Tables {
    if id !in t.users then t
    else Bump(t.(users := t.users[id := t.users[id].(role := SuperAdmin, isAdmin := true, status := ENABLED)]), id)
  }

  /** An account created without an explicit version gets the column's default. */
  function Create(t: Tables, role: Role, isAdmin: bool, status: int): Tables {
    t.(users := t.users[t.nextUser := User(role, isAdmin, status, 1)], nextUser := t.nextUser + 1)
  }

  /** The row checks of AuthenticateAccessTokenContext. */
  predicate Authenticates(t: Tables, k: nat, now: int) {
    && k in t.tokens && !t.tokens[k].revoked && t.tokens[k].expiresAt > now
    && t.tokens[k].userID in t.users
    && t.users[t.tokens[k].userID].status == ENABLED
    && t.users[t.tokens[k].userID].authVersion != 0
    && t.tokens[k].authVersion == t.users[t.tokens[k].userID].authVersion
  }
}

/** What the account transactions do, column by column. */
module AccountEffects {
  import opened Wrappers
  import opened AccountSpec

  /** The role an update asks for: the named one, or the user's own; a legacy admin flag that does not
      fit it asks for super administrator or plain user. */
  lemma RequestedRoles(u: User, p: Payload)
    ensures p.isAdmin.None? ==> RequestedRole(u, p) == if p.role != Unset then p.role else EffectiveRole(u)
    ensures p.role == Unset && p.isAdmin == Some(true) ==>
      RequestedRole(u, p) == if EffectiveRole(u) == ScopedAdmin then ScopedAdmin else SuperAdmin
    ensures p.role == Unset && p.isAdmin == Some(false) ==> RequestedRole(u, p) == PlainUser
    ensures p.isAdmin == Some(true) && p.role == PlainUser ==> RequestedRole(u, p) == SuperAdmin
    ensures p.isAdmin == Some(false) && (p.role == ScopedAdmin || p.role == SuperAdmin) ==>
      RequestedRole(u, p) == PlainUser
    ensures p.isAdmin == Some(true) && (p.role == ScopedAdmin || p.role == SuperAdmin) ==>
      RequestedRole(u, p) == p.role
    ensures p.isAdmin == Some(false) && p.role == PlainUser ==> RequestedRole(u, p) == PlainUser
  {
  }

  /** The role of a row without one follows its legacy flag. */
  lemma EffectiveRoles(u: User)
    ensures EffectiveRole(u) ==
      match u.role
      case Unset => if u.isAdmin then SuperAdmin else PlainUser
      case PlainUser => PlainUser
      case ScopedAdmin => ScopedAdmin
      case SuperAdmin => SuperAdmin
  {
  }

  /** The users that keep the last one from being taken. */
  function Counted(users: map<nat, User>): set<nat> {
    set id | id in users && users[id].role == SuperAdmin && users[id].status == 1
  }

  lemma SupersAreCounted(users: map<nat, User>)
    ensures Supers(users) == Counted(users)
  {
  }

  /** An update is refused for an unknown status, an unknown user, and where it would take role or
      status from an enabled super administrator while at most one is counted; for nothing else. */
  lemma UpdateSucceedsExactly(t: Tables, id: nat, p: Payload)
    ensures UpdateError(t, id, p).None? <==>
      && (p.status == 1 || p.status == 2) && id in t.users
      && (var takes := RequestedRole(t.users[id], p) != SuperAdmin || p.status == 2;
          EffectiveRole(t.users[id]) == SuperAdmin && t.users[id].status == 1 && takes ==> |Counted(t.users)| >= 2)
  {
    SupersAreCounted(t.users);
  }

  /** An accepted update writes the requested role, the flag that goes with it and the status. On a
      change of role, or when it disables the user, it raises the version and revokes the user's
      tokens; otherwise it leaves both, but for a version of its own. Nothing else changes. */
  lemma UpdateWrites(t: Tables, id: nat, p: Payload)
    requires UpdateError(t, id, p).None?
    ensures var was, after := t.users[id], Update(t, id, p);
      var role := RequestedRole(was, p);
      var bumps := role != EffectiveRole(was) || (was.status == 1 && p.status == 2);
      var version := if p.authVersion == 0 then was.authVersion else p.authVersion;
      && after.users == t.users[id := User(role, role == ScopedAdmin || role == SuperAdmin, p.status,
                                           if bumps then version + 1 else version)]
      && after.tokens.Keys == t.tokens.Keys
      && (forall k | k in t.tokens ::
            after.tokens[k] == t.tokens[k].(revoked := t.tokens[k].revoked || (bumps && t.tokens[k].userID == id)))
      && after.nextUser == t.nextUser && after.nextToken == t.nextToken
  {
    var was := t.users[id];
    if BumpsVersion(was, p) {
      assert t.users[id := Written(was, p)][id := Written(was, p).(authVersion := Written(was, p).authVersion + 1)]
             == t.users[id := Written(was, p).(authVersion := Written(was, p).authVersion + 1)];
    }
  }

  lemma DeleteExactly(t: Tables, id: nat)
    ensures DeleteError(t, id).None? <==>
      id in t.users
      && (EffectiveRole(t.users[id]) == SuperAdmin && t.users[id].status == 1 ==> |Counted(t.users)| >= 2)
    ensures DeleteError(t, id).None? ==>
      var after := Delete(t, id);
      && after.users == t.users - {id} && after.tokens.Keys == t.tokens.Keys
      && (forall k | k in t.tokens ::
            after.tokens[k] == t.tokens[k].(revoked := t.tokens[k].revoked || t.tokens[k].userID == id))
  {
    SupersAreCounted(t.users);
  }

  lemma RecoverWrites(t: Tables, id: nat)
    requires id in t.users
    ensures var after := Recover(t, id);
      && after.users == t.users[id := User(SuperAdmin, true, 1, t.users[id].authVersion + 1)]
      && after.tokens.Keys == t.tokens.Keys
      && (forall k | k in t.tokens ::
            after.tokens[k] == t.tokens[k].(revoked := t.tokens[k].revoked || t.tokens[k].userID == id))
  {
    var u := t.users[id].(role := SuperAdmin, isAdmin := true, status := ENABLED);
    assert t.users[id := u][id := u.(authVersion := u.authVersion + 1)]
           == t.users[id := u.(authVersion := u.authVersion + 1)];
  }
}

/** The account store: the same transactions as statements on two tables. */
module AccountStores {
  import opened Wrappers
  import opened AccountSpec

  /** What strict verification of the presented token said. */
  datatype Verified =
    | NotConfigured
    | Rejected
    | Claims(userID: nat, jti: string, authVersion: nat)

  class AccountStore {
    var users: map<nat, User>
    var tokens: map<nat, Token>
    var nextUser: nat
    var nextToken: nat
    var adminLock: nat  // generation of the enabled-admin invariant row

    ghost function Contents(): Tables
      reads this
    {
      Tables(users, tokens, nextUser, nextToken)
    }

    constructor (t: Tables)
      ensures Contents() == t
    {
      users, tokens, nextUser, nextToken, adminLock := t.users, t.tokens, t.nextUser, t.nextToken, 0;
    }

    /** Counts the enabled super administrators by their stored role. */
    method getAdminUserCount() returns (count: nat)
      ensures count == |Supers(users)|
    {
      count := 0;
      var rest := users.Keys;
      while rest != {}
        invariant rest <= users.Keys && count == |Supers(users) - rest|
        decreases rest
      {
        var id :| id in rest;
        if CountedSuper(users[id]) {
          assert Supers(users) - (rest - {id}) == (Supers(users) - rest) + {id};
          count := count + 1;
        } else {
          assert Supers(users) - (rest - {id}) == Supers(users) - rest;
        }
        rest := rest - {id};
      }
      assert Supers(users) - {} == Supers(users);
    }

    method revokeUserTokens(userID: nat)
      modifies this`tokens
      ensures tokens == RevokeAll(old(tokens), userID)
      ensures tokens.Keys == old(tokens).Keys && forall k :: k in tokens ==>
        tokens[k] == old(tokens)[k].(revoked := old(tokens)[k].revoked || old(tokens)[k].userID == userID)
    {
      var rest := tokens.Keys;
      while rest != {}
        invariant rest <= tokens.Keys == old(tokens).Keys
        invariant forall k :: k in tokens ==>
          tokens[k] == if k in rest then old(tokens)[k] else RevokeAll(old(tokens), userID)[k]
        decreases rest
      {
        var k :| k in rest;
        if tokens[k].userID == userID {
          tokens := tokens[k := tokens[k].(revoked := true)];
        }
        rest := rest - {k};
      }
    }

    method bumpAuthVersionAndRevoke(userID: nat) returns (e: Option<Error>)
      modifies this`users, this`tokens
      ensures e == if userID in old(users) then None else Some(NotFound)
      ensures Contents() == if userID in old(users) then Bump(old(Contents()), userID) else old(Contents())
    {
      if userID !in users {
        return Some(NotFound);
      }
      users := users[userID := users[userID].(authVersion := users[userID].authVersion + 1)];
      revokeUserTokens(userID);
      e := None;
    }

    method UpdateContext(id: nat, p: Payload) returns (e: Option<Error>)
      modifies this
      ensures e == UpdateError(old(Contents()), id, p)
      ensures Contents() == Update(old(Contents()), id, p)
    {
      if p.status != ENABLED && p.status != DISABLED {
        return Some(InvalidStatus);
      }
      adminLock := adminLock + 1;
      if id !in users {
        return Some(NotFound);
      }
      var current := users[id];
      var currentRole := EffectiveRole(current);
      var requestedRole := currentRole;
      if p.role != Unset {
        requestedRole := p.role;
      }
      if p.isAdmin.Some? && p.isAdmin.value != AdminTier(requestedRole) {
        if p.isAdmin.value {
          requestedRole := SuperAdmin;
        } else {
          requestedRole := PlainUser;
        }
      }
      var roleChanged := currentRole != requestedRole;
      var willDisable := current.status == ENABLED && p.status == DISABLED;
      if currentRole == SuperAdmin && current.status == ENABLED
         && (requestedRole != SuperAdmin || p.status == DISABLED) {
        var adminCount := getAdminUserCount();
        if adminCount <= 1 {
          return Some(LastSuperAdministrator);
        }
      }
      users := users[id := User(requestedRole, AdminTier(requestedRole), p.status,
                                if p.authVersion != 0 then p.authVersion else current.authVersion)];
      e := None;
      if willDisable || roleChanged {
        e := bumpAuthVersionAndRevoke(id);
      }
    }

    method DeleteContext(id: nat) returns (e: Option<Error>)
      modifies this
      ensures e == DeleteError(old(Contents()), id)
      ensures Contents() == Delete(old(Contents()), id)
    {
      adminLock := adminLock + 1;
      if id !in users {
        return Some(NotFound);
      }
      var userCount := getAdminUserCount();
      if userCount <= 1 && EffectiveRole(users[id]) == SuperAdmin && users[id].status == ENABLED {
        return Some(LastSuperAdministrator);
      }
      revokeUserTokens(id);
      users := users - {id};
      e := None;
    }

    method RecoverAdministrator(id: nat) returns (e: Option<Error>)
      modifies this
      ensures e == (if id in old(users) then None else Some(NotFound))
      ensures Contents() == Recover(old(Contents()), id)
    {
      if id !in users {
        return Some(NotFound);
      }
      users := users[id := users[id].(role := SuperAdmin, isAdmin := true, status := ENABLED)];
      e := bumpAuthVersionAndRevoke(id);
    }

    /** The row that carries the token: by hash, and for legacy reads by its plain text. */
    method FindToken(hash: string, token: string, legacyRead: bool) returns (k: Option<nat>)
      ensures k.Some? ==>
        && k.value in tokens
        && (tokens[k.value].tokenHash == Some(hash) || (legacyRead && tokens[k.value].legacyToken == token))
      ensures k.None? || tokens[k.value].tokenHash != Some(hash) ==>
        forall x :: x in tokens ==> tokens[x].tokenHash != Some(hash)
    {
      var legacy: Option<nat> := None;
      var rest := tokens.Keys;
      while rest != {}
        invariant rest <= tokens.Keys
        invariant forall x :: x in tokens && x !in rest ==> tokens[x].tokenHash != Some(hash)
        invariant legacy.Some? ==> legacy.value in tokens && tokens[legacy.value].legacyToken == token
        decreases rest
      {
        var x :| x in rest;
        if tokens[x].tokenHash == Some(hash) {
          return Some(x);
        }
        if tokens[x].legacyToken == token {
          legacy := Some(x);
        }
        rest := rest - {x};
      }
      k := if legacyRead then legacy else None;
    }

    /** A row that a token may come back through, besides the row checks. */
    ghost predicate Fits(k: nat, userID: nat, token: string, hash: string, verified: Verified, legacyRead: bool)
      requires k in tokens
      reads this
    {
      && tokens[k].userID == userID
      && (tokens[k].tokenHash == Some(hash) || (legacyRead && tokens[k].legacyToken == token))
      && (verified.Claims? ==>
            verified.userID == userID && Some(verified.jti) == tokens[k].jti
            && verified.authVersion == tokens[k].authVersion)
      && (verified.Rejected? ==> legacyRead && tokens[k].kid == "")
    }

    ghost predicate HasHashAlone(k: nat, hash: string)
      reads this
    {
      && k in tokens && tokens[k].tokenHash == Some(hash)
      && forall x :: x in tokens && tokens[x].tokenHash == Some(hash) ==> x == k
    }

    /** AuthenticateAccessTokenContext: whichever way the token was verified, a user comes back only
        through a row that passes every row check, and with the version the row carries. When one row
        alone carries the token's hash, that row decides. */
    method AuthenticateAccessToken(token: string, hash: string, maxTokenBytes: nat, verified: Verified,
                                   legacyRead: bool, now: int)
      returns (userID: Option<nat>)
      ensures userID.Some? ==>
        exists k | k in tokens ::
          && !tokens[k].revoked && now < tokens[k].expiresAt && tokens[k].userID == userID.value
          && userID.value in users && users[userID.value].status == 1 && users[userID.value].authVersion != 0
          && tokens[k].authVersion == users[userID.value].authVersion
          && Fits(k, userID.value, token, hash, verified, legacyRead)
      ensures forall k | HasHashAlone(k, hash) ::
        userID == Some(tokens[k].userID) <==>
          && token != "" && |token| <= maxTokenBytes && (verified.Rejected? ==> legacyRead)
          && !tokens[k].revoked && now < tokens[k].expiresAt
          && tokens[k].userID in users && users[tokens[k].userID].status == 1
          && users[tokens[k].userID].authVersion != 0
          && tokens[k].authVersion == users[tokens[k].userID].authVersion
          && Fits(k, tokens[k].userID, token, hash, verified, legacyRead)
    {
      if token == "" || |token| > maxTokenBytes {
        return None;
      }
      if verified.Rejected? && !legacyRead {
        return None;
      }
      var found := FindToken(hash, token, legacyRead);
      if found.None? {
        return None;
      }
      var k := found.value;
      var ut := tokens[k];
      if verified.Rejected? && ut.kid != "" {
        return None;
      }
      if ut.tokenHash.Some? && ut.tokenHash.value != hash {
        return None;
      }
      if ut.revoked || ut.expiresAt <= now {
        return None;
      }
      if verified.Claims? {
        if verified.userID != ut.userID || ut.jti.None? || verified.jti != ut.jti.value
           || verified.authVersion != ut.authVersion {
          return None;
        }
      }
      if ut.userID !in users || users[ut.userID].status != ENABLED || users[ut.userID].authVersion == 0
         || ut.authVersion != users[ut.userID].authVersion {
        return None;
      }
      assert Fits(k, ut.userID, token, hash, verified, legacyRead);
      userID := Some(ut.userID);
    }
  }
}
