/** Binding a RustDesk id to a client UUID and an account, in the peer table. Three callers share one
    algorithm: native login, the rendezvous registry, and the migration of active logins. */
module PeerBindingSpec {
  import opened Wrappers
  import opened Identities

  datatype Source = Manual | NativeLogin | StarryRegistry

  /** inventory stands for the columns no bind writes. */
  datatype Peer = Peer(id: string, uuid: string, userID: nat, source: Source, verifiedAt: int, inventory: string)

  datatype Table = Table(rows: map<nat, Peer>, next: nat)

  datatype Error = IdentityConflict | IdentityUnverified

  datatype Outcome = Outcome(table: Table, error: Option<Error>)

  function ByID(t: Table, id: string): set<nat> {
    set r | r in t.rows && t.rows[r].id == id
  }

  function ByUUID(t: Table, uuid: string): set<nat> {
    set r | r in t.rows && t.rows[r].uuid == uuid
  }

  /** keepOwner: an anonymous report fits any owner and leaves it. */
  predicate Fits(row: Peer, uuid: string, userID: nat, keepOwner: bool) {
    && (row.uuid == "" || row.uuid == uuid)
    && (row.userID == 0 || row.userID == userID || keepOwner)
  }

  /** The claim meets at most one row, by id or by UUID, and that row does not contradict it. */
  predicate Claimable(t: Table, id: string, uuid: string, userID: nat, keepOwner: bool) {
    var met := ByID(t, id) + ByUUID(t, uuid);
    |met| <= 1 && forall r | r in met :: Fits(t.rows[r], uuid, userID, keepOwner)
  }

  ghost function Bind(t: Table, id: string, uuid: string, userID: nat, keepOwner: bool, source: Source, now: int)
    : Outcome
  {
    if !Claimable(t, id, uuid, userID, keepOwner) then Outcome(t, Some(IdentityConflict))
    else
      var met := ByID(t, id) + ByUUID(t, uuid);
      if met == {} then
        Outcome(Table(t.rows[t.next := Peer(id, uuid, userID, source, now, "")], t.next + 1), None)
      else
        var r :| r in met;
        var owner := if keepOwner then t.rows[r].userID else userID;
        Outcome(t.(rows := t.rows[r := Peer(id, uuid, owner, source, now, t.rows[r].inventory)]), None)
  }

  ghost function Login(t: Table, deviceID: string, uuid: string, userID: nat, now: int): Outcome {
    var id := Normalize(deviceID);
    if id == "" || uuid == "" || userID == 0 then Outcome(t, None)
    else Bind(t, id, uuid, userID, false, NativeLogin, now)
  }

  ghost function Registry(t: Table, deviceID: string, uuid: string, userID: nat, now: int): Outcome {
    var id := Normalize(deviceID);
    if id == "" || uuid == "" then Outcome(t, Some(IdentityUnverified))
    else Bind(t, id, uuid, userID, userID == 0, StarryRegistry, now)
  }

  ghost function Migrated(t: Table, deviceID: string, uuid: string, userID: nat, now: int): Outcome {
    Bind(t, deviceID, uuid, userID, false, NativeLogin, now)
  }

  /** Row ids come from the counter; ids are unique, and so are non-empty UUIDs. */
  ghost predicate Unique(t: Table) {
    && (forall r | r in t.rows :: r < t.next)
    && (forall a, b | a in t.rows && b in t.rows && t.rows[a].id == t.rows[b].id :: a == b)
    && (forall a, b | a in t.rows && b in t.rows && t.rows[a].uuid == t.rows[b].uuid && t.rows[a].uuid != "" :: a == b)
  }

  /** No row goes away, and a non-empty UUID or a non-zero owner stays. */
  ghost predicate Established(a: Table, b: Table) {
    forall r | r in a.rows ::
      && r in b.rows
      && (a.rows[r].uuid != "" ==> b.rows[r].uuid == a.rows[r].uuid)
      && (a.rows[r].userID != 0 ==> b.rows[r].userID == a.rows[r].userID)
      && b.rows[r].inventory == a.rows[r].inventory
  }

  lemma SubsetSize(a: set<nat>, b: set<nat>)
    requires a <= b
    ensures |a| <= |b|
  {
    assert b == a + (b - a);
  }

  lemma OnlyMember(met: set<nat>, r: nat)
    requires |met| <= 1 && r in met
    ensures met == {r}
  {
    assert |met - {r}| == 0;
  }

  /** A claim that meets one row: it fits, or nothing changes. */
  lemma BindMet(t: Table, id: string, uuid: string, userID: nat, keepOwner: bool, source: Source, now: int, r: nat)
    requires ByID(t, id) + ByUUID(t, uuid) == {r}
    ensures r in t.rows
    ensures var owner := if keepOwner then t.rows[r].userID else userID;
      Bind(t, id, uuid, userID, keepOwner, source, now) ==
        if Fits(t.rows[r], uuid, userID, keepOwner)
        then Outcome(t.(rows := t.rows[r := Peer(id, uuid, owner, source, now, t.rows[r].inventory)]), None)
        else Outcome(t, Some(IdentityConflict))
  {
    assert r in ByID(t, id) + ByUUID(t, uuid);
  }

  /** What the two look-ups say decides the bind. */
  lemma FoundRows(t: Table, id: string, uuid: string, userID: nat, keepOwner: bool, source: Source, now: int,
                  byID: Option<nat>, manyIDs: bool, byUUID: Option<nat>, manyUUIDs: bool)
    requires manyIDs <==> |ByID(t, id)| > 1
    requires manyUUIDs <==> |ByUUID(t, uuid)| > 1
    requires !manyIDs ==> ByID(t, id) == if byID.Some? then {byID.value} else {}
    requires !manyUUIDs ==> ByUUID(t, uuid) == if byUUID.Some? then {byUUID.value} else {}
    ensures !manyIDs && byID.Some? ==> byID.value in t.rows && t.rows[byID.value].id == id
    ensures !manyUUIDs && byUUID.Some? ==> byUUID.value in t.rows && t.rows[byUUID.value].uuid == uuid
    ensures var o := Bind(t, id, uuid, userID, keepOwner, source, now);
      if manyIDs || manyUUIDs || (byID.Some? && byUUID.Some? && byID != byUUID) then
        o == Outcome(t, Some(IdentityConflict))
      else if byID.None? && byUUID.None? then
        o == Outcome(Table(t.rows[t.next := Peer(id, uuid, userID, source, now, "")], t.next + 1), None)
      else
        var r := if byID.Some? then byID.value else byUUID.value;
        var owner := if keepOwner then t.rows[r].userID else userID;
        o == if Fits(t.rows[r], uuid, userID, keepOwner)
             then Outcome(t.(rows := t.rows[r := Peer(id, uuid, owner, source, now, t.rows[r].inventory)]), None)
             else Outcome(t, Some(IdentityConflict))
  {
    var met := ByID(t, id) + ByUUID(t, uuid);
    if !manyIDs && byID.Some? {
      assert byID.value in ByID(t, id);
    }
    if !manyUUIDs && byUUID.Some? {
      assert byUUID.value in ByUUID(t, uuid);
    }
    SubsetSize(ByID(t, id), met);
    SubsetSize(ByUUID(t, uuid), met);
    if !manyIDs && !manyUUIDs {
      if byID.Some? && byUUID.Some? && byID != byUUID {
        SubsetSize({byID.value, byUUID.value}, met);
      } else if byID.Some? {
        assert met == {byID.value};
        BindMet(t, id, uuid, userID, keepOwner, source, now, byID.value);
      } else if byUUID.Some? {
        assert met == {byUUID.value};
        BindMet(t, id, uuid, userID, keepOwner, source, now, byUUID.value);
      } else {
        assert met == {};
      }
    }
  }

  predicate Meets(row: Peer, id: string, uuid: string) {
    row.id == id || row.uuid == uuid
  }

  /** A bind goes through exactly when no two rows have the id or the UUID, and the one that has, if
      any, has no other UUID and, unless the report is anonymous, no other owner. */
  lemma BindSucceedsExactly(t: Table, id: string, uuid: string, userID: nat, keepOwner: bool, source: Source, now: int)
    ensures Bind(t, id, uuid, userID, keepOwner, source, now).error.None? <==>
      && (forall a, b | a in t.rows && b in t.rows && Meets(t.rows[a], id, uuid) && Meets(t.rows[b], id, uuid) ::
            a == b)
      && (forall r | r in t.rows && Meets(t.rows[r], id, uuid) ::
            && (t.rows[r].uuid == "" || t.rows[r].uuid == uuid)
            && (t.rows[r].userID == 0 || t.rows[r].userID == userID || keepOwner))
  {
    var met := ByID(t, id) + ByUUID(t, uuid);
    assert forall r :: r in met <==> r in t.rows && Meets(t.rows[r], id, uuid);
    if |met| > 1 {
      var a :| a in met;
      assert |met - {a}| > 0;
      var b :| b in met - {a};
    } else {
      forall a, b | a in met && b in met
        ensures a == b
      {
        OnlyMember(met, a);
      }
    }
  }

  /** The single row a successful bind writes: the one it met, or a new one. */
  lemma BindWrites(t: Table, id: string, uuid: string, userID: nat, keepOwner: bool, source: Source, now: int)
    returns (r: nat)
    requires Claimable(t, id, uuid, userID, keepOwner) && t.next !in t.rows
    ensures ByID(t, id) + ByUUID(t, uuid) == if r in t.rows then {r} else {}
    ensures r !in t.rows ==> r == t.next
    ensures r in t.rows ==> Fits(t.rows[r], uuid, userID, keepOwner)
    ensures var o := Bind(t, id, uuid, userID, keepOwner, source, now);
      && o.error.None? && o.table.rows.Keys == t.rows.Keys + {r}
      && (forall x | x in t.rows && x != r :: o.table.rows[x] == t.rows[x])
      && o.table.rows[r] == Peer(id, uuid, if r in t.rows && keepOwner then t.rows[r].userID else userID, source, now,
                                 if r in t.rows then t.rows[r].inventory else "")
      && o.table.next == if r in t.rows then t.next else t.next + 1
  {
    var met := ByID(t, id) + ByUUID(t, uuid);
    if met == {} {
      r := t.next;
    } else {
      r :| r in met;
      OnlyMember(met, r);
    }
  }

  /** after is t with row r written, and no other row has the written id or UUID. */
  ghost predicate WritesAlone(t: Table, after: Table, r: nat) {
    && after.rows.Keys == t.rows.Keys + {r} && t.next <= after.next && r < after.next
    && (forall x | x in t.rows && x != r :: after.rows[x] == t.rows[x])
    && (forall x | x in t.rows && x != r ::
          t.rows[x].id != after.rows[r].id && t.rows[x].uuid != after.rows[r].uuid)
  }

  lemma BindWritesAlone(t: Table, id: string, uuid: string, userID: nat, keepOwner: bool, source: Source, now: int)
    returns (r: nat)
    requires Unique(t) && Claimable(t, id, uuid, userID, keepOwner)
    ensures var after := Bind(t, id, uuid, userID, keepOwner, source, now).table;
      && WritesAlone(t, after, r)
      && (r in t.rows ==> Fits(t.rows[r], uuid, userID, keepOwner))
      && after.rows[r] == Peer(id, uuid, if r in t.rows && keepOwner then t.rows[r].userID else userID, source, now,
                               if r in t.rows then t.rows[r].inventory else "")
  {
    r := BindWrites(t, id, uuid, userID, keepOwner, source, now);
    forall x | x in t.rows && x != r
      ensures t.rows[x].id != id && t.rows[x].uuid != uuid
    {
      assert x !in ByID(t, id) + ByUUID(t, uuid);
    }
  }

  lemma WritingAloneKeepsUnique(t: Table, after: Table, r: nat)
    requires Unique(t) && WritesAlone(t, after, r)
    ensures Unique(after)
  {
  }

  lemma BindKeepsUnique(t: Table, id: string, uuid: string, userID: nat, keepOwner: bool, source: Source, now: int)
    requires Unique(t) && uuid != ""
    ensures var o := Bind(t, id, uuid, userID, keepOwner, source, now);
      && Unique(o.table) && Established(t, o.table)
      && (o.error.Some? ==> o.table == t)
  {
    if Claimable(t, id, uuid, userID, keepOwner) {
      var r := BindWritesAlone(t, id, uuid, userID, keepOwner, source, now);
      WritingAloneKeepsUnique(t, Bind(t, id, uuid, userID, keepOwner, source, now).table, r);
    }
  }

  /** One row alone carries the id, and the same row alone carries the UUID. */
  ghost predicate BoundTo(t: Table, id: string, uuid: string, r: nat) {
    r in t.rows && ByID(t, id) == {r} && ByUUID(t, uuid) == {r}
  }

  lemma WritingAloneBinds(t: Table, after: Table, r: nat)
    requires WritesAlone(t, after, r)
    ensures BoundTo(after, after.rows[r].id, after.rows[r].uuid, r)
  {
  }

  /** After a bind that succeeds the pair is one row, with the source and, unless anonymous, the owner
      of the claim. */
  lemma BindEstablishes(t: Table, id: string, uuid: string, userID: nat, keepOwner: bool, source: Source, now: int)
    returns (r: nat)
    requires Unique(t) && uuid != "" && Claimable(t, id, uuid, userID, keepOwner)
    ensures var after := Bind(t, id, uuid, userID, keepOwner, source, now).table;
      && BoundTo(after, id, uuid, r) && after.rows[r].source == source
      && (!keepOwner ==> after.rows[r].userID == userID)
  {
    r := BindWritesAlone(t, id, uuid, userID, keepOwner, source, now);
    WritingAloneBinds(t, Bind(t, id, uuid, userID, keepOwner, source, now).table, r);
  }

  /** Binding an established pair again only refreshes its source and time. */
  lemma RebindRefreshes(t: Table, id: string, uuid: string, userID: nat, keepOwner: bool, source: Source, now: int,
                        r: nat)
    requires BoundTo(t, id, uuid, r) && (keepOwner || t.rows[r].userID == userID) && t.next !in t.rows
    ensures Bind(t, id, uuid, userID, keepOwner, source, now)
            == Outcome(t.(rows := t.rows[r := t.rows[r].(source := source, verifiedAt := now)]), None)
  {
    assert ByID(t, id) + ByUUID(t, uuid) == {r};
    assert r in ByID(t, id) && r in ByUUID(t, uuid);
    var same := BindWrites(t, id, uuid, userID, keepOwner, source, now);
    assert same in t.rows && same in {r};
    var o := Bind(t, id, uuid, userID, keepOwner, source, now);
    assert o.table.rows == t.rows[r := t.rows[r].(source := source, verifiedAt := now)];
  }

  /** Migration and login bind alike exactly on normalized, non-empty input. */
  lemma MigratedIsLoginExactlyOnNormalizedInput(deviceID: string, uuid: string, userID: nat, now: int)
    ensures (Normalize(deviceID) == deviceID && deviceID != "" && uuid != "" && userID != 0)
            <==> forall t :: Migrated(t, deviceID, uuid, userID, now) == Login(t, deviceID, uuid, userID, now)
  {
    if !(Normalize(deviceID) == deviceID && deviceID != "" && uuid != "" && userID != 0) {
      var empty := Table(map[], 0);
      assert ByID(empty, deviceID) + ByUUID(empty, uuid) == {};
      assert ByID(empty, Normalize(deviceID)) + ByUUID(empty, uuid) == {};
      assert Migrated(empty, deviceID, uuid, userID, now).table.rows[0].id == deviceID;
      assert Migrated(empty, deviceID, uuid, userID, now) != Login(empty, deviceID, uuid, userID, now);
    }
  }

  datatype Event =
    | Logins(deviceID: string, uuid: string, userID: nat, now: int)
    | Reports(deviceID: string, uuid: string, userID: nat, now: int)
    | Migrates(deviceID: string, uuid: string, userID: nat, now: int)

  ghost function Step(t: Table, e: Event): Table {
    match e
    case Logins(deviceID, uuid, userID, now) => Login(t, deviceID, uuid, userID, now).table
    case Reports(deviceID, uuid, userID, now) => Registry(t, deviceID, uuid, userID, now).table
    case Migrates(deviceID, uuid, userID, now) => Migrated(t, deviceID, uuid, userID, now).table
  }

  ghost function Run(t: Table, events: seq<Event>): Table
    decreases |events|
  {
    if events == [] then t else Step(Run(t, events[..|events| - 1]), events[|events| - 1])
  }

  /** Over any run of binds, ids and UUIDs stay unique, and the row that holds a UUID or an owner holds
      it for good. The migration skips tokens without a UUID. */
  lemma {:induction false} BindingsAreForGood(t: Table, events: seq<Event>)
    requires Unique(t)
    requires forall e | e in events && e.Migrates? :: e.uuid != ""
    ensures Unique(Run(t, events)) && Established(t, Run(t, events))
    decreases |events|
  {
    if events == [] {
    } else {
      var before := Run(t, events[..|events| - 1]);
      BindingsAreForGood(t, events[..|events| - 1]);
      var e := events[|events| - 1];
      var id := if e.Migrates? then e.deviceID else Normalize(e.deviceID);
      if e.uuid != "" {
        BindKeepsUnique(before, id, e.uuid, e.userID, e.Reports? && e.userID == 0,
                        if e.Reports? then StarryRegistry else NativeLogin, e.now);
      }
    }
  }
}

/** The peer service: the same binds as statements on the table. */
module PeerServices {
  import opened Wrappers
  import opened Identities
  import opened PeerBindingSpec

  class PeerService {
    var rows: map<nat, Peer>
    var next: nat

    ghost function Contents(): Table
      reads this
    {
      Table(rows, next)
    }

    constructor (t: Table)
      ensures Contents() == t
    {
      rows, next := t.rows, t.next;
    }

    /** Two rows are enough to know there is more than one. */
    method FindByID(id: string) returns (row: Option<nat>, many: bool)
      ensures many <==> |ByID(Contents(), id)| > 1
      ensures !many ==> ByID(Contents(), id) == if row.Some? then {row.value} else {}
    {
      var found := set r | r in rows && rows[r].id == id;
      assert found == ByID(Contents(), id);
      row, many := None, |found| > 1;
      if |found| == 1 {
        var r :| r in found;
        OnlyMember(found, r);
        row := Some(r);
      }
    }

    method FindByUUID(uuid: string) returns (row: Option<nat>, many: bool)
      ensures many <==> |ByUUID(Contents(), uuid)| > 1
      ensures !many ==> ByUUID(Contents(), uuid) == if row.Some? then {row.value} else {}
    {
      var found := set r | r in rows && rows[r].uuid == uuid;
      assert found == ByUUID(Contents(), uuid);
      row, many := None, |found| > 1;
      if |found| == 1 {
        var r :| r in found;
        OnlyMember(found, r);
        row := Some(r);
      }
    }

    method BindLoginIdentity(deviceID: string, uuid: string, userID: nat, now: int) returns (e: Option<Error>)
      requires next !in rows
      modifies this
      ensures Outcome(Contents(), e) == Login(old(Contents()), deviceID, uuid, userID, now)
      ensures Normalize(deviceID) == "" || uuid == "" || userID == 0 ==> e.None? && Contents() == old(Contents())
    {
      var id := Normalize(deviceID);
      if id == "" || uuid == "" || userID == 0 {
        return None;
      }
      var byID, manyIDs := FindByID(id);
      var byUUID, manyUUIDs := FindByUUID(uuid);
      FoundRows(Contents(), id, uuid, userID, false, NativeLogin, now, byID, manyIDs, byUUID, manyUUIDs);
      if manyIDs || manyUUIDs {
        return Some(IdentityConflict);
      }
      if byID.Some? {
        var row := rows[byID.value];
        if row.uuid != "" && row.uuid != uuid {
          return Some(IdentityConflict);
        }
        if row.userID != 0 && row.userID != userID {
          return Some(IdentityConflict);
        }
        if byUUID.Some? && byUUID != byID {
          return Some(IdentityConflict);
        }
        rows := rows[byID.value := row.(uuid := uuid, userID := userID, source := NativeLogin, verifiedAt := now)];
        return None;
      }
      if byUUID.Some? {
        var row := rows[byUUID.value];
        if row.userID != 0 && row.userID != userID {
          return Some(IdentityConflict);
        }
        rows := rows[byUUID.value := row.(id := id, userID := userID, source := NativeLogin, verifiedAt := now)];
        return None;
      }
      rows := rows[next := Peer(id, uuid, userID, NativeLogin, now, "")];
      next := next + 1;
      e := None;
    }

    method BindRegistryIdentity(deviceID: string, uuid: string, userID: nat, now: int) returns (e: Option<Error>)
      requires next !in rows
      modifies this
      ensures Outcome(Contents(), e) == Registry(old(Contents()), deviceID, uuid, userID, now)
      ensures e == Some(IdentityUnverified) <==> Normalize(deviceID) == "" || uuid == ""
    {
      var id := Normalize(deviceID);
      if id == "" || uuid == "" {
        return Some(IdentityUnverified);
      }
      var byID, manyIDs := FindByID(id);
      var byUUID, manyUUIDs := FindByUUID(uuid);
      FoundRows(Contents(), id, uuid, userID, userID == 0, StarryRegistry, now, byID, manyIDs, byUUID, manyUUIDs);
      if manyIDs || manyUUIDs {
        return Some(IdentityConflict);
      }
      if byID.Some? {
        var row := rows[byID.value];
        if byUUID.Some? && byUUID != byID {
          return Some(IdentityConflict);
        }
        if row.uuid != "" && row.uuid != uuid {
          return Some(IdentityConflict);
        }
        if row.userID != 0 && userID != 0 && row.userID != userID {
          return Some(IdentityConflict);
        }
        var updated := row.(uuid := uuid, source := StarryRegistry, verifiedAt := now);
        if userID > 0 {
          updated := updated.(userID := userID);
        }
        rows := rows[byID.value := updated];
        return None;
      }
      if byUUID.Some? {
        var row := rows[byUUID.value];
        if row.userID != 0 && userID != 0 && row.userID != userID {
          return Some(IdentityConflict);
        }
        var updated := row.(id := id, source := StarryRegistry, verifiedAt := now);
        if userID > 0 {
          updated := updated.(userID := userID);
        }
        rows := rows[byUUID.value := updated];
        return None;
      }
      rows := rows[next := Peer(id, uuid, userID, StarryRegistry, now, "")];
      next := next + 1;
      e := None;
    }

    method bindMigratedNativePeer(deviceID: string, uuid: string, userID: nat, now: int) returns (e: Option<Error>)
      requires next !in rows
      modifies this
      ensures Outcome(Contents(), e) == Migrated(old(Contents()), deviceID, uuid, userID, now)
    {
      var byID, manyIDs := FindByID(deviceID);
      var byUUID, manyUUIDs := FindByUUID(uuid);
      FoundRows(Contents(), deviceID, uuid, userID, false, NativeLogin, now, byID, manyIDs, byUUID, manyUUIDs);
      if manyIDs || manyUUIDs {
        return Some(IdentityConflict);
      }
      if byID.Some? {
        var row := rows[byID.value];
        if (row.uuid != "" && row.uuid != uuid) || (row.userID != 0 && row.userID != userID)
           || (byUUID.Some? && byUUID != byID) {
          return Some(IdentityConflict);
        }
        rows := rows[byID.value := row.(uuid := uuid, userID := userID, source := NativeLogin, verifiedAt := now)];
        return None;
      }
      if byUUID.Some? {
        var row := rows[byUUID.value];
        if row.userID != 0 && row.userID != userID {
          return Some(IdentityConflict);
        }
        rows := rows[byUUID.value := row.(id := deviceID, userID := userID, source := NativeLogin, verifiedAt := now)];
        return None;
      }
      rows := rows[next := Peer(deviceID, uuid, userID, NativeLogin, now, "")];
      next := next + 1;
      e := None;
    }
  }
}
