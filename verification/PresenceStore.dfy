/** The peer and lease tables behind Presence Lease v2, and the four requests that change
    them. Each method is one transaction under the peer's lock; the clock, the random
    credentials and the client address are arguments. */
module PresenceStores {
  import opened Wrappers
  import opened Base64
  import opened PresenceSpec

  datatype Error =
    | IdentityUnverified
    | ActivationInvalid
    | ActivationStale
    | LeaseInvalid
    | LeaseExpired
    | CreateFailed

  /** SHA-256 as an injective function of the token. */
  datatype Digest = Sha256(text: string)

  datatype Peer = Peer(
    id: string, uuid: string,
    lastOnlineTime: int, lastOnlineIP: string,
    activationEpoch: nat, activationID: string, activationRetired: bool,
    onlineUntil: int, v2SeenAt: int)

  datatype Lease = Lease(
    peerRowID: nat, networkIdentityUUID: string,
    activationEpoch: nat, activationID: string,
    tokenHash: Digest,
    startedAt: int, renewedAt: int, expiresAt: int, endedAt: int,
    lastOnlineIP: string)

  /** The identity columns a caller presents. */
  datatype PeerKey = PeerKey(rowID: nat, id: string, uuid: string)

  datatype Grant = Grant(epoch: nat, activationID: string, leaseID: string, expiresAt: int, onlineUntil: int)

  const MAX_INT64: nat := 0x7fff_ffff_ffff_ffff

  predicate ValidActivation(epoch: nat, id: string) {
    0 < epoch <= MAX_INT64 && |id| <= 128 && Canonical(StdEncoding, id, 16)
  }

  predicate ValidToken(token: string) {
    Canonical(RawURLEncoding, token, 32)
  }

  predicate ValidLeaseID(id: string) {
    Canonical(RawURLEncoding, id, 16)
  }

  lemma ValidActivationIsNotEmpty(epoch: nat, id: string)
    requires ValidActivation(epoch, id)
    ensures epoch > 0 && id != ""
  {
    assert Unwrapped("") == "";
  }

  function IsOnlineAt(peer: Peer, now: int): bool {
    if peer.onlineUntil > now then true
    else if peer.v2SeenAt > 0 && now - peer.v2SeenAt <= LEGACY_FALLBACK_AFTER then false
    else peer.lastOnlineTime > now - 60
  }

  function RegisterOf(p: Peer): Register {
    Register(p.activationEpoch, p.activationID, p.activationRetired)
  }

  function Live(leases: map<string, Lease>, row: nat): map<string, int> {
    map l | l in leases && leases[l].peerRowID == row && leases[l].endedAt == 0 :: leases[l].expiresAt
  }

  function PresenceOf(p: Peer, row: nat, leases: map<string, Lease>): Presence {
    Presence(RegisterOf(p), Live(leases, row))
  }

  /** Un-ended leases of a row belong to its current, un-retired activation. */
  ghost predicate LeasesAreCurrent(p: Peer, row: nat, leases: map<string, Lease>) {
    forall l :: l in leases && leases[l].peerRowID == row && leases[l].endedAt == 0 ==>
      && leases[l].networkIdentityUUID == p.uuid
      && Current(RegisterOf(p), leases[l].activationEpoch, leases[l].activationID)
      && !p.activationRetired
  }

  /** The cached scalar answers for the leases, from the last transaction on. */
  ghost predicate ScalarIsAggregate(p: Peer, row: nat, leases: map<string, Lease>, clock: int) {
    forall t :: clock <= t ==> (p.onlineUntil > t <==> OnlineAt(PresenceOf(p, row, leases), t))
  }

  /** What every transaction keeps about one row, once the clock has reached the given instant. */
  ghost predicate RowValid(p: Peer, row: nat, leases: map<string, Lease>, clock: int) {
    && (p.activationEpoch == 0 <==> p.activationID == "")
    && p.lastOnlineTime <= clock
    && LeasesAreCurrent(p, row, leases)
    && (p.activationEpoch > 0 ==>
          && 0 < p.v2SeenAt
          && p.lastOnlineTime <= p.v2SeenAt
          && ScalarIsAggregate(p, row, leases, clock))
  }

  ghost predicate TokensUnique(leases: map<string, Lease>) {
    forall l, m :: l in leases && m in leases && leases[l].tokenHash == leases[m].tokenHash ==> l == m
  }

  /** Once the device has used v2, it is online exactly while some un-ended lease has not expired:
      the cached scalar and the two fallback windows never say otherwise. */
  lemma OnlineExactlyWhileLeased(p: Peer, row: nat, leases: map<string, Lease>, clock: int, t: int)
    requires RowValid(p, row, leases, clock) && p.activationEpoch > 0 && clock <= t
    ensures IsOnlineAt(p, t) <==> OnlineAt(PresenceOf(p, row, leases), t)
    ensures IsOnlineAt(p, t) <==>
      exists l :: l in leases && leases[l].peerRowID == row && leases[l].endedAt == 0 && leases[l].expiresAt > t
        && Current(RegisterOf(p), leases[l].activationEpoch, leases[l].activationID)
  {
    var live := PresenceOf(p, row, leases).live;
    if OnlineAt(PresenceOf(p, row, leases), t) {
      var l :| l in live && live[l] > t;
      assert l in leases;
    }
    forall l | l in leases && leases[l].peerRowID == row && leases[l].endedAt == 0 && leases[l].expiresAt > t
      ensures OnlineAt(PresenceOf(p, row, leases), t)
    {
      assert l in live;
    }
  }

  /** So a request that leaves a device's presence as it was, whatever it writes to the cached
      columns, leaves every later answer as it was. */
  lemma SamePresenceSameAnswers(p: Peer, q: Peer, row: nat, before: map<string, Lease>, after: map<string, Lease>,
                                clock: int, now: int, t: int)
    requires RowValid(p, row, before, clock) && RowValid(q, row, after, now) && p.activationEpoch > 0
    requires PresenceOf(p, row, before) == PresenceOf(q, row, after) && clock <= t && now <= t
    ensures IsOnlineAt(p, t) == IsOnlineAt(q, t)
  {
    assert RegisterOf(p) == PresenceOf(p, row, before).register == RegisterOf(q);
    OnlineExactlyWhileLeased(p, row, before, clock, t);
    OnlineExactlyWhileLeased(q, row, after, now, t);
  }

  /** An instant at which the v2 window has closed but the legacy column still says online. */
  predicate FallsInGap(seen: int, last: int, t: int, fallbackAfter: int, legacyWindow: int) {
    0 < seen && last <= seen && t - seen > fallbackAfter && last > t - legacyWindow
  }

  /** The answer without a live lease, in seconds: a device that never used v2 is online for 60 seconds
      after its last heartbeat, one that did not for 90 seconds after v2 was seen. */
  lemma LegacyAnswer(p: Peer, now: int)
    requires p.onlineUntil <= now
    ensures p.v2SeenAt == 0 ==> (IsOnlineAt(p, now) <==> now < p.lastOnlineTime + 60)
    ensures p.v2SeenAt > 0 && now <= p.v2SeenAt + 90 ==> !IsOnlineAt(p, now)
    ensures p.v2SeenAt > 0 && now > p.v2SeenAt + 90 ==> (IsOnlineAt(p, now) <==> now < p.lastOnlineTime + 60)
  {
  }

  /** Two fallback windows leave no gap exactly when the legacy one is at most a second longer. */
  lemma FallbackWindowsLeaveNoGap(fallbackAfter: int, legacyWindow: int)
    ensures (forall seen, last, t :: !FallsInGap(seen, last, t, fallbackAfter, legacyWindow))
      <==> legacyWindow <= fallbackAfter + 1
  {
    if legacyWindow > fallbackAfter + 1 {
      assert FallsInGap(1, 1, 1 + fallbackAfter + 1, fallbackAfter, legacyWindow);
    }
  }

  // ---------- rows a transaction does not touch ----------

  ghost predicate SameLeasesOf(row: nat, before: map<string, Lease>, after: map<string, Lease>) {
    && (forall l :: l in before && before[l].peerRowID == row ==> l in after && after[l] == before[l])
    && (forall l :: l in after && after[l].peerRowID == row ==> l in before && before[l].peerRowID == row)
  }

  lemma UntouchedRow(p: Peer, row: nat, before: map<string, Lease>, after: map<string, Lease>, clock: int, now: int)
    requires RowValid(p, row, before, clock) && clock <= now && SameLeasesOf(row, before, after)
    ensures RowValid(p, row, after, now) && PresenceOf(p, row, after) == PresenceOf(p, row, before)
  {
    assert Live(after, row) == Live(before, row);
    forall t | now <= t && p.activationEpoch > 0
      ensures p.onlineUntil > t <==> OnlineAt(PresenceOf(p, row, after), t)
    {
      assert p.onlineUntil > t <==> OnlineAt(PresenceOf(p, row, before), t);
    }
  }

  /** UPDATE ... SET ended_at = now on every un-ended lease of one peer. */
  function EndAll(leases: map<string, Lease>, row: nat, now: int): map<string, Lease> {
    map l | l in leases ::
      if leases[l].peerRowID == row && leases[l].endedAt == 0 then leases[l].(endedAt := now) else leases[l]
  }

  lemma EndAllEnds(leases: map<string, Lease>, row: nat, now: int)
    requires 0 < now
    ensures Live(EndAll(leases, row, now), row) == map[]
    ensures TokensUnique(leases) ==> TokensUnique(EndAll(leases, row, now))
    ensures forall other :: other != row ==> SameLeasesOf(other, leases, EndAll(leases, row, now))
  {
  }

  /** A higher epoch ends every lease of the activation before it. */
  function Kept(leases: map<string, Lease>, p: Peer, row: nat, epoch: nat, now: int): map<string, Lease> {
    if epoch > p.activationEpoch then EndAll(leases, row, now) else leases
  }

  function Activated(p: Peer, epoch: nat, id: string, retired: bool): Peer {
    p.(activationEpoch := epoch, activationID := id, activationRetired := retired)
  }

  lemma KeptTable(leases: map<string, Lease>, p: Peer, row: nat, epoch: nat, id: string, now: int)
    requires 0 < now && LeasesAreCurrent(p, row, leases) && TokensUnique(leases) && 0 < epoch
    requires p.activationEpoch == 0 <==> p.activationID == ""
    requires !StartRefused(RegisterOf(p), epoch, id)
    ensures var kept := Kept(leases, p, row, epoch, now);
      && kept.Keys == leases.Keys && (forall l :: l in kept ==> kept[l].tokenHash == leases[l].tokenHash)
      && TokensUnique(kept) && LeasesAreCurrent(Activated(p, epoch, id, false), row, kept)
      && Live(kept, row) == (if epoch > p.activationEpoch then map[] else Live(leases, row))
      && (forall other :: other != row ==> SameLeasesOf(other, leases, kept))
  {
    if epoch > p.activationEpoch {
      EndAllEnds(leases, row, now);
      var kept := EndAll(leases, row, now);
      forall l | l in kept
        ensures kept[l].peerRowID != row || kept[l].endedAt != 0
      {
        assert l !in Live(kept, row);
      }
    }
  }

  lemma Inserted(leases: map<string, Lease>, q: Peer, row: nat, leaseID: string, lease: Lease)
    requires LeasesAreCurrent(q, row, leases) && TokensUnique(leases) && !q.activationRetired
    requires leaseID !in leases && forall l :: l in leases ==> leases[l].tokenHash != lease.tokenHash
    requires lease.peerRowID == row && lease.endedAt == 0 && lease.networkIdentityUUID == q.uuid
    requires Current(RegisterOf(q), lease.activationEpoch, lease.activationID)
    ensures var after := leases[leaseID := lease];
      && TokensUnique(after) && LeasesAreCurrent(q, row, after)
      && Live(after, row) == Live(leases, row)[leaseID := lease.expiresAt]
      && (forall other :: other != row ==> SameLeasesOf(other, leases, after))
  {
  }

  /** The lease table after an accepted Start. */
  function Started(leases: map<string, Lease>, p: Peer, row: nat, leaseID: string, lease: Lease, now: int):
    map<string, Lease>
  {
    Kept(leases, p, row, lease.activationEpoch, now)[leaseID := lease]
  }

  lemma StartedTable(leases: map<string, Lease>, p: Peer, row: nat, leaseID: string, lease: Lease, now: int)
    requires 0 < now && LeasesAreCurrent(p, row, leases) && TokensUnique(leases)
    requires p.activationEpoch == 0 <==> p.activationID == ""
    requires leaseID !in leases && forall l :: l in leases ==> leases[l].tokenHash != lease.tokenHash
    requires lease.peerRowID == row && lease.endedAt == 0 && lease.networkIdentityUUID == p.uuid
    requires lease.activationEpoch > 0 && lease.expiresAt == now + LEASE_TTL
    requires !StartRefused(RegisterOf(p), lease.activationEpoch, lease.activationID)
    ensures var after := Started(leases, p, row, leaseID, lease, now);
      var q := Activated(p, lease.activationEpoch, lease.activationID, false);
      && TokensUnique(after) && LeasesAreCurrent(q, row, after)
      && PresenceOf(q, row, after) ==
         Start(PresenceOf(p, row, leases), lease.activationEpoch, lease.activationID, leaseID, now)
      && (forall other :: other != row ==> SameLeasesOf(other, leases, after))
  {
    var q := Activated(p, lease.activationEpoch, lease.activationID, false);
    var kept := Kept(leases, p, row, lease.activationEpoch, now);
    KeptTable(leases, p, row, lease.activationEpoch, lease.activationID, now);
    Inserted(kept, q, row, leaseID, lease);
    var after := kept[leaseID := lease];
    forall other | other != row
      ensures SameLeasesOf(other, leases, after)
    {
      assert SameLeasesOf(other, leases, kept) && SameLeasesOf(other, kept, after);
    }
  }

  /** Rewriting one un-ended lease in place, its identity and token kept. */
  lemma RewrittenTable(leases: map<string, Lease>, p: Peer, row: nat, l: string, lease: Lease)
    requires TokensUnique(leases) && LeasesAreCurrent(p, row, leases)
    requires l in leases && leases[l].peerRowID == row && leases[l].endedAt == 0
    requires lease == leases[l].(
      renewedAt := lease.renewedAt, expiresAt := lease.expiresAt, lastOnlineIP := lease.lastOnlineIP)
    ensures var after := leases[l := lease];
      && TokensUnique(after) && LeasesAreCurrent(p, row, after)
      && Live(after, row) == Live(leases, row)[l := lease.expiresAt]
      && (forall other :: other != row ==> SameLeasesOf(other, leases, after))
  {
  }

  /** Ending one lease, whether or not it has ended already. */
  function Ended(leases: map<string, Lease>, l: string, now: int): map<string, Lease>
    requires l in leases
  {
    if leases[l].endedAt == 0 then leases[l := leases[l].(endedAt := now)] else leases
  }

  lemma EndedTable(leases: map<string, Lease>, p: Peer, row: nat, l: string, now: int)
    requires 0 < now && TokensUnique(leases) && LeasesAreCurrent(p, row, leases)
    requires l in leases && leases[l].peerRowID == row
    ensures TokensUnique(Ended(leases, l, now)) && LeasesAreCurrent(p, row, Ended(leases, l, now))
    ensures forall other :: other != row ==> SameLeasesOf(other, leases, Ended(leases, l, now))
    ensures Live(Ended(leases, l, now), row) == Live(leases, row) - {l}
  {
    if leases[l].endedAt == 0 {
      ClosedTable(leases, p, row, l, now);
    } else {
      assert l !in Live(leases, row);
    }
  }

  lemma ClosedTable(leases: map<string, Lease>, p: Peer, row: nat, l: string, now: int)
    requires 0 < now && TokensUnique(leases) && LeasesAreCurrent(p, row, leases)
    requires l in leases && leases[l].peerRowID == row && leases[l].endedAt == 0
    ensures var after := leases[l := leases[l].(endedAt := now)];
      && TokensUnique(after) && LeasesAreCurrent(p, row, after)
      && Live(after, row) == Live(leases, row) - {l}
      && (forall other :: other != row ==> SameLeasesOf(other, leases, after))
  {
  }

  /** A lease of an activation that is no longer current is not live. */
  lemma OldLeasesAreNotLive(leases: map<string, Lease>, p: Peer, row: nat, l: string)
    requires LeasesAreCurrent(p, row, leases) && l in leases
    requires !Current(RegisterOf(p), leases[l].activationEpoch, leases[l].activationID)
    ensures Live(leases, row) - {l} == Live(leases, row)
  {
  }

  lemma RetiredTable(leases: map<string, Lease>, p: Peer, row: nat, epoch: nat, id: string, now: int)
    requires 0 < now && TokensUnique(leases) && !Stale(RegisterOf(p), epoch, id)
    ensures var q, after := Activated(p, epoch, id, true), EndAll(leases, row, now);
      && TokensUnique(after) && LeasesAreCurrent(q, row, after)
      && PresenceOf(q, row, after) == Deactivate(PresenceOf(p, row, leases), epoch, id)
      && (forall other :: other != row ==> SameLeasesOf(other, leases, after))
  {
    EndAllEnds(leases, row, now);
    var after := EndAll(leases, row, now);
    assert forall l :: l in after ==> l !in Live(after, row);
  }

  class PresenceStore {
    var peers: map<nat, Peer>
    var leases: map<string, Lease>  // by lease id

    /** The latest instant a transaction has run at. */
    ghost var clock: int

    ghost predicate Valid()
      reads this
    {
      && TokensUnique(leases)
      && (forall row :: row in peers ==> RowValid(peers[row], row, leases, clock))
    }

    ghost function PresenceAt(row: nat): Presence
      requires row in peers
      reads this
    {
      PresenceOf(peers[row], row, leases)
    }

    /** Other peers, and the leases of other peers, are as they were. */
    twostate predicate OnlyTouches(row: nat)
      reads this
    {
      && peers.Keys == old(peers.Keys)
      && (row in peers ==> peers[row].id == old(peers[row].id) && peers[row].uuid == old(peers[row].uuid))
      && (forall other :: other in peers && other != row ==>
            peers[other] == old(peers[other]) && SameLeasesOf(other, old(leases), leases))
    }

    twostate predicate Unchanged()
      reads this
    {
      peers == old(peers) && leases == old(leases)
    }

    constructor (rows: map<nat, Peer>, at: int)
      requires forall row :: row in rows ==>
        rows[row].activationEpoch == 0 && rows[row].activationID == "" && rows[row].lastOnlineTime <= at
      ensures Valid() && peers == rows && leases == map[]
    {
      peers, leases, clock := rows, map[], at;
    }

    /** lockPresencePeer finds the row by all three identity columns. */
    predicate Locks(key: PeerKey)
      reads this
    {
      key.rowID in peers && peers[key.rowID].id == key.id && peers[key.rowID].uuid == key.uuid
    }

    predicate Counts(l: string, row: nat, current: Peer, now: int)
      requires l in leases
      reads this
    {
      && leases[l].peerRowID == row && leases[l].networkIdentityUUID == current.uuid
      && leases[l].activationEpoch == current.activationEpoch && leases[l].activationID == current.activationID
      && leases[l].endedAt == 0 && leases[l].expiresAt > now
    }

    /** MAX(expires_at) over the current activation's un-ended, unexpired leases; 0 when there is none. */
    method activePresenceUntil(row: nat, current: Peer, now: int) returns (until: int)
      ensures forall l :: l in leases && Counts(l, row, current, now) ==> leases[l].expiresAt <= until
      ensures until == 0 || exists l :: l in leases && Counts(l, row, current, now) && leases[l].expiresAt == until
    {
      until := 0;
      var found := false;
      var rest := leases.Keys;
      while rest != {}
        invariant rest <= leases.Keys
        invariant forall l :: l in leases && l !in rest && Counts(l, row, current, now) ==>
          found && leases[l].expiresAt <= until
        invariant if found then exists l :: l in leases && Counts(l, row, current, now) && leases[l].expiresAt == until
                  else until == 0
        decreases rest
      {
        var l :| l in rest;
        if Counts(l, row, current, now) && (!found || leases[l].expiresAt > until) {
          found, until := true, leases[l].expiresAt;
        }
        rest := rest - {l};
      }
    }

    /** The scalar just computed is the aggregate from now on. */
    lemma AggregateFrom(row: nat, current: Peer, now: int)
      requires LeasesAreCurrent(current, row, leases) && 0 < now
      requires forall l :: l in leases && Counts(l, row, current, now) ==> leases[l].expiresAt <= current.onlineUntil
      requires current.onlineUntil == 0 ||
        exists l :: l in leases && Counts(l, row, current, now) && leases[l].expiresAt == current.onlineUntil
      ensures ScalarIsAggregate(current, row, leases, now)
    {
      var live := Live(leases, row);
      forall t | now <= t
        ensures current.onlineUntil > t <==> OnlineAt(PresenceOf(current, row, leases), t)
      {
        if current.onlineUntil > t {
          var l :| l in leases && Counts(l, row, current, now) && leases[l].expiresAt == current.onlineUntil;
          assert l in live;
        }
        if OnlineAt(PresenceOf(current, row, leases), t) {
          var l :| l in live && live[l] > t;
          assert Counts(l, row, current, now);
        }
      }
    }

    static function UpdatedPeer(current: Peer, clientIP: string, now: int, onlineUntil: int,
                                markV2Seen: bool, touchLastOnline: bool): Peer
    {
      var touch := touchLastOnline &&
                   (current.lastOnlineTime == 0 || now - current.lastOnlineTime >= LAST_ONLINE_INTERVAL);
      current.(
        onlineUntil := onlineUntil,
        v2SeenAt := if markV2Seen then now else current.v2SeenAt,
        lastOnlineTime := if touch then now else current.lastOnlineTime,
        lastOnlineIP := if touch then clientIP else current.lastOnlineIP)
    }

    /** presenceLeaseQuery: the lease that carries the token, of the named activation and, if given, the named id. */
    predicate Selects(l: string, key: PeerKey, epoch: nat, activationID: string, leaseID: string, token: string)
      requires l in leases
      reads this
    {
      && leases[l].peerRowID == key.rowID && leases[l].networkIdentityUUID == key.uuid
      && leases[l].activationEpoch == epoch && leases[l].activationID == activationID
      && leases[l].tokenHash == Sha256(token)
      && (leaseID == "" || leaseID == l)
    }

    method FindLease(key: PeerKey, epoch: nat, activationID: string, leaseID: string, token: string)
      returns (found: Option<string>)
      ensures found.Some? ==> found.value in leases && Selects(found.value, key, epoch, activationID, leaseID, token)
      ensures found.None? ==> forall l :: l in leases ==> !Selects(l, key, epoch, activationID, leaseID, token)
    {
      var rest := leases.Keys;
      while rest != {}
        invariant rest <= leases.Keys
        invariant forall l :: l in leases && l !in rest ==> !Selects(l, key, epoch, activationID, leaseID, token)
        decreases rest
      {
        var l :| l in rest;
        if Selects(l, key, epoch, activationID, leaseID, token) {
          return Some(l);
        }
        rest := rest - {l};
      }
      found := None;
    }

    /** The tail of Start, Renew and End: recompute the scalar and write the peer row. */
    method Settle(row: nat, current: Peer, clientIP: string, now: int, markV2Seen: bool, touchLastOnline: bool,
                  ghost before: map<string, Lease>)
      returns (until: int)
      requires row in peers && 0 < now && clock <= now
      requires TokensUnique(leases) && LeasesAreCurrent(current, row, leases)
      requires current.lastOnlineTime <= now && (current.activationEpoch == 0 <==> current.activationID == "")
      requires markV2Seen ||
        (!touchLastOnline && (current.activationEpoch > 0 ==>
                                0 < current.v2SeenAt && current.lastOnlineTime <= current.v2SeenAt))
      requires forall other :: other in peers && other != row ==>
        RowValid(peers[other], other, before, clock) && SameLeasesOf(other, before, leases)
      modifies this`peers, this`clock
      ensures Valid() && clock == now
      ensures row in peers && peers == old(peers)[row := peers[row]]
      ensures peers[row].onlineUntil == until && RegisterOf(peers[row]) == RegisterOf(current)
      ensures peers[row] == UpdatedPeer(current, clientIP, now, until, markV2Seen, touchLastOnline)
    {
      until := activePresenceUntil(row, current, now);
      peers := peers[row := UpdatedPeer(current, clientIP, now, until, markV2Seen, touchLastOnline)];
      AggregateFrom(row, peers[row], now);
      OthersStayValid(row, before, now);
      clock := now;
    }

    /** The tail of Deactivate: every lease has ended, so the scalar is zero. */
    method Retire(row: nat, current: Peer, clientIP: string, now: int, ghost before: map<string, Lease>)
      requires row in peers && 0 < now && clock <= now
      requires TokensUnique(leases) && LeasesAreCurrent(current, row, leases) && current.activationRetired
      requires current.lastOnlineTime <= now && (current.activationEpoch == 0 <==> current.activationID == "")
      requires forall other :: other in peers && other != row ==>
        RowValid(peers[other], other, before, clock) && SameLeasesOf(other, before, leases)
      modifies this`peers, this`clock
      ensures Valid() && clock == now
      ensures row in peers && peers == old(peers)[row := peers[row]]
      ensures peers[row].onlineUntil == 0 && RegisterOf(peers[row]) == RegisterOf(current)
      ensures peers[row] == UpdatedPeer(current, clientIP, now, 0, true, false)
    {
      peers := peers[row := UpdatedPeer(current, clientIP, now, 0, true, false)];
      AggregateFrom(row, peers[row], now);
      OthersStayValid(row, before, now);
      clock := now;
    }

    /** Rows whose leases were left alone stay valid as the clock moves on. */
    lemma OthersStayValid(row: nat, before: map<string, Lease>, now: int)
      requires clock <= now
      requires forall other :: other in peers && other != row ==>
        RowValid(peers[other], other, before, clock) && SameLeasesOf(other, before, leases)
      ensures forall other :: other in peers && other != row ==> RowValid(peers[other], other, leases, now)
    {
      forall other | other in peers && other != row
        ensures RowValid(peers[other], other, leases, now)
      {
        UntouchedRow(peers[other], other, before, leases, clock, now);
      }
    }

    /** The cached scalar reaches at least as far as each live lease. */
    lemma ScalarReaches(row: nat, l: string)
      requires Valid() && row in peers && peers[row].activationEpoch > 0
      requires l in leases && leases[l].peerRowID == row && leases[l].endedAt == 0 && leases[l].expiresAt > clock
      ensures peers[row].onlineUntil >= leases[l].expiresAt
    {
      var t := leases[l].expiresAt - 1;
      assert l in PresenceOf(peers[row], row, leases).live;
      assert OnlineAt(PresenceOf(peers[row], row, leases), t);
    }

    /** What a heartbeat writes to the columns of the legacy online answer: the last-online time and
        address at most every 30 seconds, and that v2 was seen. */
    twostate predicate Seen(row: nat, clientIP: string, now: int)
      requires row in old(peers) && row in peers
      reads this
    {
      var was, after := old(peers)[row], peers[row];
      && after.v2SeenAt == now
      && if was.lastOnlineTime == 0 || now - was.lastOnlineTime >= 30
         then after.lastOnlineTime == now && after.lastOnlineIP == clientIP
         else after.lastOnlineTime == was.lastOnlineTime && after.lastOnlineIP == was.lastOnlineIP
    }

    method StartPresenceLease(key: PeerKey, epoch: nat, activationID: string, clientIP: string,
                              leaseID: string, leaseToken: string, now: int)
      returns (r: Result<Grant, Error>)
      requires Valid() && clock <= now && 0 < now
      modifies this
      ensures Valid() && clock <= now && OnlyTouches(key.rowID)
      ensures r.Err? ==> Unchanged()
      ensures r.Ok? <==>
        && key.rowID != 0 && ValidActivation(epoch, activationID) && old(Locks(key))
        && !StartRefused(old(PresenceAt(key.rowID)).register, epoch, activationID)
        && leaseID !in old(leases)
        && (forall l :: l in old(leases) ==> old(leases)[l].tokenHash != Sha256(leaseToken))
      ensures r == Err(ActivationStale) <==>
        && key.rowID != 0 && ValidActivation(epoch, activationID) && old(Locks(key))
        && StartRefused(old(PresenceAt(key.rowID)).register, epoch, activationID)
      ensures r.Ok? ==>
        && PresenceAt(key.rowID) == Start(old(PresenceAt(key.rowID)), epoch, activationID, leaseID, now)
        && r.value == Grant(epoch, activationID, leaseID, now + 45, peers[key.rowID].onlineUntil)
      ensures r.Ok? ==>
        && leaseID in leases && leases[leaseID].expiresAt == now + 45 <= peers[key.rowID].onlineUntil
        && leases[leaseID].tokenHash == Sha256(leaseToken) && leases[leaseID].peerRowID == key.rowID
        && leases[leaseID].activationEpoch == epoch && leases[leaseID].activationID == activationID
        && Seen(key.rowID, clientIP, now)
    {
      if key.rowID == 0 {
        return Err(IdentityUnverified);
      }
      if !ValidActivation(epoch, activationID) {
        return Err(ActivationInvalid);
      }
      if !Locks(key) {
        return Err(IdentityUnverified);
      }
      var row, current := key.rowID, peers[key.rowID];
      if current.activationEpoch > epoch ||
         (current.activationEpoch == epoch && current.activationID != "" && current.activationID != activationID) {
        return Err(ActivationStale);
      }
      if current.activationEpoch == epoch && current.activationID == activationID && current.activationRetired {
        return Err(ActivationStale);
      }
      if leaseID in leases || exists l :: l in leases && leases[l].tokenHash == Sha256(leaseToken) {
        return Err(CreateFailed);
      }
      ValidActivationIsNotEmpty(epoch, activationID);
      var lease := Lease(row, current.uuid, epoch, activationID, Sha256(leaseToken), now, now, now + LEASE_TTL, 0,
                         clientIP);
      StartedTable(leases, current, row, leaseID, lease, now);
      leases := Started(leases, current, row, leaseID, lease, now);
      current := Activated(current, epoch, activationID, false);
      var until := Settle(row, current, clientIP, now, true, true, old(leases));
      ScalarReaches(row, leaseID);
      r := Ok(Grant(epoch, activationID, leaseID, now + LEASE_TTL, until));
    }

    predicate Presented(key: PeerKey, epoch: nat, activationID: string, leaseID: string, token: string) {
      && key.rowID != 0 && ValidActivation(epoch, activationID)
      && ValidToken(token) && (leaseID == "" || ValidLeaseID(leaseID))
    }

    /** The checks Renew and End make, in their order, before they look for the lease. */
    method Refuse(key: PeerKey, epoch: nat, activationID: string, leaseID: string, leaseToken: string)
      returns (e: Option<Error>)
      ensures e.None? <==> Presented(key, epoch, activationID, leaseID, leaseToken) && Locks(key)
      ensures key.rowID != 0 && !ValidActivation(epoch, activationID) <==> e == Some(ActivationInvalid)
      ensures e.Some? && key.rowID != 0 && ValidActivation(epoch, activationID) ==>
        e.value == if Presented(key, epoch, activationID, leaseID, leaseToken) then IdentityUnverified else LeaseInvalid
    {
      if key.rowID == 0 {
        return Some(IdentityUnverified);
      }
      if !ValidActivation(epoch, activationID) {
        return Some(ActivationInvalid);
      }
      if !ValidToken(leaseToken) || (leaseID != "" && !ValidLeaseID(leaseID)) {
        return Some(LeaseInvalid);
      }
      if !Locks(key) {
        return Some(IdentityUnverified);
      }
      e := None;
    }

    method RenewPresenceLease(key: PeerKey, epoch: nat, activationID: string, leaseID: string, leaseToken: string,
                              clientIP: string, now: int)
      returns (r: Result<Grant, Error>)
      requires Valid() && clock <= now && 0 < now
      modifies this
      ensures Valid() && clock <= now && OnlyTouches(key.rowID)
      ensures r.Err? ==> Unchanged()
      ensures r.Ok? <==>
        && Presented(key, epoch, activationID, leaseID, leaseToken) && old(Locks(key))
        && exists l :: l in old(leases) && old(Selects(l, key, epoch, activationID, leaseID, leaseToken))
             && Renewable(old(PresenceAt(key.rowID)), epoch, activationID, l, now)
      ensures r.Ok? ==>
        && r.value.leaseID in old(leases)
        && old(leases)[r.value.leaseID].tokenHash == Sha256(leaseToken)
        && PresenceAt(key.rowID) == Renew(old(PresenceAt(key.rowID)), epoch, activationID, r.value.leaseID, now)
        && r.value == Grant(epoch, activationID, r.value.leaseID, now + 45, peers[key.rowID].onlineUntil)
      ensures r.Ok? ==>
        && r.value.leaseID in leases
        && leases == old(leases)[r.value.leaseID :=
             old(leases)[r.value.leaseID].(renewedAt := now, expiresAt := now + 45, lastOnlineIP := clientIP)]
        && now + 45 <= peers[key.rowID].onlineUntil && Seen(key.rowID, clientIP, now)
    {
      var refused := Refuse(key, epoch, activationID, leaseID, leaseToken);
      if refused.Some? {
        return Err(refused.value);
      }
      var row, current := key.rowID, peers[key.rowID];
      if current.activationEpoch != epoch || current.activationID != activationID || current.activationRetired {
        return Err(ActivationStale);
      }
      var found := FindLease(key, epoch, activationID, leaseID, leaseToken);
      if found.None? || leases[found.value].endedAt != 0 {
        return Err(LeaseInvalid);
      }
      var l := found.value;
      if leases[l].expiresAt <= now {
        return Err(LeaseExpired);
      }
      RewrittenTable(leases, current, row, l,
                     leases[l].(renewedAt := now, expiresAt := now + LEASE_TTL, lastOnlineIP := clientIP));
      leases := leases[l := leases[l].(renewedAt := now, expiresAt := now + LEASE_TTL, lastOnlineIP := clientIP)];
      var until := Settle(row, current, clientIP, now, true, true, old(leases));
      ScalarReaches(row, l);
      r := Ok(Grant(epoch, activationID, l, now + LEASE_TTL, until));
    }

    /** Marks one lease of the row as ended, if it is not yet, and settles the row. */
    method closeLease(l: string, row: nat, clientIP: string, now: int, isCurrent: bool) returns (until: int)
      requires Valid() && clock <= now && 0 < now && row in peers
      requires l in leases && leases[l].peerRowID == row
      modifies this
      ensures Valid() && clock == now && OnlyTouches(row)
      ensures row in peers && PresenceAt(row) == End(old(PresenceAt(row)), l)
      ensures until == peers[row].onlineUntil && leases == Ended(old(leases), l, now)
      ensures peers[row] == UpdatedPeer(old(peers)[row], clientIP, now, until, isCurrent, false)
    {
      EndedTable(leases, peers[row], row, l, now);
      if leases[l].endedAt == 0 {
        leases := leases[l := leases[l].(endedAt := now)];
      }
      until := Settle(row, peers[row], clientIP, now, isCurrent, false, old(leases));
    }

    method EndPresenceLease(key: PeerKey, epoch: nat, activationID: string, leaseID: string, leaseToken: string,
                            clientIP: string, now: int)
      returns (r: Result<Grant, Error>)
      requires Valid() && clock <= now && 0 < now
      modifies this
      ensures Valid() && clock <= now && OnlyTouches(key.rowID)
      ensures r.Err? ==> Unchanged()
      ensures r.Ok? <==>
        && Presented(key, epoch, activationID, leaseID, leaseToken) && old(Locks(key))
        && exists l :: l in old(leases) && old(Selects(l, key, epoch, activationID, leaseID, leaseToken))
      ensures r.Ok? ==>
        && r.value.leaseID in old(leases)
        && old(leases)[r.value.leaseID].tokenHash == Sha256(leaseToken)
        && PresenceAt(key.rowID) == End(old(PresenceAt(key.rowID)), r.value.leaseID)
        && r.value == Grant(epoch, activationID, r.value.leaseID, now, peers[key.rowID].onlineUntil)
      ensures r.Ok? && !Current(old(PresenceAt(key.rowID)).register, epoch, activationID) ==>
        && PresenceAt(key.rowID) == old(PresenceAt(key.rowID))
        && peers[key.rowID].v2SeenAt == old(peers)[key.rowID].v2SeenAt
      ensures r.Ok? ==> peers[key.rowID].lastOnlineTime == old(peers)[key.rowID].lastOnlineTime
      ensures r.Ok? ==>
        var was := old(leases)[r.value.leaseID];
        leases == old(leases)[r.value.leaseID := if was.endedAt == 0 then was.(endedAt := now) else was]
    {
      var refused := Refuse(key, epoch, activationID, leaseID, leaseToken);
      if refused.Some? {
        return Err(refused.value);
      }
      var row, current := key.rowID, peers[key.rowID];
      var found := FindLease(key, epoch, activationID, leaseID, leaseToken);
      if found.None? {
        return Err(LeaseInvalid);
      }
      var l := found.value;
      var isCurrent := current.activationEpoch == epoch && current.activationID == activationID;
      if !isCurrent {
        OldLeasesAreNotLive(leases, current, row, l);
      }
      var until := closeLease(l, row, clientIP, now, isCurrent);
      r := Ok(Grant(epoch, activationID, l, now, until));
    }

    method DeactivatePresenceActivation(key: PeerKey, epoch: nat, activationID: string, clientIP: string, now: int)
      returns (r: Result<Grant, Error>)
      requires Valid() && clock <= now && 0 < now
      modifies this
      ensures Valid() && clock <= now && OnlyTouches(key.rowID)
      ensures r.Err? ==> Unchanged()
      ensures r.Ok? <==>
        && key.rowID != 0 && ValidActivation(epoch, activationID) && old(Locks(key))
        && !Stale(old(PresenceAt(key.rowID)).register, epoch, activationID)
      ensures r.Ok? ==>
        && PresenceAt(key.rowID) == Deactivate(old(PresenceAt(key.rowID)), epoch, activationID)
        && r.value == Grant(epoch, activationID, "", now, 0)
      ensures r.Ok? ==>
        && peers[key.rowID].onlineUntil == 0 && peers[key.rowID].v2SeenAt == now
        && peers[key.rowID].lastOnlineTime == old(peers)[key.rowID].lastOnlineTime
        && leases.Keys == old(leases).Keys
        && forall l :: l in leases && old(leases)[l].peerRowID == key.rowID && old(leases)[l].endedAt == 0 ==>
             leases[l] == old(leases)[l].(endedAt := now)
    {
      if key.rowID == 0 {
        return Err(IdentityUnverified);
      }
      if !ValidActivation(epoch, activationID) {
        return Err(ActivationInvalid);
      }
      if !Locks(key) {
        return Err(IdentityUnverified);
      }
      var row, current := key.rowID, peers[key.rowID];
      if current.activationEpoch > epoch ||
         (current.activationEpoch == epoch && current.activationID != "" && current.activationID != activationID) {
        return Err(ActivationStale);
      }
      ValidActivationIsNotEmpty(epoch, activationID);
      RetiredTable(leases, current, row, epoch, activationID, now);
      leases := EndAll(leases, row, now);
      current := Activated(current, epoch, activationID, true);
      Retire(row, current, clientIP, now, old(leases));
      r := Ok(Grant(epoch, activationID, "", now, 0));
    }
  }
}
