/** The SP1 registry store. Each method runs under the registry's file lock in one SQLite
    transaction, so it is one atomic step: an error leaves both tables and the generation alone,
    and a change is committed together with generation + 1. The clock is an argument. */
module Registry {
  import opened Wrappers
  import opened Pairing
  import opened RegistrySpec

  const NANOS: int := 1_000_000_000
  const MAX_RECOVERY: int := 600 * NANOS

  /** Go's Time.Unix: whole seconds, rounded down. */
  function Unix(t: int): int {
    t / NANOS
  }

  datatype EnrollmentCreate = EnrollmentCreate(
    enrollmentID: string, purpose: string, action: string, managedID: string, name: string, agentOriginID: string,
    agentOrigin: string, tlsServerName: string, targetInstanceID: string, configurationDigest: string,
    secretDigest: string, expiresAt: int, recoveryTTL: int, relaySpecJSON: string)

  datatype ClaimBinding = ClaimBinding(enrollment: Enrollment, reused: bool)

  function PendingEnrollment(input: EnrollmentCreate, now: int): Enrollment {
    var ttl := if input.recoveryTTL <= 0 || input.recoveryTTL > MAX_RECOVERY then MAX_RECOVERY else input.recoveryTTL;
    Enrollment(input.purpose, input.action, input.managedID, input.name, input.agentOriginID, input.agentOrigin,
               input.tlsServerName, input.targetInstanceID, input.configurationDigest, input.secretDigest,
               Unix(input.expiresAt), ttl / NANOS, PendingState, "", "", "", "", 0,
               input.relaySpecJSON, Unix(now), Unix(now))
  }

  /** The row an accepted create leaves, column by column. The recovery time is at most ten minutes. */
  predicate Records(e: Enrollment, input: EnrollmentCreate, now: int) {
    && e.purpose == input.purpose && e.action == input.action && e.managedID == input.managedID
    && e.name == input.name && e.agentOriginID == input.agentOriginID && e.agentOrigin == input.agentOrigin
    && e.tlsServerName == input.tlsServerName && e.targetInstanceID == input.targetInstanceID
    && e.configurationDigest == input.configurationDigest && e.secretDigest == input.secretDigest
    && e.relaySpecJSON == input.relaySpecJSON && e.state == PendingState
    && e.expiresAtUnix == input.expiresAt / 1_000_000_000
    && e.recoveryTTLSeconds == RecoverySeconds(input.recoveryTTL)
    && e.requestDigest == e.keyFingerprint == e.csrDigest == e.instanceUUID == "" && e.recoveryUntilUnix == 0
    && e.createdAtUnix == e.updatedAtUnix == now / 1_000_000_000
  }

  /** Seconds for a recovery time in nanoseconds. */
  function RecoverySeconds(ttl: int): int {
    if 0 < ttl <= 600_000_000_000 then ttl / 1_000_000_000 else 600
  }

  /** No active enrollment holds the managed id, but for those of control agents whose time is over. */
  predicate Free(enrollments: map<string, Enrollment>, managedID: string, nowUnix: int) {
    forall i | i in enrollments && enrollments[i].managedID == managedID ::
      && (enrollments[i].state == PendingState ==>
            enrollments[i].purpose == "control-agent" && enrollments[i].expiresAtUnix <= nowUnix)
      && (enrollments[i].state == BoundState ==>
            enrollments[i].purpose == "control-agent" && enrollments[i].recoveryUntilUnix <= nowUnix)
  }

  lemma FreeExactlyWhenReleased(enrollments: map<string, Enrollment>, managedID: string, nowUnix: int)
    ensures Free(enrollments, managedID, nowUnix) <==> !Reserved(Release(enrollments, managedID, nowUnix), managedID)
  {
    var released := Release(enrollments, managedID, nowUnix);
    forall i | i in enrollments
      ensures released[i].managedID == enrollments[i].managedID
    {
    }
    if Reserved(released, managedID) {
      var i :| i in released && released[i].managedID == managedID && Active(released[i]);
      assert !Lapsed(enrollments[i], managedID, nowUnix);
    } else {
      forall i | i in enrollments && enrollments[i].managedID == managedID
        ensures !Active(released[i])
      {
      }
    }
  }

  /** The enrollments whose reservation of a managed id has run out. */
  predicate Lapsed(e: Enrollment, managedID: string, nowUnix: int) {
    && e.purpose == PURPOSE_CONTROL_AGENT && e.managedID == managedID
    && ((e.state == PendingState && e.expiresAtUnix <= nowUnix)
        || (e.state == BoundState && e.recoveryUntilUnix <= nowUnix))
  }

  /** The UPDATE that releases them. */
  function Release(enrollments: map<string, Enrollment>, managedID: string, nowUnix: int): map<string, Enrollment> {
    map i | i in enrollments ::
      if Lapsed(enrollments[i], managedID, nowUnix)
      then enrollments[i].(state := ExpiredState, updatedAtUnix := nowUnix) else enrollments[i]
  }

  /** What the UPDATE does to each row: a control agent's pending enrollment of this managed id expires
      at its deadline, and a bound one at the end of its recovery time. */
  lemma ReleaseExactly(enrollments: map<string, Enrollment>, managedID: string, nowUnix: int, i: string)
    requires i in enrollments
    ensures var e, after := enrollments[i], Release(enrollments, managedID, nowUnix);
      && i in after
      && after[i] ==
           if e.purpose == "control-agent" && e.managedID == managedID
              && ((e.state == PendingState && e.expiresAtUnix <= nowUnix)
                  || (e.state == BoundState && e.recoveryUntilUnix <= nowUnix))
           then e.(state := ExpiredState, updatedAtUnix := nowUnix) else e
  {
  }

  predicate Reserved(enrollments: map<string, Enrollment>, managedID: string) {
    exists i :: i in enrollments && enrollments[i].managedID == managedID && Active(enrollments[i])
  }

  lemma ReleaseKeeps(t: Tables, managedID: string, nowUnix: int)
    requires Inv(t)
    ensures var r := t.(enrollments := Release(t.enrollments, managedID, nowUnix));
      Inv(r) && EnrollmentsAdvance(t, r)
  {
  }

  /** Moving one enrollment to its next state. */
  lemma AdvanceCommits(t: Tables, id: string, e: Enrollment)
    requires Inv(t) && id in t.enrollments && Advances(t.enrollments[id], e)
    requires ActiveControl(e) ==> ActiveControl(t.enrollments[id]) && ActionFits(e, t.managed)
    requires e.purpose == PURPOSE_CONTROL_AGENT ==> e.state != ClaimedState
    ensures Commits(t, t.(enrollments := t.enrollments[id := e], generation := t.generation + 1))
  {
  }

  /** Adding a pending enrollment once the lapsed ones have been released. */
  lemma CreateCommits(t: Tables, table: map<string, Enrollment>, id: string, e: Enrollment)
    requires Inv(t) && e.state == PendingState && id !in table
    requires Inv(t.(enrollments := table)) && EnrollmentsAdvance(t, t.(enrollments := table))
    requires ActiveControl(e) ==> ActionFits(e, t.managed) && !Reserved(table, e.managedID)
    ensures Commits(t, t.(enrollments := table[id := e], generation := t.generation + 1))
  {
  }

  /** Rewriting one managed row under the same instance. */
  lemma RewriteCommits(t: Tables, m: string, row: ManagedInstance)
    requires Inv(t) && m in t.managed && row.identity.instanceUUID == t.managed[m].identity.instanceUUID
    ensures Commits(t, t.(managed := t.managed[m := row], generation := t.generation + 1))
  {
    var managed := t.managed[m := row];
    assert forall n :: n in managed ==>
      n in t.managed && managed[n].identity.instanceUUID == t.managed[n].identity.instanceUUID;
    assert managed.Keys == t.managed.Keys;
  }

  /** An active enrollment's row, if there is one, already has the instance the claim brings. */
  lemma ClaimKeepsInstance(t: Tables, id: string)
    requires Inv(t) && id in t.enrollments && ActiveControl(t.enrollments[id])
    requires t.enrollments[id].state == BoundState && t.enrollments[id].managedID in t.managed
    ensures t.managed[t.enrollments[id].managedID].identity.instanceUUID == t.enrollments[id].instanceUUID
  {
  }

  lemma InsertKeepsOthersUnique(t: Tables, m: string, row: ManagedInstance)
    requires InstancesUnique(t) && row.identity.instanceUUID != ""
    requires forall n :: n in t.managed && n != m ==>
      t.managed[n].identity.instanceUUID != row.identity.instanceUUID
    ensures InstancesUnique(t.(managed := t.managed[m := row]))
  {
  }

  /** Completing a control claim: the row is upserted and the enrollment leaves the active ones. */
  lemma ClaimCommits(t: Tables, id: string, e: Enrollment, row: ManagedInstance)
    requires Inv(t) && id in t.enrollments && ActiveControl(t.enrollments[id]) && t.enrollments[id].state == BoundState
    requires e == t.enrollments[id].(state := ClaimedState, updatedAtUnix := e.updatedAtUnix)
    requires row.identity.instanceUUID == e.instanceUUID != ""
    requires forall n :: n in t.managed && n != e.managedID ==>
      t.managed[n].identity.instanceUUID != row.identity.instanceUUID
    ensures Commits(t, Tables(t.enrollments[id := e], t.managed[e.managedID := row], t.generation + 1))
  {
    if e.managedID in t.managed {
      ClaimKeepsInstance(t, id);
    }
    InsertKeepsOthersUnique(t, e.managedID, row);
    var after := Tables(t.enrollments[id := e], t.managed[e.managedID := row], t.generation + 1);
    forall i | i in after.enrollments && ActiveControl(after.enrollments[i])
      ensures ActionFits(after.enrollments[i], after.managed)
    {
      assert i != id && t.enrollments[i].managedID != e.managedID;
      assert ActionFits(t.enrollments[i], t.managed);
    }
  }

  class Store {
    var enrollments: map<string, Enrollment>
    var managed: map<string, ManagedInstance>
    var generation: nat

    const hash: Hash
    const parsesUUID: string -> bool

    ghost function Contents(): Tables
      reads this
    {
      Tables(enrollments, managed, generation)
    }

    ghost predicate Valid()
      reads this
    {
      Inv(Contents())
    }

    constructor (h: Hash, uuids: string -> bool)
      ensures Valid() && Contents() == Tables(map[], map[], 1)
    {
      enrollments, managed, generation := map[], map[], 1;
      hash, parsesUUID := h, uuids;
    }

    predicate WellFormedCreate(input: EnrollmentCreate) {
      && parsesUUID(input.enrollmentID) && ValidPurposeAction(input.purpose, input.action)
      && ValidSHA256(input.configurationDigest) && ValidSHA256(input.secretDigest)
    }

    predicate CompleteCreate(input: EnrollmentCreate) {
      if input.purpose == PURPOSE_CONTROL_AGENT then
        && input.managedID != "" && input.name != "" && input.agentOriginID != "" && input.agentOrigin != ""
        && input.tlsServerName != "" && input.relaySpecJSON == ""
      else input.managedID != "" && input.relaySpecJSON != ""
    }

    /** What CreateEnrollment demands of the managed table for a control agent. */
    predicate ActionAllowed(input: EnrollmentCreate)
      reads this
    {
      if input.action == ACTION_ROTATE then
        input.managedID in managed && managed[input.managedID].identity.instanceUUID == input.targetInstanceID
      else input.managedID !in managed
    }

    /** The checks of a create, in their order, with lapsed reservations out of the way. */
    method refuseCreate(input: EnrollmentCreate, now: int) returns (refused: Option<Error>)
      ensures refused.None? <==>
        && WellFormedCreate(input) && CompleteCreate(input) && input.expiresAt > now && Unix(input.expiresAt) >= 1
        && input.enrollmentID !in enrollments
        && (input.purpose == PURPOSE_CONTROL_AGENT ==>
              ActionAllowed(input) && Free(enrollments, input.managedID, now / 1_000_000_000))
      ensures refused.None? && input.purpose == PURPOSE_CONTROL_AGENT ==>
        !Reserved(Release(enrollments, input.managedID, Unix(now)), input.managedID)
    {
      if !parsesUUID(input.enrollmentID) {
        return Some(Binding);
      }
      if !ValidPurposeAction(input.purpose, input.action) || !ValidSHA256(input.configurationDigest)
         || !ValidSHA256(input.secretDigest) {
        return Some(Binding);
      }
      if Unix(input.expiresAt) < 1 {
        return Some(Expired);
      }
      if input.purpose == PURPOSE_CONTROL_AGENT
         && (input.managedID == "" || input.name == "" || input.agentOriginID == "" || input.agentOrigin == ""
             || input.tlsServerName == "" || input.relaySpecJSON != "") {
        return Some(Binding);
      }
      if input.purpose != PURPOSE_CONTROL_AGENT && (input.managedID == "" || input.relaySpecJSON == "") {
        return Some(Binding);
      }
      if input.expiresAt <= now {
        return Some(Expired);
      }
      if input.purpose == PURPOSE_CONTROL_AGENT {
        FreeExactlyWhenReleased(enrollments, input.managedID, Unix(now));
        var table := Release(enrollments, input.managedID, Unix(now));
        if Reserved(table, input.managedID) {
          return Some(Conflict);
        }
        if input.action == ACTION_ROTATE {
          if input.managedID !in managed {
            return Some(Conflict);
          }
          if input.targetInstanceID != managed[input.managedID].identity.instanceUUID {
            return Some(Binding);
          }
        } else if input.managedID in managed {
          return Some(Conflict);
        }
      }
      if input.enrollmentID in enrollments {
        return Some(Database);
      }
      refused := None;
    }

    lemma PendingRecords(input: EnrollmentCreate, now: int)
      ensures Records(PendingEnrollment(input, now), input, now)
    {
    }

    /** A new enrollment goes in, over the table with the lapsed ones released if it is a control agent's. */
    method insert(id: string, managedID: string, table: map<string, Enrollment>, nowUnix: int, e: Enrollment)
      requires Valid() && id !in table && e.state == PendingState && e.managedID == managedID
      requires table == enrollments || table == Release(enrollments, managedID, nowUnix)
      requires ActiveControl(e) ==> ActionFits(e, managed) && !Reserved(table, managedID)
      modifies this`enrollments, this`generation
      ensures Commits(old(Contents()), Contents())
      ensures enrollments == table[id := e] && generation == old(generation) + 1
    {
      ReleaseKeeps(Contents(), managedID, nowUnix);
      CreateCommits(Contents(), table, id, e);
      enrollments := table[id := e];
      generation := generation + 1;
    }

    method CreateEnrollment(input: EnrollmentCreate, now: int) returns (r: Result<Enrollment, Error>)
      requires Valid()
      modifies this
      ensures Commits(old(Contents()), Contents())
      ensures r.Err? ==> Contents() == old(Contents())
      ensures r.Ok? <==>
        && WellFormedCreate(input) && CompleteCreate(input) && input.expiresAt > now && Unix(input.expiresAt) >= 1
        && input.enrollmentID !in old(enrollments)
        && (input.purpose == PURPOSE_CONTROL_AGENT ==>
              old(ActionAllowed(input))
              && Free(old(enrollments), input.managedID, now / 1_000_000_000))
      ensures r.Ok? ==>
        && Records(r.value, input, now)
        && generation == old(generation) + 1 && managed == old(managed)
        && enrollments == (if input.purpose == PURPOSE_CONTROL_AGENT
                           then Release(old(enrollments), input.managedID, Unix(now))
                           else old(enrollments))[input.enrollmentID := r.value]
    {
      var refused := refuseCreate(input, now);
      if refused.Some? {
        return Err(refused.value);
      }
      var result := PendingEnrollment(input, now);
      var table := if input.purpose == PURPOSE_CONTROL_AGENT then Release(enrollments, input.managedID, Unix(now))
                   else enrollments;
      PendingRecords(input, now);
      insert(input.enrollmentID, input.managedID, table, Unix(now), result);
      r := Ok(result);
    }

    /** The checks before the transaction. */
    predicate Shaped(request: ClaimRequest) {
      && ValidClaimShape(request, hash).None?
      && parsesUUID(request.enrollmentID)
      && (request.instanceID.Some? ==> parsesUUID(request.instanceID.value))
    }

    /** The registry parses ids as UUIDs, whose longest spelling has 45 characters, so among the claims
        it looks at one digest always means one claim, line feeds or not. */
    lemma ShapedClaimsAreBound(a: ClaimRequest, b: ClaimRequest)
      requires forall text :: parsesUUID(text) ==> |text| <= 45
      ensures Shaped(a) && Shaped(b) && OneDigest(hash, a, b) ==> SameClaim(a, b)
    {
      ShortIDsBind(a, b, hash);
    }

    /** The request names the terms the enrollment was created with. */
    predicate Matches(e: Enrollment, request: ClaimRequest) {
      && e.purpose == request.purpose && e.action == request.action
      && e.configurationDigest == request.configurationDigest
      && SecretDigest(request.secret, hash) == Some(e.secretDigest)
      && (e.targetInstanceID == "" || e.targetInstanceID == InstanceText(request))
    }

    /** The first claim of a pending enrollment. */
    function Bound(e: Enrollment, request: ClaimRequest, nowUnix: int): Enrollment {
      e.(state := BoundState, requestDigest := request.requestDigest, keyFingerprint := request.keyFingerprint,
         csrDigest := hash.ofText(request.csrPEM), instanceUUID := InstanceText(request),
         recoveryUntilUnix := nowUnix + e.recoveryTTLSeconds, updatedAtUnix := nowUnix)
    }

    /** A first claim writes its own columns, its time and the end of its recovery time, and no others. */
    lemma BoundColumns(e: Enrollment, request: ClaimRequest, nowUnix: int)
      ensures var b := Bound(e, request, nowUnix);
        && Carries(b, request) && b.state == BoundState && b.updatedAtUnix == nowUnix
        && b.recoveryUntilUnix == nowUnix + e.recoveryTTLSeconds
        && e == b.(state := e.state, requestDigest := e.requestDigest, keyFingerprint := e.keyFingerprint,
                   csrDigest := e.csrDigest, instanceUUID := e.instanceUUID, updatedAtUnix := e.updatedAtUnix,
                   recoveryUntilUnix := e.recoveryUntilUnix)
    {
    }

    /** The checks BeginClaim makes, in their order, before it looks at the enrollment's own claim. */
    method RefuseClaim(request: ClaimRequest, now: int) returns (refused: Option<Error>)
      ensures refused.None? <==>
        && Shaped(request) && request.enrollmentID in enrollments
        && Matches(enrollments[request.enrollmentID], request)
        && Claimable(enrollments[request.enrollmentID], Unix(now))
      ensures refused == Some(NotFound) <==> Shaped(request) && request.enrollmentID !in enrollments
      ensures refused == Some(Revoked) <==>
        && Shaped(request) && request.enrollmentID in enrollments
        && enrollments[request.enrollmentID].state == RevokedState
      ensures refused == Some(Expired) <==>
        && Shaped(request) && request.enrollmentID in enrollments
        && enrollments[request.enrollmentID].state != RevokedState
        && !Claimable(enrollments[request.enrollmentID], Unix(now))
      ensures Shaped(request) ==>
        (refused == Some(Secret) <==>
           && request.enrollmentID in enrollments
           && var e := enrollments[request.enrollmentID];
              && Claimable(e, Unix(now)) && e.purpose == request.purpose && e.action == request.action
              && e.configurationDigest == request.configurationDigest
              && SecretDigest(request.secret, hash) != Some(e.secretDigest))
    {
      var shape := ValidClaimShape(request, hash);
      if shape.Some? {
        return Some(shape.value);
      }
      if !parsesUUID(request.enrollmentID) {
        return Some(Binding);
      }
      if request.instanceID.Some? && !parsesUUID(request.instanceID.value) {
        return Some(Binding);
      }
      if request.enrollmentID !in enrollments {
        return Some(NotFound);
      }
      var e, nowUnix := enrollments[request.enrollmentID], Unix(now);
      if e.state == RevokedState {
        return Some(Revoked);
      }
      if e.state == ExpiredState || (e.state == PendingState && nowUnix >= e.expiresAtUnix) {
        return Some(Expired);
      }
      if e.purpose != request.purpose || e.action != request.action
         || e.configurationDigest != request.configurationDigest {
        return Some(Binding);
      }
      if Some(e.secretDigest) != SecretDigest(request.secret, hash) {
        return Some(Secret);
      }
      if e.targetInstanceID != "" && e.targetInstanceID != InstanceText(request) {
        return Some(Binding);
      }
      refused := None;
    }

    /** Neither revoked nor expired, by state or by the clock. */
    predicate Claimable(e: Enrollment, nowUnix: int) {
      && e.state != RevokedState && e.state != ExpiredState
      && (e.state == PendingState ==> nowUnix < e.expiresAtUnix)
    }

    /** One enrollment moves to its next state, together with the generation. */
    method advance(id: string, e: Enrollment)
      requires Valid() && id in enrollments && Advances(enrollments[id], e)
      requires ActiveControl(e) ==> ActiveControl(enrollments[id]) && ActionFits(e, managed)
      requires e.purpose == PURPOSE_CONTROL_AGENT ==> e.state != ClaimedState
      modifies this`enrollments, this`generation
      ensures Commits(old(Contents()), Contents())
      ensures enrollments == old(enrollments)[id := e] && generation == old(generation) + 1
    {
      AdvanceCommits(Contents(), id, e);
      enrollments := enrollments[id := e];
      generation := generation + 1;
    }

    /** A claim that was answered before: within the recovery window the same claim gets the same answer. */
    method replayClaim(e: Enrollment, request: ClaimRequest, nowUnix: int) returns (r: Result<ClaimBinding, Error>)
      ensures r == if e.recoveryUntilUnix <= nowUnix then Err(RecoveryWindow)
                   else if Carries(e, request) then Ok(ClaimBinding(e, true)) else Err(Binding)
    {
      if e.recoveryUntilUnix <= nowUnix {
        return Err(RecoveryWindow);
      }
      if e.requestDigest != request.requestDigest || e.keyFingerprint != request.keyFingerprint
         || e.csrDigest != hash.ofText(request.csrPEM) || e.instanceUUID != InstanceText(request) {
        return Err(Binding);
      }
      r := Ok(ClaimBinding(e, true));
    }

    /** A claim that the enrollment answers: the first one before its deadline, and the same one again
        within the recovery time. */
    predicate Answers(e: Enrollment, request: ClaimRequest, nowUnix: int) {
      && e.purpose == request.purpose && e.action == request.action
      && e.configurationDigest == request.configurationDigest
      && SecretDigest(request.secret, hash) == Some(e.secretDigest)
      && (e.targetInstanceID == "" || e.targetInstanceID == InstanceText(request))
      && match e.state
         case PendingState => nowUnix < e.expiresAtUnix
         case BoundState => nowUnix < e.recoveryUntilUnix && Carries(e, request)
         case ClaimedState => nowUnix < e.recoveryUntilUnix && Carries(e, request)
         case RevokedState => false
         case ExpiredState => false
    }

    /** The enrollment was bound by this claim. */
    predicate Carries(e: Enrollment, request: ClaimRequest) {
      && e.requestDigest == request.requestDigest && e.keyFingerprint == request.keyFingerprint
      && e.csrDigest == hash.ofText(request.csrPEM) && e.instanceUUID == InstanceText(request)
    }

    method BeginClaim(request: ClaimRequest, now: int) returns (r: Result<ClaimBinding, Error>)
      requires Valid()
      modifies this
      ensures Commits(old(Contents()), Contents())
      ensures r.Err? || r.value.reused ==> Contents() == old(Contents())
      ensures r.Ok? ==>
        && ClaimedWith(Contents(), request.enrollmentID, request, hash)
        && r.value.enrollment == enrollments[request.enrollmentID]
      ensures r.Ok? <==>
        && Shaped(request) && request.enrollmentID in old(enrollments)
        && Answers(old(enrollments)[request.enrollmentID], request, now / 1_000_000_000)
      ensures r.Ok? && !r.value.reused ==>
        && old(enrollments)[request.enrollmentID].state == PendingState
        && Contents() == old(Contents()).(
             enrollments := old(enrollments)[request.enrollmentID :=
               Bound(old(enrollments)[request.enrollmentID], request, Unix(now))],
             generation := old(generation) + 1)
    {
      var refused := RefuseClaim(request, now);
      if refused.Some? {
        return Err(refused.value);
      }
      var e, nowUnix := enrollments[request.enrollmentID], Unix(now);
      if e.state == PendingState {
        var bound := Bound(e, request, nowUnix);
        advance(request.enrollmentID, bound);
        return Ok(ClaimBinding(bound, false));
      }
      r := replayClaim(e, request, nowUnix);
    }

    /** A pairing from end to end: an enrollment is created, claimed, and the claim repeated. Which
        claims succeed, and how long they can be repeated, follows from what was enrolled. */
    method CreateThenClaim(input: EnrollmentCreate, request: ClaimRequest, created: int, claimed: int, repeated: int)
      returns (enrollment: Result<Enrollment, Error>, first: Result<ClaimBinding, Error>,
               again: Result<ClaimBinding, Error>)
      requires Valid() && Shaped(request) && request.enrollmentID == input.enrollmentID
      modifies this
      ensures Valid()
      ensures enrollment.Ok? ==>
        (first.Ok? <==>
           && request.purpose == input.purpose && request.action == input.action
           && request.configurationDigest == input.configurationDigest
           && SecretDigest(request.secret, hash) == Some(input.secretDigest)
           && (input.targetInstanceID == "" || InstanceText(request) == input.targetInstanceID)
           && claimed / 1_000_000_000 < input.expiresAt / 1_000_000_000)
      ensures enrollment.Ok? && first.Ok? ==>
        (again.Ok? <==>
           repeated / 1_000_000_000 < claimed / 1_000_000_000
             + if 0 < input.recoveryTTL <= 600_000_000_000 then input.recoveryTTL / 1_000_000_000 else 600)
      ensures enrollment.Ok? && first.Ok? && again.Ok? ==>
        !first.value.reused && again.value.reused && again.value.enrollment == first.value.enrollment
    {
      enrollment := CreateEnrollment(input, created);
      first := BeginClaim(request, claimed);
      again := BeginClaim(request, repeated);
    }

    /** A complete, initially read-only instance. */
    predicate CompleteInstance(managedID: string, input: ManagedInstance) {
      && managedID != "" && input.identity.instanceUUID != "" && input.identity.agentOrigin != ""
      && input.readOnly && input.state == "paired_read_only"
    }

    /** The UNIQUE column instance_uuid. */
    static predicate TakenElsewhere(rows: map<string, ManagedInstance>, managedID: string, input: ManagedInstance) {
      exists m :: m in rows && m != managedID && rows[m].identity.instanceUUID == input.identity.instanceUUID
    }

    /** The row the upsert leaves: an existing row keeps its creation time. */
    function Upserted(managedID: string, input: ManagedInstance, nowUnix: int): ManagedInstance
      reads this
    {
      input.(registryGeneration := generation + 1, updatedAtUnix := nowUnix,
             createdAtUnix := if managedID in managed then managed[managedID].createdAtUnix
                              else if input.createdAtUnix == 0 then nowUnix else input.createdAtUnix)
    }

    method CompleteControlClaim(enrollmentID: string, managedID: string, input: ManagedInstance, now: int)
      returns (r: Result<ManagedInstance, Error>)
      requires Valid()
      modifies this
      ensures Commits(old(Contents()), Contents())
      ensures r.Err? ==> Contents() == old(Contents())
      ensures r.Ok? <==>
        && CompleteInstance(managedID, input) && enrollmentID in old(enrollments)
        && old(enrollments)[enrollmentID].purpose == PURPOSE_CONTROL_AGENT
        && old(enrollments)[enrollmentID].managedID == managedID
        && old(enrollments)[enrollmentID].instanceUUID == input.identity.instanceUUID
        && if old(enrollments)[enrollmentID].state == ClaimedState
           then managedID in old(managed) && old(managed)[managedID].identity == input.identity
           else old(enrollments)[enrollmentID].state == BoundState && !TakenElsewhere(old(managed), managedID, input)
      ensures r.Ok? ==> managedID in managed && managed[managedID].identity == input.identity
      ensures r.Ok? && old(enrollments)[enrollmentID].state == ClaimedState ==>
        Contents() == old(Contents()) && r.value == managed[managedID]
      ensures r.Ok? && old(enrollments)[enrollmentID].state == BoundState ==>
        && r.value == managed[managedID].(createdAtUnix := r.value.createdAtUnix)
        && generation == old(generation) + 1
        && managed == old(managed)[managedID := input.(
             registryGeneration := generation, updatedAtUnix := now / 1_000_000_000,
             createdAtUnix := if managedID in old(managed) then old(managed)[managedID].createdAtUnix
                              else if input.createdAtUnix == 0 then now / 1_000_000_000 else input.createdAtUnix)]
        && enrollments == old(enrollments)[enrollmentID :=
             old(enrollments)[enrollmentID].(state := ClaimedState, updatedAtUnix := Unix(now))]
    {
      if managedID == "" || input.identity.instanceUUID == "" || input.identity.agentOrigin == ""
         || !input.readOnly || input.state != "paired_read_only" {
        return Err(Incomplete);
      }
      if enrollmentID !in enrollments {
        return Err(NotFound);
      }
      var e, nowUnix := enrollments[enrollmentID], Unix(now);
      if e.purpose != PURPOSE_CONTROL_AGENT || (e.state != BoundState && e.state != ClaimedState)
         || e.managedID != managedID || e.instanceUUID != input.identity.instanceUUID {
        return Err(Binding);
      }
      if e.state == ClaimedState {
        if managedID !in managed || managed[managedID].identity != input.identity {
          return Err(Binding);
        }
        return Ok(managed[managedID]);
      }
      var result := input.(registryGeneration := generation + 1, updatedAtUnix := nowUnix,
                           createdAtUnix := if input.createdAtUnix == 0 then nowUnix else input.createdAtUnix);
      if TakenElsewhere(managed, managedID, input) {
        return Err(Database);
      }
      ClaimCommits(Contents(), enrollmentID, e.(state := ClaimedState, updatedAtUnix := nowUnix),
                   Upserted(managedID, input, nowUnix));
      managed := managed[managedID := Upserted(managedID, input, nowUnix)];
      enrollments := enrollments[enrollmentID := e.(state := ClaimedState, updatedAtUnix := nowUnix)];
      generation := generation + 1;
      r := Ok(result);
    }

    method CompleteRelayClaim(enrollmentID: string, now: int) returns (e: Option<Error>)
      requires Valid()
      modifies this
      ensures Commits(old(Contents()), Contents())
      ensures e.Some? ==> Contents() == old(Contents())
      ensures e.None? <==>
        && enrollmentID in old(enrollments) && old(enrollments)[enrollmentID].purpose == PURPOSE_RELAY
        && (old(enrollments)[enrollmentID].state == BoundState || old(enrollments)[enrollmentID].state == ClaimedState)
      ensures e.None? ==>
        if old(enrollments)[enrollmentID].state == ClaimedState then Contents() == old(Contents())
        else Contents() == old(Contents()).(
               enrollments := old(enrollments)[enrollmentID :=
                 old(enrollments)[enrollmentID].(state := ClaimedState, updatedAtUnix := Unix(now))],
               generation := old(generation) + 1)
    {
      if enrollmentID !in enrollments {
        return Some(NotFound);
      }
      var row := enrollments[enrollmentID];
      if row.purpose != PURPOSE_RELAY || (row.state != BoundState && row.state != ClaimedState) {
        return Some(Binding);
      }
      if row.state == ClaimedState {
        return None;
      }
      advance(enrollmentID, row.(state := ClaimedState, updatedAtUnix := Unix(now)));
      e := None;
    }

    method RevokeEnrollment(enrollmentID: string, now: int) returns (e: Option<Error>)
      requires Valid()
      modifies this
      ensures Commits(old(Contents()), Contents())
      ensures e.Some? ==> e == Some(NotFound) && Contents() == old(Contents())
      ensures e.None? <==>
        && enrollmentID in old(enrollments)
        && (old(enrollments)[enrollmentID].state == PendingState || old(enrollments)[enrollmentID].state == BoundState)
      ensures e.None? ==> Contents() == old(Contents()).(
        enrollments := old(enrollments)[enrollmentID :=
          old(enrollments)[enrollmentID].(state := RevokedState, updatedAtUnix := Unix(now))],
        generation := old(generation) + 1)
    {
      if enrollmentID !in enrollments || !Active(enrollments[enrollmentID]) {
        return Some(NotFound);
      }
      var row := enrollments[enrollmentID];
      advance(enrollmentID, row.(state := RevokedState, updatedAtUnix := Unix(now)));
      e := None;
    }

    method SetManagedReadOnly(managedID: string, readOnly: bool, now: int) returns (r: Result<ManagedInstance, Error>)
      requires Valid()
      modifies this
      ensures Commits(old(Contents()), Contents())
      ensures r.Err? ==> r == Err(NotFound) && Contents() == old(Contents())
      ensures r.Ok? <==> managedID in old(managed)
      ensures r.Ok? ==>
        && managedID in managed && r.value == managed[managedID]
        && r.value.identity == old(managed)[managedID].identity && r.value.readOnly == readOnly
        && r.value.registryGeneration == generation == old(generation) + 1
        && r.value == old(managed)[managedID].(
             readOnly := readOnly, state := if readOnly then "paired_read_only" else "paired_write_enabled",
             registryGeneration := generation, updatedAtUnix := now / 1_000_000_000)
        && managed == old(managed)[managedID := r.value] && enrollments == old(enrollments)
    {
      if managedID !in managed {
        return Err(NotFound);
      }
      var state := if readOnly then "paired_read_only" else "paired_write_enabled";
      var row := managed[managedID].(
        readOnly := readOnly, state := state, registryGeneration := generation + 1, updatedAtUnix := Unix(now));
      RewriteCommits(Contents(), managedID, row);
      managed := managed[managedID := row];
      generation := generation + 1;
      r := Ok(row);
    }
  }
}
