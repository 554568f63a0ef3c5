/** The SP1 registry's tables, the invariant that ties enrollments to managed instances, and
    what one committed change, or any run of them, may do to the tables. */
module RegistrySpec {
  import opened Pairing

  datatype EnrollmentState = PendingState | BoundState | ClaimedState | RevokedState | ExpiredState

  datatype Enrollment = Enrollment(
    purpose: string, action: string, managedID: string, name: string, agentOriginID: string, agentOrigin: string,
    tlsServerName: string, targetInstanceID: string, configurationDigest: string, secretDigest: string,
    expiresAtUnix: int, recoveryTTLSeconds: int, state: EnrollmentState,
    requestDigest: string, keyFingerprint: string, csrDigest: string, instanceUUID: string,
    recoveryUntilUnix: int, relaySpecJSON: string, createdAtUnix: int, updatedAtUnix: int)

  /** The columns sameManagedIdentity compares, besides the managed id itself. */
  datatype Identity = Identity(
    name: string, instanceUUID: string, agentOrigin: string, tlsServerName: string, caFile: string,
    clientCertFile: string, clientKeyFile: string, controlKeyFile: string, controlKeyID: string,
    controlIssuer: string, authorizedParty: string, certificateSHA256: string, controlKeySHA256: string)

  datatype ManagedInstance = ManagedInstance(
    identity: Identity, readOnly: bool, state: string, registryGeneration: nat,
    createdAtUnix: int, updatedAtUnix: int)

  /** Both tables by their primary keys, and the generation of registry_meta. */
  datatype Tables = Tables(
    enrollments: map<string, Enrollment>, managed: map<string, ManagedInstance>, generation: nat)

  predicate Active(e: Enrollment) {
    e.state == PendingState || e.state == BoundState
  }

  predicate ActiveControl(e: Enrollment) {
    Active(e) && e.purpose == PURPOSE_CONTROL_AGENT
  }

  /** At most one active control-agent enrollment per managed id. */
  ghost predicate OneActivePerManagedID(t: Tables) {
    forall i, j | i in t.enrollments && j in t.enrollments
                  && ActiveControl(t.enrollments[i]) && ActiveControl(t.enrollments[j])
                  && t.enrollments[i].managedID == t.enrollments[j].managedID ::
      i == j
  }

  /** An active pair or adopt has no managed row yet; an active rotate targets the stored UUID. */
  ghost predicate ActionFits(e: Enrollment, managed: map<string, ManagedInstance>) {
    if e.action == ACTION_ROTATE then
      && e.managedID in managed
      && e.targetInstanceID == managed[e.managedID].identity.instanceUUID
      && (e.state == BoundState ==> e.instanceUUID == e.targetInstanceID)
    else e.managedID !in managed
  }

  ghost predicate ActionsFit(t: Tables) {
    forall i :: i in t.enrollments && ActiveControl(t.enrollments[i]) ==> ActionFits(t.enrollments[i], t.managed)
  }

  /** A claimed control-agent enrollment has left a row with its own instance. */
  ghost predicate ClaimsHaveRows(t: Tables) {
    forall i | i in t.enrollments && t.enrollments[i].purpose == PURPOSE_CONTROL_AGENT
               && t.enrollments[i].state == ClaimedState ::
      && t.enrollments[i].managedID in t.managed
      && t.managed[t.enrollments[i].managedID].identity.instanceUUID == t.enrollments[i].instanceUUID
  }

  /** No two managed ids share an instance, and none is without one. */
  ghost predicate InstancesUnique(t: Tables) {
    && (forall m :: m in t.managed ==> t.managed[m].identity.instanceUUID != "")
    && (forall m, n | m in t.managed && n in t.managed
                      && t.managed[m].identity.instanceUUID == t.managed[n].identity.instanceUUID ::
          m == n)
  }

  ghost predicate Inv(t: Tables) {
    OneActivePerManagedID(t) && ActionsFit(t) && ClaimsHaveRows(t) && InstancesUnique(t)
  }

  // ---------- what a committed change may do ----------

  /** One step of the enrollment state machine, or none. */
  predicate Moves(a: EnrollmentState, b: EnrollmentState) {
    || a == b
    || (a == PendingState && (b == BoundState || b == RevokedState || b == ExpiredState))
    || (a == BoundState && (b == ClaimedState || b == RevokedState || b == ExpiredState))
  }

  /** What any number of steps can do. */
  predicate Reaches(a: EnrollmentState, b: EnrollmentState) {
    a == PendingState || (a == BoundState && b != PendingState) || a == b
  }

  /** The columns that a first claim fills and nothing changes afterwards. */
  predicate SameBinding(a: Enrollment, b: Enrollment) {
    && a.requestDigest == b.requestDigest && a.keyFingerprint == b.keyFingerprint
    && a.csrDigest == b.csrDigest && a.instanceUUID == b.instanceUUID
    && a.recoveryUntilUnix == b.recoveryUntilUnix
  }

  /** b is a, moved from one state to the next with its terms untouched. */
  predicate Advances(a: Enrollment, b: Enrollment) {
    && b == a.(state := b.state, requestDigest := b.requestDigest, keyFingerprint := b.keyFingerprint,
               csrDigest := b.csrDigest, instanceUUID := b.instanceUUID, recoveryUntilUnix := b.recoveryUntilUnix,
               updatedAtUnix := b.updatedAtUnix)
    && Moves(a.state, b.state)
    && (b.state != BoundState || a.state != PendingState ==> SameBinding(a, b))
  }

  ghost predicate EnrollmentsAdvance(a: Tables, b: Tables) {
    forall i :: i in a.enrollments ==> i in b.enrollments && Advances(a.enrollments[i], b.enrollments[i])
  }

  /** No managed row disappears or changes its instance. */
  ghost predicate InstancesKept(a: Tables, b: Tables) {
    forall m :: m in a.managed ==>
      m in b.managed && b.managed[m].identity.instanceUUID == a.managed[m].identity.instanceUUID
  }

  /** One transaction: nothing at all, or a change that raises the generation by one. */
  ghost predicate Commits(a: Tables, b: Tables) {
    && Inv(b)
    && (b == a || b.generation == a.generation + 1)
    && EnrollmentsAdvance(a, b)
    && InstancesKept(a, b)
  }

  // ---------- runs ----------

  /** A run of transactions from a registry that satisfies the invariant. */
  ghost predicate IsRun(run: seq<Tables>) {
    && run != [] && Inv(run[0])
    && forall k :: 0 <= k < |run| - 1 ==> Commits(run[k], run[k + 1])
  }

  lemma {:induction false} RunKeepsInvariant(run: seq<Tables>, k: nat)
    requires IsRun(run) && k < |run|
    ensures Inv(run[k])
  {
    if k > 0 {
      assert Commits(run[k - 1], run[k - 1 + 1]);
    }
  }

  /** In any run a managed id keeps the instance it first got. */
  lemma {:induction false} InstanceNeverChanges(run: seq<Tables>, i: nat, j: nat, m: string)
    requires IsRun(run) && i <= j < |run| && m in run[i].managed
    ensures m in run[j].managed
    ensures run[j].managed[m].identity.instanceUUID == run[i].managed[m].identity.instanceUUID
  {
    if i < j {
      InstanceNeverChanges(run, i, j - 1, m);
      assert Commits(run[j - 1], run[j - 1 + 1]);
    }
  }

  /** In any run two managed ids never share an instance, even at different times. */
  lemma InstancesNeverShared(run: seq<Tables>, i: nat, j: nat, m: string, n: string)
    requires IsRun(run) && i < |run| && j < |run| && m in run[i].managed && n in run[j].managed
    requires run[i].managed[m].identity.instanceUUID == run[j].managed[n].identity.instanceUUID
    ensures m == n
  {
    var last := if i <= j then j else i;
    InstanceNeverChanges(run, i, last, m);
    InstanceNeverChanges(run, j, last, n);
    RunKeepsInvariant(run, last);
  }

  /** The columns a create writes for good. */
  predicate SameTerms(a: Enrollment, b: Enrollment) {
    && a.purpose == b.purpose && a.action == b.action && a.managedID == b.managedID && a.name == b.name
    && a.agentOriginID == b.agentOriginID && a.agentOrigin == b.agentOrigin && a.tlsServerName == b.tlsServerName
    && a.targetInstanceID == b.targetInstanceID && a.configurationDigest == b.configurationDigest
    && a.secretDigest == b.secretDigest && a.expiresAtUnix == b.expiresAtUnix
    && a.recoveryTTLSeconds == b.recoveryTTLSeconds && a.relaySpecJSON == b.relaySpecJSON
    && a.createdAtUnix == b.createdAtUnix
  }

  lemma {:induction false} EnrollmentHistory(run: seq<Tables>, i: nat, j: nat, id: string)
    requires IsRun(run) && i <= j < |run| && id in run[i].enrollments
    ensures id in run[j].enrollments && SameTerms(run[i].enrollments[id], run[j].enrollments[id])
    ensures Reaches(run[i].enrollments[id].state, run[j].enrollments[id].state)
    ensures run[i].enrollments[id].state != PendingState ==>
      SameBinding(run[i].enrollments[id], run[j].enrollments[id])
  {
    if i < j {
      EnrollmentHistory(run, i, j - 1, id);
      assert Commits(run[j - 1], run[j - 1 + 1]);
      assert Advances(run[j - 1].enrollments[id], run[j].enrollments[id]);
    }
  }

  /** A claim succeeded with these columns: the enrollment is bound or claimed and carries them. */
  predicate ClaimedWith(t: Tables, id: string, request: ClaimRequest, h: Hash) {
    && id in t.enrollments
    && (t.enrollments[id].state == BoundState || t.enrollments[id].state == ClaimedState)
    && t.enrollments[id].requestDigest == request.requestDigest
    && t.enrollments[id].keyFingerprint == request.keyFingerprint
    && t.enrollments[id].csrDigest == h.ofText(request.csrPEM)
    && t.enrollments[id].instanceUUID == InstanceText(request)
  }

  /** All claims that succeed on one enrollment, anywhere in a run, carry one request digest, key, CSR
      digest and instance. Their CSRs differ only if the hash collides on them, and claims that the
      digest can bind are one claim altogether. */
  lemma SuccessfulClaimsAgree(run: seq<Tables>, i: nat, j: nat, id: string,
                              a: ClaimRequest, b: ClaimRequest, h: Hash)
    requires IsRun(run) && i <= j < |run|
    requires ClaimedWith(run[i], id, a, h) && ClaimedWith(run[j], id, b, h)
    ensures a.requestDigest == b.requestDigest && a.keyFingerprint == b.keyFingerprint
    ensures h.ofText(a.csrPEM) == h.ofText(b.csrPEM) && InstanceText(a) == InstanceText(b)
    ensures Apart(h, a.csrPEM, b.csrPEM) ==> a.csrPEM == b.csrPEM
    ensures OneDigest(h, a, b) && a.enrollmentID == b.enrollmentID ==> SameClaim(a, b)
  {
    EnrollmentHistory(run, i, j, id);
    DigestBindsTheClaim(a, b, h);
  }

  lemma {:induction false} GenerationNeverFalls(run: seq<Tables>, i: nat, j: nat)
    requires IsRun(run) && i <= j < |run|
    ensures run[i].generation <= run[j].generation
    ensures run[i].generation == run[j].generation ==> run[i] == run[j]
  {
    if i < j {
      GenerationNeverFalls(run, i, j - 1);
      assert Commits(run[j - 1], run[j - 1 + 1]);
    }
  }
}
