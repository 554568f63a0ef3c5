/** Concurrent update and delete transactions on user rows. Each takes the enabled-admin invariant
    row first, then reads its target, counts the enabled super administrators where it has to, and
    commits what it decided from those reads, unless it fails and rolls back. Account creation and
    local recovery take no lock. */
module AdminLock {
  import opened AccountSpec

  datatype Request =
    | Change(id: nat, payload: Payload)
    | Remove(id: nat)

  datatype Phase =
    | Waiting
    | Locked
    | HasRow(current: User)
    | HasCount(current: User, count: nat)
    | Finished

  datatype Tx = Tx(request: Request, phase: Phase)

  datatype State = State(t: Tables, txs: seq<Tx>)

  datatype Event =
    | Begins(request: Request)
    | Acquires(tx: nat)
    | Finds(tx: nat)
    | Counts(tx: nat)
    | Commits(tx: nat)
    | Aborts(tx: nat)
    | Recovers(id: nat)
    | Creates(role: Role, isAdmin: bool, status: int)
    | Bumps(id: nat)

  predicate Holds(tx: Tx) {
    !tx.phase.Waiting? && !tx.phase.Finished?
  }

  predicate WellFormed(r: Request) {
    r.Change? ==> r.payload.status == ENABLED || r.payload.status == DISABLED
  }

  /** Whether the request takes an enabled super administrator away, as far as the row it read says. */
  predicate Removes(r: Request, current: User) {
    if r.Change? then RemovesEnabledSuper(current, r.payload) else EnabledSuper(current)
  }

  /** A delete always counts; an update counts only when it removes an enabled super administrator. */
  predicate MustCount(r: Request, current: User) {
    r.Remove? || Removes(r, current)
  }

  predicate Ready(tx: Tx) {
    (tx.phase.HasRow? && !MustCount(tx.request, tx.phase.current)) || tx.phase.HasCount?
  }

  predicate Refused(tx: Tx) {
    tx.phase.HasCount? && Removes(tx.request, tx.phase.current) && tx.phase.count <= 1
  }

  /** The row an update leaves: role and status follow from the row it read, and a version it does
      not carry stays as stored. */
  function Decided(stored: User, current: User, p: Payload): User {
    Written(current, p).(authVersion := if p.authVersion == 0 then stored.authVersion else p.authVersion)
  }

  function Committed(t: Tables, r: Request, current: User): Tables {
    match r
    case Remove(id) => t.(users := t.users - {id}, tokens := RevokeAll(t.tokens, id))
    case Change(id, p) =>
      if id !in t.users then t
      else
        var w := t.(users := t.users[id := Decided(t.users[id], current, p)]);
        if BumpsVersion(current, p) then Bump(w, id) else w
  }

  function Enter(s: State, i: nat, phase: Phase): State
    requires i < |s.txs|
  {
    s.(txs := s.txs[i := s.txs[i].(phase := phase)])
  }

  /** With the lock, a transaction enters only while no other holds the row; the alternative shows
      what the lock is for. */
  function Step(locking: bool, s: State, e: Event): State {
    match e
    case Begins(r) => if WellFormed(r) then s.(txs := s.txs + [Tx(r, Waiting)]) else s
    case Acquires(i) =>
      if i < |s.txs| && s.txs[i].phase.Waiting?
         && (locking ==> forall j | 0 <= j < |s.txs| :: !Holds(s.txs[j]))
      then Enter(s, i, Locked) else s
    case Finds(i) =>
      if i < |s.txs| && s.txs[i].phase.Locked? then
        var id := s.txs[i].request.id;
        Enter(s, i, if id in s.t.users then HasRow(s.t.users[id]) else Finished)
      else s
    case Counts(i) =>
      if i < |s.txs| && s.txs[i].phase.HasRow? && MustCount(s.txs[i].request, s.txs[i].phase.current)
      then Enter(s, i, HasCount(s.txs[i].phase.current, |Supers(s.t.users)|)) else s
    case Commits(i) =>
      if i < |s.txs| && Ready(s.txs[i]) then
        var done := Enter(s, i, Finished);
        if Refused(s.txs[i]) then done
        else done.(t := Committed(s.t, s.txs[i].request, s.txs[i].phase.current))
      else s
    case Aborts(i) => if i < |s.txs| then Enter(s, i, Finished) else s
    case Recovers(id) => s.(t := Recover(s.t, id))
    case Creates(role, isAdmin, status) => s.(t := Create(s.t, role, isAdmin, status))
    case Bumps(id) => if id in s.t.users then s.(t := Bump(s.t, id)) else s
  }

  function Run(locking: bool, s: State, events: seq<Event>): State
    decreases |events|
  {
    if events == [] then s else Step(locking, Run(locking, s, events[..|events| - 1]), events[|events| - 1])
  }

  ghost predicate HasSuper(t: Tables) {
    exists id :: id in t.users && EnabledSuper(t.users[id])
  }

  ghost predicate OtherSuper(t: Tables, id: nat) {
    exists x :: x in t.users && x != id && EnabledSuper(t.users[x])
  }

  /** At most one transaction holds the lock, and the row it read is still there. */
  ghost predicate Exclusive(s: State) {
    && (forall i, j :: 0 <= i < |s.txs| && 0 <= j < |s.txs| && Holds(s.txs[i]) && Holds(s.txs[j]) ==> i == j)
    && (forall i :: 0 <= i < |s.txs| && (s.txs[i].phase.HasRow? || s.txs[i].phase.HasCount?) ==>
          s.txs[i].request.id in s.t.users)
    && (forall i :: 0 <= i < |s.txs| ==> WellFormed(s.txs[i].request))
    && (forall id :: id in s.t.users ==> id < s.t.nextUser)
  }

  /** What the transaction will do can not take the last super administrator: it will count, or it
      counted and is refused, or it leaves one itself, or there is another one. */
  ghost predicate Harmless(t: Tables, tx: Tx) {
    match tx.phase
    case HasRow(current) =>
      Removes(tx.request, current) || LeavesSuper(tx.request, current) || OtherSuper(t, tx.request.id)
    case HasCount(current, _) =>
      Refused(tx) || LeavesSuper(tx.request, current) || OtherSuper(t, tx.request.id)
    case _ => true
  }

  predicate LeavesSuper(r: Request, current: User) {
    r.Change? && EnabledSuper(Written(current, r.payload))
  }

  ghost predicate Guarded(s: State) {
    forall i :: 0 <= i < |s.txs| ==> Harmless(s.t, s.txs[i])
  }

  lemma TwoSupersMeanAnother(t: Tables, id: nat)
    requires |Supers(t.users)| > 1
    ensures OtherSuper(t, id)
  {
    var rest := Supers(t.users) - {id};
    assert |rest| >= |Supers(t.users)| - 1 && rest != {};
    var x :| x in rest;
    assert x in t.users && EnabledSuper(t.users[x]);
  }

  ghost predicate NoneDemoted(a: Tables, b: Tables) {
    forall id :: id in a.users && EnabledSuper(a.users[id]) ==> id in b.users && EnabledSuper(b.users[id])
  }

  lemma OthersStay(a: Tables, b: Tables, id: nat)
    requires NoneDemoted(a, b)
    ensures OtherSuper(a, id) ==> OtherSuper(b, id)
    ensures HasSuper(a) ==> HasSuper(b)
  {
    if OtherSuper(a, id) {
      var x :| x in a.users && x != id && EnabledSuper(a.users[x]);
      assert x in b.users && x != id && EnabledSuper(b.users[x]);
    }
    if HasSuper(a) {
      var x :| x in a.users && EnabledSuper(a.users[x]);
      assert x in b.users && EnabledSuper(b.users[x]);
    }
  }

  /** A commit of a harmless transaction leaves a super administrator. */
  lemma CommitKeepsSuper(t: Tables, tx: Tx)
    requires Ready(tx) && Harmless(t, tx) && WellFormed(tx.request) && tx.request.id in t.users
    requires !Refused(tx)
    ensures HasSuper(Committed(t, tx.request, tx.phase.current))
  {
    var id, current := tx.request.id, tx.phase.current;
    var after := Committed(t, tx.request, current);
    if LeavesSuper(tx.request, current) {
      assert id in after.users && EnabledSuper(after.users[id]);
    } else {
      var x :| x in t.users && x != id && EnabledSuper(t.users[x]);
      assert x in after.users && EnabledSuper(after.users[x]);
    }
  }

  lemma FindIsHarmless(t: Tables, r: Request)
    requires HasSuper(t) && r.id in t.users && WellFormed(r)
    ensures Harmless(t, Tx(r, HasRow(t.users[r.id])))
  {
    if !EnabledSuper(t.users[r.id]) {
      var x :| x in t.users && EnabledSuper(t.users[x]);
      assert x != r.id;
    }
  }

  lemma TableStepStaysExclusive(s: State, e: Event)
    requires Exclusive(s) && (e.Recovers? || e.Creates? || e.Bumps?)
    ensures Exclusive(Step(true, s, e))
  {
  }

  lemma CommitStaysExclusive(s: State, i: nat)
    requires Exclusive(s)
    ensures Exclusive(Step(true, s, Commits(i)))
  {
  }

  lemma StepStaysExclusive(s: State, e: Event)
    requires Exclusive(s)
    ensures Exclusive(Step(true, s, e))
  {
    if e.Commits? {
      CommitStaysExclusive(s, e.tx);
    } else if e.Recovers? || e.Creates? || e.Bumps? {
      TableStepStaysExclusive(s, e);
    }
  }

  lemma OtherStepsStayGuarded(s: State, e: Event)
    requires Exclusive(s) && Guarded(s) && !e.Commits? && !e.Finds? && !e.Counts?
    ensures NoneDemoted(s.t, Step(true, s, e).t) && Guarded(Step(true, s, e))
  {
    var after := Step(true, s, e);
    forall i | 0 <= i < |after.txs|
      ensures Harmless(after.t, after.txs[i])
    {
      OthersStay(s.t, after.t, after.txs[i].request.id);
    }
  }

  lemma FindStaysGuarded(s: State, i: nat)
    requires Exclusive(s) && Guarded(s) && HasSuper(s.t)
    ensures Guarded(Step(true, s, Finds(i)))
  {
    if i < |s.txs| && s.txs[i].phase.Locked? && s.txs[i].request.id in s.t.users {
      FindIsHarmless(s.t, s.txs[i].request);
    }
  }

  lemma CountStaysGuarded(s: State, i: nat)
    requires Guarded(s)
    ensures Guarded(Step(true, s, Counts(i)))
  {
    if i < |s.txs| && |Supers(s.t.users)| > 1 {
      TwoSupersMeanAnother(s.t, s.txs[i].request.id);
    }
  }

  lemma CommitStaysGuarded(s: State, i: nat)
    requires Exclusive(s) && Guarded(s) && HasSuper(s.t)
    ensures Guarded(Step(true, s, Commits(i))) && HasSuper(Step(true, s, Commits(i)).t)
  {
    if i < |s.txs| && Ready(s.txs[i]) {
      if !Refused(s.txs[i]) {
        CommitKeepsSuper(s.t, s.txs[i]);
      }
      var after := Step(true, s, Commits(i));
      forall j | 0 <= j < |after.txs|
        ensures Harmless(after.t, after.txs[j])
      {
        assert j != i ==> !Holds(s.txs[j]);
      }
    }
  }

  lemma StepKeepsSuper(s: State, e: Event)
    requires Exclusive(s) && Guarded(s) && HasSuper(s.t)
    ensures Guarded(Step(true, s, e)) && HasSuper(Step(true, s, e).t)
  {
    match e
    case Commits(i) => CommitStaysGuarded(s, i);
    case Finds(i) => FindStaysGuarded(s, i);
    case Counts(i) => CountStaysGuarded(s, i);
    case _ =>
      OtherStepsStayGuarded(s, e);
      OthersStay(s.t, Step(true, s, e).t, 0);
  }

  lemma {:induction false} RunKeepsSuper(s: State, events: seq<Event>)
    requires Exclusive(s) && Guarded(s) && HasSuper(s.t)
    ensures Exclusive(Run(true, s, events)) && Guarded(Run(true, s, events)) && HasSuper(Run(true, s, events).t)
    decreases |events|
  {
    if events != [] {
      RunKeepsSuper(s, events[..|events| - 1]);
      StepStaysExclusive(Run(true, s, events[..|events| - 1]), events[|events| - 1]);
      StepKeepsSuper(Run(true, s, events[..|events| - 1]), events[|events| - 1]);
    }
  }

  /** Every transaction is still waiting for the lock, or is done. */
  ghost predicate Quiet(s: State) {
    forall i :: 0 <= i < |s.txs| ==> !Holds(s.txs[i])
  }

  /** The order a transaction follows to its end. */
  function Finish(i: nat, tx: Tx): seq<Event> {
    match tx.phase
    case HasRow(current) => if MustCount(tx.request, current) then [Counts(i), Commits(i)] else [Commits(i)]
    case HasCount(_, _) => [Commits(i)]
    case _ => []
  }

  /** A transaction that is not harmless can take the last super administrator. */
  lemma {:induction false} HarmfulTakesTheLast(s: State, i: nat)
    requires Exclusive(s) && i < |s.txs| && !Harmless(s.t, s.txs[i])
    ensures !HasSuper(Run(true, s, Finish(i, s.txs[i])).t)
  {
    var tx := s.txs[i];
    var events := Finish(i, tx);
    var id := tx.request.id;
    assert Run(true, s, events[..0]) == s;
    assert events[..1][..0] == events[..0];
    var a := Step(true, s, events[0]);
    assert Run(true, s, events[..1]) == a;
    if |events| == 2 {
      assert events[..2] == events && Run(true, s, events) == Step(true, a, events[1]);
    } else {
      assert events[..1] == events;
    }
    var current := tx.phase.current;
    assert Run(true, s, events).t == Committed(s.t, tx.request, current);
    var after := Committed(s.t, tx.request, current);
    forall x | x in after.users
      ensures !EnabledSuper(after.users[x])
    {
      assert x != id ==> !EnabledSuper(s.t.users[x]);
    }
  }

  /** With the lock, an enabled super administrator that exists remains in every run exactly when no
      transaction in flight holds a stale row: one that was read while there was none, and whose
      target has been made the only one since. */
  lemma SuperRemainsExactlyWhenGuarded(s: State)
    requires Exclusive(s) && HasSuper(s.t)
    ensures Guarded(s) <==> forall events :: HasSuper(Run(true, s, events).t)
  {
    if Guarded(s) {
      forall events
        ensures HasSuper(Run(true, s, events).t)
      {
        RunKeepsSuper(s, events);
      }
    } else {
      var i :| 0 <= i < |s.txs| && !Harmless(s.t, s.txs[i]);
      HarmfulTakesTheLast(s, i);
    }
  }

  /** So whatever updates, deletes, recoveries and creations interleave, the enabled super
      administrators never run out once one exists and no transaction is past taking the lock. */
  lemma SomeSuperAlwaysRemains(s: State, events: seq<Event>)
    requires Exclusive(s) && Quiet(s) && HasSuper(s.t)
    ensures HasSuper(Run(true, s, events).t)
  {
    RunKeepsSuper(s, events);
  }

  function Atomic(t: Tables, r: Request): Tables {
    match r
    case Change(id, p) => Update(t, id, p)
    case Remove(id) => Delete(t, id)
  }

  lemma {:induction false} Steps4(locking: bool, s: State, e0: Event, e1: Event, e2: Event, e3: Event)
    ensures Run(locking, s, [e0, e1, e2, e3]) ==
            Step(locking, Step(locking, Step(locking, Step(locking, s, e0), e1), e2), e3)
  {
    var events := [e0, e1, e2, e3];
    assert Run(locking, s, []) == s;
    assert [e0][..0] == [] && Run(locking, s, [e0]) == Step(locking, s, e0);
    assert [e0, e1][..1] == [e0] && [e0, e1, e2][..2] == [e0, e1] && events[..3] == [e0, e1, e2];
    assert Run(locking, s, [e0, e1, e2]) == Step(locking, Run(locking, s, [e0, e1]), e2);
  }

  /** From a quiet state a waiting transaction takes the lock and reads its target. */
  lemma QuietRead(s: State, i: nat)
    requires Quiet(s) && i < |s.txs| && s.txs[i].phase.Waiting?
    ensures
      var r := s.txs[i].request;
      var phase := if r.id in s.t.users then HasRow(s.t.users[r.id]) else Finished;
      Step(true, Step(true, s, Acquires(i)), Finds(i)) == s.(txs := s.txs[i := Tx(r, phase)])
  {
    var locked := Step(true, s, Acquires(i));
    assert locked.txs[i].phase == Locked && locked.t == s.t;
    assert s.txs[i := locked.txs[i]] == locked.txs;
  }

  /** Undisturbed, the steps of one transaction do what the atomic update or delete does. */
  lemma UndisturbedIsAtomic(s: State, i: nat)
    requires Exclusive(s) && Quiet(s) && i < |s.txs| && s.txs[i].phase.Waiting?
    ensures Run(true, s, [Acquires(i), Finds(i), Counts(i), Commits(i)]).t == Atomic(s.t, s.txs[i].request)
  {
    Steps4(true, s, Acquires(i), Finds(i), Counts(i), Commits(i));
    QuietRead(s, i);
    var r := s.txs[i].request;
    assert WellFormed(r);
    if r.id in s.t.users {
      CommitsAtomically(s.(txs := s.txs[i := Tx(r, HasRow(s.t.users[r.id]))]), i);
    }
  }

  lemma CommitsAtomically(s: State, i: nat)
    requires i < |s.txs| && s.txs[i].request.id in s.t.users && WellFormed(s.txs[i].request)
    requires s.txs[i].phase == HasRow(s.t.users[s.txs[i].request.id])
    ensures Step(true, Step(true, s, Counts(i)), Commits(i)).t == Atomic(s.t, s.txs[i].request)
  {
    var r := s.txs[i].request;
    if r.Change? {
      assert Decided(s.t.users[r.id], s.t.users[r.id], r.payload) == Written(s.t.users[r.id], r.payload);
    }
  }

  /** Where no super administrator exists, an update that read its target before a recovery of the
      same user takes the recovered role away again: recovery does not take the lock. */
  lemma RecoveryCanBeUndone(s: State, i: nat, p: Payload)
    requires Exclusive(s) && Quiet(s) && !HasSuper(s.t) && i < |s.txs| && s.txs[i].request.id in s.t.users
    requires s.txs[i] == Tx(Change(s.txs[i].request.id, p), Waiting)
    requires !LeavesSuper(s.txs[i].request, s.t.users[s.txs[i].request.id])
    ensures
      var id := s.txs[i].request.id;
      && HasSuper(Step(true, Step(true, Step(true, s, Acquires(i)), Finds(i)), Recovers(id)).t)
      && !HasSuper(Run(true, s, [Acquires(i), Finds(i), Recovers(id), Commits(i)]).t)
  {
    var id := s.txs[i].request.id;
    Steps4(true, s, Acquires(i), Finds(i), Recovers(id), Commits(i));
    QuietRead(s, i);
    assert !EnabledSuper(s.t.users[id]);
    CommitAfterRecovery(s.(txs := s.txs[i := Tx(Change(id, p), HasRow(s.t.users[id]))]), i, s.t.users[id]);
    LeavesNone(s.t, Recover(s.t, id), id, s.t.users[id], p);
  }

  lemma CommitAfterRecovery(read: State, i: nat, current: User)
    requires i < |read.txs| && read.txs[i].phase == HasRow(current) && read.txs[i].request.Change?
    requires read.txs[i].request.id in read.t.users && !MustCount(read.txs[i].request, current)
    ensures
      var r := read.txs[i].request;
      var recovered := Step(true, read, Recovers(r.id));
      && HasSuper(recovered.t)
      && Step(true, recovered, Commits(i)).t == Committed(Recover(read.t, r.id), r, current)
  {
    var recovered := Step(true, read, Recovers(read.txs[i].request.id));
    assert recovered.txs == read.txs && Ready(recovered.txs[i]);
    assert EnabledSuper(recovered.t.users[read.txs[i].request.id]);
  }

  /** Writing what an older row decided leaves no super administrator where only the target is one. */
  lemma LeavesNone(before: Tables, t: Tables, id: nat, current: User, p: Payload)
    requires !HasSuper(before) && id in t.users && !LeavesSuper(Change(id, p), current)
    requires t.users.Keys == before.users.Keys && forall x :: x in t.users && x != id ==> t.users[x] == before.users[x]
    ensures !HasSuper(Committed(t, Change(id, p), current))
  {
    var after := Committed(t, Change(id, p), current);
    forall x | x in after.users
      ensures !EnabledSuper(after.users[x])
    {
      assert x != id ==> !EnabledSuper(before.users[x]);
    }
  }

  /** Both deletes have read their target and wait to count. */
  ghost predicate BothRead(s: State, a: nat, b: nat) {
    && a in s.t.users && b in s.t.users && EnabledSuper(s.t.users[a]) && EnabledSuper(s.t.users[b])
    && s.txs == [Tx(Remove(a), HasRow(s.t.users[a])), Tx(Remove(b), HasRow(s.t.users[b]))]
  }

  lemma {:induction false} BothCommit(s: State, a: nat, b: nat)
    requires a != b && BothRead(s, a, b) && Supers(s.t.users) == {a, b}
    requires forall id :: id in s.t.users && EnabledSuper(s.t.users[id]) ==> id == a || id == b
    ensures !HasSuper(Run(false, s, [Counts(0), Counts(1), Commits(0), Commits(1)]).t)
  {
    Steps4(false, s, Counts(0), Counts(1), Commits(0), Commits(1));
    var counted := Step(false, Step(false, s, Counts(0)), Counts(1));
    assert counted.txs == [Tx(Remove(a), HasCount(s.t.users[a], 2)), Tx(Remove(b), HasCount(s.t.users[b], 2))];
    var one := Step(false, counted, Commits(0));
    assert one.t == Committed(s.t, Remove(a), s.t.users[a]);
  }

  /** Without the lock, two deletes that both count two super administrators leave none. */
  lemma {:induction false} WithoutTheLockBothGo(s: State, a: nat, b: nat)
    requires a != b && a in s.t.users && b in s.t.users && Supers(s.t.users) == {a, b}
    requires forall id :: id in s.t.users && EnabledSuper(s.t.users[id]) ==> id == a || id == b
    requires s.txs == [Tx(Remove(a), Waiting), Tx(Remove(b), Waiting)]
    ensures
      var both := Run(false, s, [Acquires(0), Finds(0), Acquires(1), Finds(1)]);
      HasSuper(both.t) && !HasSuper(Run(false, both, [Counts(0), Counts(1), Commits(0), Commits(1)]).t)
  {
    Steps4(false, s, Acquires(0), Finds(0), Acquires(1), Finds(1));
    var both := Run(false, s, [Acquires(0), Finds(0), Acquires(1), Finds(1)]);
    assert a in Supers(s.t.users) && b in Supers(s.t.users);
    assert both.t == s.t && BothRead(both, a, b);
    BothCommit(both, a, b);
  }
}
