/** What Presence Lease v2 promises about one device, without tables, tokens or cached
    columns: an activation register and the expiry of each lease that has not ended. */
module PresenceSpec {
  import opened Wrappers

  /** The activation a device last reported; epoch 0 means none yet. */
  datatype Register = Register(epoch: nat, id: string, retired: bool)

  datatype Presence = Presence(register: Register, live: map<string, int>)

  const LEASE_TTL: int := 45
  const LEGACY_FALLBACK_AFTER: int := 90
  const LAST_ONLINE_INTERVAL: int := 30

  /** A request for an activation that the register has moved past, or that names another id. */
  predicate Stale(r: Register, epoch: nat, id: string) {
    r.epoch > epoch || (r.epoch == epoch && r.id != "" && r.id != id)
  }

  predicate Current(r: Register, epoch: nat, id: string) {
    r.epoch == epoch && r.id == id
  }

  predicate StartRefused(r: Register, epoch: nat, id: string) {
    Stale(r, epoch, id) || (Current(r, epoch, id) && r.retired)
  }

  function Start(p: Presence, epoch: nat, id: string, lease: string, now: int): Presence {
    if StartRefused(p.register, epoch, id) then p
    else
      var kept := if epoch > p.register.epoch then map[] else p.live;
      Presence(Register(epoch, id, false), kept[lease := now + LEASE_TTL])
  }

  predicate Renewable(p: Presence, epoch: nat, id: string, lease: string, now: int) {
    Current(p.register, epoch, id) && !p.register.retired && lease in p.live && p.live[lease] > now
  }

  function Renew(p: Presence, epoch: nat, id: string, lease: string, now: int): Presence {
    if Renewable(p, epoch, id, lease, now) then p.(live := p.live[lease := now + LEASE_TTL]) else p
  }

  function End(p: Presence, lease: string): Presence {
    p.(live := p.live - {lease})
  }

  function Deactivate(p: Presence, epoch: nat, id: string): Presence {
    if Stale(p.register, epoch, id) then p else Presence(Register(epoch, id, true), map[])
  }

  ghost predicate OnlineAt(p: Presence, t: int) {
    exists lease :: lease in p.live && p.live[lease] > t
  }

  // ---------- the activation register does not depend on arrival order ----------

  datatype Request =
    | StartActivation(epoch: nat, id: string)
    | RetireActivation(epoch: nat, id: string)

  function RegisterStep(r: Register, q: Request): Register {
    match q
    case StartActivation(epoch, id) =>
      if StartRefused(r, epoch, id) then r else Register(epoch, id, false)
    case RetireActivation(epoch, id) =>
      if Stale(r, epoch, id) then r else Register(epoch, id, true)
  }

  function Arrive(qs: seq<Request>): Register
    decreases |qs|
  {
    if qs == [] then Register(0, "", false)
    else RegisterStep(Arrive(qs[..|qs| - 1]), qs[|qs| - 1])
  }

  /** What validatePresenceActivation lets through: a positive epoch and a non-empty id. */
  predicate WellFormed(qs: seq<Request>) {
    forall i :: 0 <= i < |qs| ==> qs[i].epoch > 0 && qs[i].id != ""
  }

  /** All requests for the highest epoch carry one id. */
  ghost predicate TopAgrees(qs: seq<Request>) {
    forall p, q :: p in qs && q in qs && (forall x :: x in qs ==> x.epoch <= p.epoch) && q.epoch == p.epoch ==>
      p.id == q.id
  }

  /** r is the register the requests call for, whatever order they come in. */
  ghost predicate CalledFor(r: Register, qs: multiset<Request>) {
    if qs == multiset{} then r == Register(0, "", false)
    else
      && (forall q :: q in qs ==> q.epoch <= r.epoch)
      && (exists q :: q in qs && q.epoch == r.epoch && q.id == r.id)
      && (r.retired <==> RetireActivation(r.epoch, r.id) in qs)
  }

  lemma CalledForStep(r: Register, qs: multiset<Request>, q: Request)
    requires CalledFor(r, qs) && q.epoch > 0 && q.id != ""
    requires qs != multiset{} ==> r.epoch > 0 && r.id != ""
    ensures CalledFor(RegisterStep(r, q), qs + multiset{q})
  {
    var r', more := RegisterStep(r, q), qs + multiset{q};
    assert q in more;
    assert forall x :: x in more <==> x in qs || x == q;
    if r'.epoch == q.epoch && r'.id == q.id {
      assert exists x :: x in more && x.epoch == r'.epoch && x.id == r'.id;
    } else {
      assert r' == r && qs != multiset{};
      var w: Request :| w in qs && w.epoch == r.epoch && w.id == r.id;
      assert w in more;
    }
    if q.epoch > r.epoch {
      assert RetireActivation(q.epoch, q.id) !in qs;
    }
  }

  /** In any order the register ends at the highest epoch, with an id some request gave that epoch,
      retired exactly when a deactivation of that pair was among the requests. */
  lemma {:induction false} ArrivalsAreCalledFor(qs: seq<Request>)
    requires WellFormed(qs)
    ensures CalledFor(Arrive(qs), multiset(qs))
    ensures qs != [] ==> Arrive(qs).epoch > 0 && Arrive(qs).id != ""
  {
    if qs != [] {
      var before, q := qs[..|qs| - 1], qs[|qs| - 1];
      assert qs == before + [q];
      ArrivalsAreCalledFor(before);
      CalledForStep(Arrive(before), multiset(before), q);
      assert multiset(qs) == multiset(before) + multiset{q};
    }
  }

  /** With one id at the highest epoch, the called-for register is unique. */
  lemma CalledForIsUnique(a: Register, b: Register, qs: seq<Request>)
    requires CalledFor(a, multiset(qs)) && CalledFor(b, multiset(qs)) && TopAgrees(qs)
    ensures a == b
  {
    if qs != [] {
      assert qs[0] in multiset(qs);
      var p: Request :| p in multiset(qs) && p.epoch == a.epoch && p.id == a.id;
      var q: Request :| q in multiset(qs) && q.epoch == b.epoch && q.id == b.id;
      assert p in qs && q in qs;
      assert forall x :: x in qs ==> x in multiset(qs) && x.epoch <= p.epoch;
    }
  }

  /** Where a request was accepted first for the highest epoch, the register keeps its id. */
  lemma {:induction false} FirstAtTheTopWins(q: Request, rest: seq<Request>)
    requires WellFormed([q] + rest) && forall x :: x in rest ==> x.epoch <= q.epoch
    ensures Arrive([q] + rest).epoch == q.epoch && Arrive([q] + rest).id == q.id
  {
    var qs := [q] + rest;
    assert qs[0] == q && q.id != "";
    if rest == [] {
      assert qs == [q] && Arrive([q][..0]) == Register(0, "", false);
    } else {
      assert qs[..|qs| - 1] == [q] + rest[..|rest| - 1];
      FirstAtTheTopWins(q, rest[..|rest| - 1]);
      assert qs[|qs| - 1] in rest;
    }
  }

  /** Any request for the highest epoch can be made to arrive first, and then decides the id. */
  lemma SomeOrderChooses(p: Request, qs: seq<Request>) returns (order: seq<Request>)
    requires p in qs && WellFormed(qs) && forall x :: x in qs ==> x.epoch <= p.epoch
    ensures multiset(order) == multiset(qs) && Arrive(order).id == p.id
  {
    var i :| 0 <= i < |qs| && qs[i] == p;
    var rest := qs[..i] + qs[i + 1..];
    order := [p] + rest;
    assert qs == qs[..i] + [p] + qs[i + 1..];
    FirstAtTheTopWins(p, rest);
  }

  ghost predicate SameForEveryOrder(qs: seq<Request>) {
    forall other: seq<Request> :: multiset(other) == multiset(qs) ==> Arrive(other) == Arrive(qs)
  }

  lemma AgreedTopSettlesOrder(qs: seq<Request>, other: seq<Request>)
    requires WellFormed(qs) && TopAgrees(qs) && multiset(other) == multiset(qs)
    ensures Arrive(other) == Arrive(qs)
  {
    Shuffled(qs, other);
    ArrivalsAreCalledFor(qs);
    ArrivalsAreCalledFor(other);
    CalledForIsUnique(Arrive(other), Arrive(qs), qs);
  }

  lemma DisputedTopDependsOnOrder(qs: seq<Request>)
    requires WellFormed(qs) && !TopAgrees(qs)
    ensures !SameForEveryOrder(qs)
  {
    var p, q :| p in qs && q in qs && (forall x :: x in qs ==> x.epoch <= p.epoch)
                && q.epoch == p.epoch && p.id != q.id;
    var pFirst := SomeOrderChooses(p, qs);
    var qFirst := SomeOrderChooses(q, qs);
    assert Arrive(pFirst).id != Arrive(qFirst).id;
  }

  /** The register is independent of arrival order exactly when the highest epoch carries one id. */
  lemma OrderIndependence(qs: seq<Request>)
    requires WellFormed(qs)
    ensures SameForEveryOrder(qs) <==> TopAgrees(qs)
  {
    if TopAgrees(qs) {
      forall other: seq<Request> | multiset(other) == multiset(qs)
        ensures Arrive(other) == Arrive(qs)
      {
        AgreedTopSettlesOrder(qs, other);
      }
    } else {
      DisputedTopDependsOnOrder(qs);
    }
  }

  lemma Shuffled(qs: seq<Request>, other: seq<Request>)
    requires multiset(other) == multiset(qs) && WellFormed(qs)
    ensures WellFormed(other) && forall x :: x in other <==> x in qs
  {
    assert forall x :: x in qs <==> x in multiset(qs);
    assert forall x :: x in other <==> x in multiset(other);
    assert forall i :: 0 <= i < |other| ==> other[i] in other;
  }

  // ---------- whole runs ----------

  datatype Event =
    | Starts(epoch: nat, id: string, lease: string, now: int)
    | Renews(epoch: nat, id: string, lease: string, now: int)
    | Ends(lease: string)
    | Deactivates(epoch: nat, id: string)

  function Step(p: Presence, e: Event): Presence {
    match e
    case Starts(epoch, id, lease, now) => Start(p, epoch, id, lease, now)
    case Renews(epoch, id, lease, now) => Renew(p, epoch, id, lease, now)
    case Ends(lease) => End(p, lease)
    case Deactivates(epoch, id) => Deactivate(p, epoch, id)
  }

  function Run(p: Presence, events: seq<Event>): Presence
    decreases |events|
  {
    if events == [] then p else Step(Run(p, events[..|events| - 1]), events[|events| - 1])
  }

  predicate NamesActivations(events: seq<Event>) {
    forall i :: 0 <= i < |events| && !events[i].Ends? ==> events[i].epoch > 0 && events[i].id != ""
  }

  /** The register only rises: while its epoch stays, its id stays, and a retired activation never
      comes back nor holds a lease. */
  lemma {:induction false} RegisterOnlyRises(p: Presence, events: seq<Event>)
    requires NamesActivations(events) && (p.register.epoch > 0 ==> p.register.id != "")
    requires p.register.retired ==> p.live == map[]
    ensures var after := Run(p, events);
      && p.register.epoch <= after.register.epoch
      && (after.register.epoch > 0 ==> after.register.id != "")
      && (after.register.epoch == p.register.epoch > 0 ==>
            after.register.id == p.register.id && (p.register.retired ==> after == p))
      && (after.register.retired ==> after.live == map[])
  {
    if events == [] {
    } else {
      var before, e := events[..|events| - 1], events[|events| - 1];
      assert forall i :: 0 <= i < |before| ==> before[i] == events[i];
      RegisterOnlyRises(p, before);
      if e.Ends? && p.register.retired && Run(p, before) == p {
        assert p.live - {e.lease} == p.live;
      }
    }
  }

  const Offline := Presence(Register(0, "", false), map[])

  /** The state that a request meets keeps the lease alive from its instant on. */
  predicate Extends(p: Presence, e: Event, lease: string) {
    || (e.Starts? && e.lease == lease && !StartRefused(p.register, e.epoch, e.id))
    || (e.Renews? && e.lease == lease && Renewable(p, e.epoch, e.id, lease, e.now))
  }

  /** A device is online only on the strength of an accepted start or renewal of its current
      activation, one lease time before the expiry, and nothing since has ended that lease. */
  lemma {:induction false} OnlineMeansHeartbeat(events: seq<Event>, lease: string) returns (i: nat)
    requires NamesActivations(events) && lease in Run(Offline, events).live
    ensures i < |events| && Extends(Run(Offline, events[..i]), events[i], lease)
    ensures Current(Run(Offline, events).register, events[i].epoch, events[i].id)
    ensures Run(Offline, events).live[lease] == events[i].now + 45
    ensures forall j :: i < j < |events| ==> events[j] != Ends(lease)
  {
    var before, e := events[..|events| - 1], events[|events| - 1];
    var p := Run(Offline, before);
    assert forall j :: 0 <= j < |before| ==> before[j] == events[j];
    if Extends(p, e, lease) {
      i := |events| - 1;
    } else {
      RegisterOnlyRises(Offline, before);
      i := OnlineMeansHeartbeat(before, lease);
      assert before[..i] == events[..i];
    }
  }

  /** What an event asks of the register: at most one request. */
  function AsRequest(e: Event): seq<Request> {
    match e
    case Starts(epoch, id, _, _) => [StartActivation(epoch, id)]
    case Deactivates(epoch, id) => [RetireActivation(epoch, id)]
    case _ => []
  }

  /** The activation requests among the events, in order. */
  function Requests(events: seq<Event>): seq<Request> {
    if events == [] then [] else Requests(events[..|events| - 1]) + AsRequest(events[|events| - 1])
  }

  lemma StepFollowsRequest(p: Presence, qs: seq<Request>, e: Event)
    requires p.register == Arrive(qs)
    ensures Step(p, e).register == Arrive(qs + AsRequest(e))
  {
    if AsRequest(e) == [] {
      assert qs + AsRequest(e) == qs;
    } else {
      assert (qs + AsRequest(e))[..|qs|] == qs;
    }
  }

  /** Renewals and ends leave the register alone: it is what the starts and deactivations arrive at. */
  lemma {:induction false} RegisterFollowsRequests(events: seq<Event>)
    ensures Run(Offline, events).register == Arrive(Requests(events))
  {
    if events != [] {
      var before := events[..|events| - 1];
      RegisterFollowsRequests(before);
      StepFollowsRequest(Run(Offline, before), Requests(before), events[|events| - 1]);
    }
  }

  lemma {:induction false} RequestsAreWellFormed(events: seq<Event>)
    requires NamesActivations(events)
    ensures WellFormed(Requests(events))
  {
    if events != [] {
      var before := events[..|events| - 1];
      assert forall i :: 0 <= i < |before| ==> before[i] == events[i];
      RequestsAreWellFormed(before);
    }
  }

  /** So two runs with the same starts and deactivations, in any order and with any renewals and ends
      between them, end in one register when their highest epoch carries one id. */
  lemma RunsAgreeInAnyOrder(a: seq<Event>, b: seq<Event>)
    requires NamesActivations(a) && multiset(Requests(a)) == multiset(Requests(b)) && TopAgrees(Requests(a))
    ensures Run(Offline, a).register == Run(Offline, b).register
  {
    RegisterFollowsRequests(a);
    RegisterFollowsRequests(b);
    RequestsAreWellFormed(a);
    AgreedTopSettlesOrder(Requests(a), Requests(b));
  }

  // ---------- leases from the events alone ----------

  /** The register when an event arrives, from the starts and deactivations before it. */
  function RegisterBefore(events: seq<Event>): Register {
    Arrive(Requests(events))
  }

  /** The event names the current activation, which is not retired. */
  predicate NamesCurrent(r: Register, e: Event) {
    (e.Starts? || e.Renews?) && e.epoch == r.epoch && e.id == r.id && !r.retired
  }

  /** Whether an event is the lease's heartbeat, given the register and the heartbeat before it. A
      start is accepted for a later epoch, and for the current activation while it is not retired; a
      renewal for the current activation, less than 45 seconds after the heartbeat before it. */
  predicate IsBeat(r: Register, before: Option<Event>, e: Event, lease: string)
    requires before.Some? ==> before.value.Starts? || before.value.Renews?
  {
    || (e.Starts? && e.lease == lease && (e.epoch > r.epoch || NamesCurrent(r, e)))
    || (e.Renews? && e.lease == lease && NamesCurrent(r, e) && before.Some?
        && NamesCurrent(r, before.value) && e.now < before.value.now + 45)
  }

  /** The last heartbeat of a lease that no end came after. */
  function Beat(events: seq<Event>, lease: string): (b: Option<Event>)
    ensures b.Some? ==> (b.value.Starts? || b.value.Renews?) && b.value.lease == lease && b.value in events
  {
    if events == [] then None
    else
      var before, e := events[..|events| - 1], events[|events| - 1];
      if e == Ends(lease) then None
      else if IsBeat(RegisterBefore(before), Beat(before, lease), e, lease) then Some(e)
      else Beat(before, lease)
  }

  /** What the lease table holds of one lease: its last heartbeat, while the activation is current. */
  predicate Agrees(p: Presence, beat: Option<Event>, lease: string)
    requires beat.Some? ==> beat.value.Starts? || beat.value.Renews?
  {
    && (beat.Some? ==> 0 < beat.value.epoch <= p.register.epoch)
    && (lease in p.live <==> beat.Some? && NamesCurrent(p.register, beat.value))
    && (lease in p.live ==> p.live[lease] == beat.value.now + 45)
  }

  /** What every register of a run is like. */
  predicate Named(r: Register) {
    (r.epoch > 0 ==> r.id != "") && (r.epoch == 0 ==> !r.retired)
  }

  lemma StepAgrees(p: Presence, beat: Option<Event>, e: Event, lease: string)
    requires beat.Some? ==> (beat.value.Starts? || beat.value.Renews?) && beat.value.lease == lease
    requires Agrees(p, beat, lease) && Named(p.register) && (e.Ends? || (e.epoch > 0 && e.id != ""))
    ensures Agrees(Step(p, e), if e == Ends(lease) then None
                               else if IsBeat(p.register, beat, e, lease) then Some(e) else beat, lease)
    ensures Named(Step(p, e).register)
  {
  }

  lemma {:induction false} RunAgrees(events: seq<Event>, lease: string)
    requires NamesActivations(events)
    ensures Agrees(Run(Offline, events), Beat(events, lease), lease) && Named(Run(Offline, events).register)
  {
    if events != [] {
      var before, e := events[..|events| - 1], events[|events| - 1];
      assert forall j :: 0 <= j < |before| ==> before[j] == events[j];
      RunAgrees(before, lease);
      RegisterFollowsRequests(before);
      StepAgrees(Run(Offline, before), Beat(before, lease), e, lease);
    }
  }

  /** The lease's last heartbeat names the current, un-retired activation, and was less than 45 seconds
      before the given end. */
  predicate BeatsPast(events: seq<Event>, lease: string, t: int) {
    && Beat(events, lease).Some? && NamesCurrent(RegisterBefore(events), Beat(events, lease).value)
    && t < Beat(events, lease).value.now + 45
  }

  /** A lease is live until 45 seconds after its last accepted start or renewal, exactly while that
      names the current, un-retired activation and no end came after it. */
  lemma LiveExactlyByHeartbeat(events: seq<Event>, lease: string, until: int)
    requires NamesActivations(events)
    ensures var p, beat := Run(Offline, events), Beat(events, lease);
      (lease in p.live && p.live[lease] == until) <==>
        (beat.Some? && NamesCurrent(RegisterBefore(events), beat.value) && until == beat.value.now + 45)
  {
    RunAgrees(events, lease);
    RegisterFollowsRequests(events);
  }

  /** So the device is online at t exactly when some lease had its last heartbeat less than 45 seconds
      before, and neither an end nor another activation came after. */
  lemma OnlineExactlyByHeartbeat(events: seq<Event>, t: int)
    requires NamesActivations(events)
    ensures OnlineAt(Run(Offline, events), t) <==> exists lease :: BeatsPast(events, lease, t)
  {
    var p := Run(Offline, events);
    forall lease
      ensures (lease in p.live && p.live[lease] > t) <==> BeatsPast(events, lease, t)
    {
      RunAgrees(events, lease);
      RegisterFollowsRequests(events);
    }
    if OnlineAt(p, t) {
      var lease :| lease in p.live && p.live[lease] > t;
      assert BeatsPast(events, lease, t);
    }
  }
}
