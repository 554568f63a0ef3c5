/** What the login limiter answers, defined on a log that forgets nothing: every failure of an
    address since its last reset, every ban and every captcha that was not used up. */
module LimiterSpec {
  import opened Wrappers

  /** Durations in nanoseconds. A captcha threshold below zero and a ban threshold of zero mean off. */
  datatype Policy = Policy(captchaThreshold: int, banThreshold: int, attemptsWindow: int, banDuration: int)

  datatype Captcha = Captcha(content: string, answer: string, expiresAt: int)

  datatype Log = Log(failures: map<string, seq<int>>, bannedUntil: map<string, int>, captchas: map<string, Captcha>)

  const MAX_ACTIVE_CAPTCHAS := 4096

  predicate Disabled(p: Policy) {
    p.captchaThreshold < 0 && p.banThreshold == 0
  }

  /** The instants strictly after a cutoff. */
  function After(times: seq<int>, cutoff: int): seq<int> {
    if times == [] then []
    else if times[|times| - 1] > cutoff then After(times[..|times| - 1], cutoff) + [times[|times| - 1]]
    else After(times[..|times| - 1], cutoff)
  }

  function Of(failures: map<string, seq<int>>, ip: string): seq<int> {
    if ip in failures then failures[ip] else []
  }

  /** Failures of an address inside the window that ends at now. */
  function OpenFailures(log: Log, p: Policy, ip: string, now: int): nat {
    |After(Of(log.failures, ip), now - p.attemptsWindow)|
  }

  predicate Banned(log: Log, ip: string, now: int) {
    ip in log.bannedUntil && now <= log.bannedUntil[ip]
  }

  /** A failure counts unless the address is banned; the one that reaches the threshold bans it and
      starts its log afresh. The clock is read for the ban check, the window and the ban's end. */
  function Fail(log: Log, p: Policy, ip: string, checked: int, now: int, ending: int): Log {
    if Disabled(p) || Banned(log, ip, checked) then log
    else if p.banThreshold > 0 && OpenFailures(log, p, ip, now) + 1 >= p.banThreshold then
      Log(log.failures - {ip}, log.bannedUntil[ip := ending + p.banDuration], log.captchas - {ip})
    else log.(failures := log.failures[ip := Of(log.failures, ip) + [now]])
  }

  function Status(log: Log, p: Policy, ip: string, checked: int, now: int): (bool, bool) {
    if Disabled(p) then (false, false)
    else if Banned(log, ip, checked) then (true, false)
    else (false, OpenFailures(log, p, ip, now) >= p.captchaThreshold)
  }

  function Forget(log: Log, ip: string): Log {
    log.(failures := log.failures - {ip})
  }

  /** The captchas that are still good strictly after now. */
  function Unexpired(captchas: map<string, Captcha>, now: int): map<string, Captcha> {
    map id | id in captchas && captchas[id].expiresAt > now :: captchas[id]
  }

  predicate Accepts(log: Log, id: string, answer: string, now: int) {
    id in log.captchas && now <= log.captchas[id].expiresAt && answer == log.captchas[id].answer
  }

  // ---------- windows over a log ----------

  lemma {:induction false} AfterAfter(times: seq<int>, a: int, b: int)
    requires a <= b
    ensures After(After(times, a), b) == After(times, b)
  {
    if times != [] {
      var before, last := times[..|times| - 1], times[|times| - 1];
      AfterAfter(before, a, b);
      if last > a {
        var kept := After(before, a) + [last];
        assert kept[..|kept| - 1] == After(before, a);
      }
    }
  }

  lemma AfterAppend(times: seq<int>, t: int, cutoff: int)
    ensures After(times + [t], cutoff) == After(times, cutoff) + (if t > cutoff then [t] else [])
  {
    assert (times + [t])[..|times|] == times;
  }

  /** What the comments promise: no captcha when the threshold is below zero. */
  predicate DocumentedCaptcha(log: Log, p: Policy, ip: string, checked: int, now: int) {
    p.captchaThreshold >= 0 && !Disabled(p) && !Banned(log, ip, checked)
    && OpenFailures(log, p, ip, now) >= p.captchaThreshold
  }

  /** The code compares with a negative threshold directly, so it departs from the comment exactly
      when captchas are off, bans are on, and the address is not banned. */
  lemma CaptchaAnswerAsDocumented(log: Log, p: Policy, ip: string, checked: int, now: int)
    ensures Status(log, p, ip, checked, now).1 == DocumentedCaptcha(log, p, ip, checked, now) <==>
            p.captchaThreshold >= 0 || p.banThreshold == 0 || Banned(log, ip, checked)
  {
  }

  /** The window that ends at the last of some failures holds fewer than the ban threshold. */
  ghost predicate BelowThreshold(times: seq<int>, p: Policy) {
    times != [] && FewerAfter(times, times[|times| - 1] - p.attemptsWindow, p.banThreshold)
  }

  predicate FewerAfter(times: seq<int>, cutoff: int, bound: int) {
    |After(times, cutoff)| < bound
  }

  ghost predicate NeverFull(log: Log, p: Policy) {
    p.banThreshold > 0 ==> forall ip :: ip in log.failures ==> BelowThreshold(log.failures[ip], p)
  }

  lemma OneMoreStaysBelow(times: seq<int>, p: Policy, now: int, more: seq<int>)
    requires |After(times, now - p.attemptsWindow)| + 1 < p.banThreshold && more == times + [now]
    ensures BelowThreshold(more, p)
  {
    AfterAppend(times, now, now - p.attemptsWindow);
    assert FewerAfter(more, now - p.attemptsWindow, p.banThreshold);
    assert more[|more| - 1] == now;
  }

  /** Counted at its last failure, an address that is not being banned is always below the threshold. */
  lemma FailuresStayBelowTheThreshold(log: Log, p: Policy, ip: string, checked: int, now: int, ending: int)
    requires NeverFull(log, p)
    ensures NeverFull(Fail(log, p, ip, checked, now, ending), p)
  {
    if 0 < p.banThreshold && OpenFailures(log, p, ip, now) + 1 < p.banThreshold {
      OneMoreStaysBelow(Of(log.failures, ip), p, now, Of(log.failures, ip) + [now]);
    }
  }

  // ---------- runs of failures and resets ----------

  datatype Event =
    | Fails(ip: string, checked: int, now: int, ending: int)
    | Resets(ip: string)

  const Empty := Log(map[], map[], map[])

  function Step(log: Log, p: Policy, e: Event): Log {
    match e
    case Fails(ip, checked, now, ending) => Fail(log, p, ip, checked, now, ending)
    case Resets(ip) => Forget(log, ip)
  }

  function Run(log: Log, p: Policy, events: seq<Event>): Log
    decreases |events|
  {
    if events == [] then log else Step(Run(log, p, events[..|events| - 1]), p, events[|events| - 1])
  }

  /** While its ban lasts, no failure of an address counts and nothing moves the end of the ban. */
  lemma {:induction false} BannedFailuresDoNotCount(log: Log, p: Policy, events: seq<Event>, ip: string, until: int)
    requires ip in log.bannedUntil && log.bannedUntil[ip] == until && Of(log.failures, ip) == []
    requires forall e | e in events && e.Fails? && e.ip == ip :: e.checked <= until
    ensures var after := Run(log, p, events);
      ip in after.bannedUntil && after.bannedUntil[ip] == until && Of(after.failures, ip) == []
    decreases |events|
  {
    if events == [] {
    } else {
      BannedFailuresDoNotCount(log, p, events[..|events| - 1], ip, until);
      assert events[|events| - 1] in events;
    }
  }

  /** The failure that reaches the threshold bans the address for exactly the ban duration, through
      any run of further failures and resets in that time, and none of them counts afterwards. */
  lemma ThresholdBans(log: Log, p: Policy, ip: string, checked: int, now: int, ending: int, events: seq<Event>, t: int)
    requires p.banThreshold > 0 && !Banned(log, ip, checked) && OpenFailures(log, p, ip, now) + 1 >= p.banThreshold
    requires forall e | e in events && e.Fails? && e.ip == ip :: e.checked <= ending + p.banDuration
    ensures var after := Run(Fail(log, p, ip, checked, now, ending), p, events);
      && (Banned(after, ip, t) <==> t <= ending + p.banDuration)
      && OpenFailures(after, p, ip, t) == 0
  {
    BannedFailuresDoNotCount(Fail(log, p, ip, checked, now, ending), p, events, ip, ending + p.banDuration);
  }

  /** How many failures of an address came after a cutoff. */
  function FailuresAfter(events: seq<Event>, ip: string, cutoff: int): nat {
    if events == [] then 0
    else
      var e := events[|events| - 1];
      FailuresAfter(events[..|events| - 1], ip, cutoff) + if e.Fails? && e.ip == ip && e.now > cutoff then 1 else 0
  }

  lemma {:induction false} LoggedFailuresHappened(p: Policy, events: seq<Event>, ip: string, cutoff: int)
    ensures |After(Of(Run(Empty, p, events).failures, ip), cutoff)| <= FailuresAfter(events, ip, cutoff)
  {
    if events == [] {
    } else {
      var before, e := Run(Empty, p, events[..|events| - 1]), events[|events| - 1];
      LoggedFailuresHappened(p, events[..|events| - 1], ip, cutoff);
      if e.Fails? && e.ip == ip {
        AfterAppend(Of(before.failures, ip), e.now, cutoff);
      }
    }
  }

  /** The event is the failure that bans this address. */
  predicate BansNow(log: Log, p: Policy, e: Event, ip: string) {
    && e.Fails? && e.ip == ip && !Disabled(p) && !Banned(log, ip, e.checked) && p.banThreshold > 0
    && OpenFailures(log, p, ip, e.now) + 1 >= p.banThreshold
  }

  lemma OnlyBanningBans(log: Log, p: Policy, e: Event, ip: string)
    requires ip in Step(log, p, e).bannedUntil
    ensures if BansNow(log, p, e, ip) then Step(log, p, e).bannedUntil[ip] == e.ending + p.banDuration
            else ip in log.bannedUntil && Step(log, p, e).bannedUntil[ip] == log.bannedUntil[ip]
  {
  }

  /** An address is banned only by a failure with which enough failures fell into one window, and
      until one ban duration after it. */
  lemma {:induction false} BansAreEarned(p: Policy, events: seq<Event>, ip: string) returns (i: nat)
    requires ip in Run(Empty, p, events).bannedUntil
    ensures i < |events| && events[i].Fails? && events[i].ip == ip
    ensures FailuresAfter(events[..i], ip, events[i].now - p.attemptsWindow) + 1 >= p.banThreshold > 0
    ensures Run(Empty, p, events).bannedUntil[ip] == events[i].ending + p.banDuration
  {
    var earlier, e := events[..|events| - 1], events[|events| - 1];
    var before := Run(Empty, p, earlier);
    OnlyBanningBans(before, p, e, ip);
    if BansNow(before, p, e, ip) {
      i := |earlier|;
      LoggedFailuresHappened(p, earlier, ip, e.now - p.attemptsWindow);
    } else {
      i := BansAreEarned(p, earlier, ip);
      assert earlier[..i] == events[..i];
    }
  }

  // ---------- the same answers, from the events alone ----------

  /** The index of the failure that banned the address last. */
  function LastBan(p: Policy, events: seq<Event>, ip: string): (b: Option<nat>)
    ensures b.Some? ==> b.value < |events| && events[b.value].Fails? && events[b.value].ip == ip
    decreases |events|, 1
  {
    if events == [] then None
    else if BansLast(p, events, ip) then Some(|events| - 1)
    else LastBan(p, events[..|events| - 1], ip)
  }

  /** The last event is a failure of the address, outside any ban, with which as many of its failures
      as the ban threshold count in the window that ends with it. */
  predicate BansLast(p: Policy, events: seq<Event>, ip: string)
    requires events != []
    decreases |events|, 0
  {
    var before, e := events[..|events| - 1], events[|events| - 1];
    && e.Fails? && e.ip == ip && p.banThreshold > 0 && !InBan(p, before, ip, e.checked)
    && |Counting(p, before, ip, e.now - p.attemptsWindow)| + 1 >= p.banThreshold
  }

  predicate InBan(p: Policy, events: seq<Event>, ip: string, t: int)
    decreases |events|, 2
  {
    var b := LastBan(p, events, ip);
    b.Some? && t <= events[b.value].ending + p.banDuration
  }

  /** The failures of the address that count: after the cutoff, not reset since, and neither before
      its last ban nor within it. */
  function Counting(p: Policy, events: seq<Event>, ip: string, cutoff: int): set<nat>
    decreases |events|, 2
  {
    var b := LastBan(p, events, ip);
    set i: nat | i < |events| && events[i].Fails? && events[i].ip == ip && events[i].now > cutoff
                 && (forall j | i < j < |events| :: events[j] != Resets(ip))
                 && (b.Some? ==> b.value < i && events[i].checked > events[b.value].ending + p.banDuration)
  }

  ghost predicate LogMatches(log: Log, p: Policy, events: seq<Event>, ip: string) {
    && (forall cutoff :: |After(Of(log.failures, ip), cutoff)| == |Counting(p, events, ip, cutoff)|)
    && (forall t :: Banned(log, ip, t) <==> InBan(p, events, ip, t))
  }

  lemma CountingAfter(p: Policy, events: seq<Event>, e: Event, ip: string, cutoff: int)
    ensures var more, was := Counting(p, events + [e], ip, cutoff), Counting(p, events, ip, cutoff);
      var kept := if e == Resets(ip) || BansLast(p, events + [e], ip) then {} else was;
      var counts := e.Fails? && e.ip == ip && !InBan(p, events, ip, e.checked) && !BansLast(p, events + [e], ip)
                    && e.now > cutoff;
      more == kept + if counts then {|events|} else {}
  {
    var all := events + [e];
    assert all[..|all| - 1] == events && all[|events|] == e;
  }

  lemma BansAlike(log: Log, p: Policy, events: seq<Event>, e: Event, ip: string)
    requires LogMatches(log, p, events, ip)
    ensures BansLast(p, events + [e], ip) <==> BansNow(log, p, e, ip)
    ensures LastBan(p, events + [e], ip) == if BansNow(log, p, e, ip) then Some(|events|) else LastBan(p, events, ip)
  {
    var all := events + [e];
    assert all[..|all| - 1] == events && all[|events|] == e;
  }

  lemma StepKeepsTheBan(log: Log, p: Policy, events: seq<Event>, e: Event, ip: string, t: int)
    requires LogMatches(log, p, events, ip)
    ensures Banned(Step(log, p, e), ip, t) <==> InBan(p, events + [e], ip, t)
  {
    BansAlike(log, p, events, e, ip);
    assert Banned(log, ip, t) <==> InBan(p, events, ip, t);
    var b := LastBan(p, events, ip);
    assert b.Some? ==> (events + [e])[b.value] == events[b.value];
    if BansNow(log, p, e, ip) {
      assert (events + [e])[|events|] == e;
      OnlyBanningBans(log, p, e, ip);
    } else if ip in Step(log, p, e).bannedUntil {
      OnlyBanningBans(log, p, e, ip);
    }
  }

  lemma StepFailures(log: Log, p: Policy, e: Event, ip: string)
    requires !(p.captchaThreshold < 0 && p.banThreshold == 0)
    ensures Of(Step(log, p, e).failures, ip) ==
      if e == Resets(ip) || BansNow(log, p, e, ip) then []
      else if e.Fails? && e.ip == ip && !Banned(log, ip, e.checked) then Of(log.failures, ip) + [e.now]
      else Of(log.failures, ip)
  {
  }

  lemma StepKeepsCounting(log: Log, p: Policy, events: seq<Event>, e: Event, ip: string, cutoff: int)
    requires !(p.captchaThreshold < 0 && p.banThreshold == 0) && LogMatches(log, p, events, ip)
    ensures |After(Of(Step(log, p, e).failures, ip), cutoff)| == |Counting(p, events + [e], ip, cutoff)|
  {
    BansAlike(log, p, events, e, ip);
    CountingAfter(p, events, e, ip, cutoff);
    StepFailures(log, p, e, ip);
    var times, was := Of(log.failures, ip), Counting(p, events, ip, cutoff);
    var more := Counting(p, events + [e], ip, cutoff);
    assert |After(times, cutoff)| == |was|;
    assert |events| !in was;
    if e == Resets(ip) || BansNow(log, p, e, ip) {
      assert more == {};
    } else if e.Fails? && e.ip == ip {
      assert Banned(log, ip, e.checked) <==> InBan(p, events, ip, e.checked);
      AfterAppend(times, e.now, cutoff);
      if Banned(log, ip, e.checked) || e.now <= cutoff {
        assert more == was;
      } else {
        assert more == was + {|events|};
      }
    } else {
      assert more == was;
    }
  }

  /** With limiting on, over any run from the start: an address is banned exactly until the end of its
      last ban, and the failures in its window are those that count. */
  lemma {:induction false} LogIsTheCount(p: Policy, events: seq<Event>, ip: string)
    requires !(p.captchaThreshold < 0 && p.banThreshold == 0)
    ensures LogMatches(Run(Empty, p, events), p, events, ip)
    decreases |events|
  {
    if events == [] {
    } else {
      var before, e := events[..|events| - 1], events[|events| - 1];
      LogIsTheCount(p, before, ip);
      var log := Run(Empty, p, before);
      assert events == before + [e];
      forall cutoff
        ensures |After(Of(Step(log, p, e).failures, ip), cutoff)| == |Counting(p, events, ip, cutoff)|
      {
        StepKeepsCounting(log, p, before, e, ip, cutoff);
      }
      forall t
        ensures Banned(Step(log, p, e), ip, t) <==> InBan(p, events, ip, t)
      {
        StepKeepsTheBan(log, p, before, e, ip, t);
      }
    }
  }

  /** What is answered after any run, in terms of its failures and resets alone: nothing with limiting
      off; otherwise whether a ban of the address has not run out, and if none has, whether as many
      failures as the captcha threshold count. */
  lemma StatusFromEvents(p: Policy, events: seq<Event>, ip: string, checked: int, now: int)
    ensures Status(Run(Empty, p, events), p, ip, checked, now) ==
      if p.captchaThreshold < 0 && p.banThreshold == 0 then (false, false)
      else if InBan(p, events, ip, checked) then (true, false)
      else (false, |Counting(p, events, ip, now - p.attemptsWindow)| >= p.captchaThreshold)
  {
    if !(p.captchaThreshold < 0 && p.banThreshold == 0) {
      LogIsTheCount(p, events, ip);
    }
  }

  predicate BansAt(p: Policy, events: seq<Event>, i: nat, ip: string) {
    i < |events| && BansLast(p, events[..i + 1], ip)
  }

  /** There is a last ban exactly when some failure of the address, outside any earlier ban, brought
      the count of its window up to the threshold; and no later one did. */
  lemma {:induction false} LastBanExactly(p: Policy, events: seq<Event>, ip: string, i: nat)
    requires i < |events|
    ensures BansAt(p, events, i, ip) ==> LastBan(p, events, ip).Some? && LastBan(p, events, ip).value >= i
    ensures LastBan(p, events, ip) == Some(i) ==> BansAt(p, events, i, ip)
    decreases |events|
  {
    var before := events[..|events| - 1];
    if i == |before| {
      assert events[..i + 1] == events;
    } else {
      assert before[..i + 1] == events[..i + 1];
      LastBanExactly(p, before, ip, i);
    }
  }
}

/** The limiter itself: three maps that every method prunes as it goes. Each method runs under the
    limiter's mutex; every reading of the clock is an argument. */
module LoginLimiters {
  import opened Wrappers
  import opened LimiterSpec

  datatype Generated = Generated(id: string, content: string, answer: string)

  datatype CaptchaError = NoProvider | CapacityReached | GenerateFailed

  class LoginLimiter {
    const policy: Policy
    var attempts: map<string, seq<int>>
    var captchas: map<string, Captcha>
    var bannedIPs: map<string, int>
    var hasProvider: bool

    /** The log that nothing is pruned from. */
    ghost var log: Log

    /** The latest reading of the clock. */
    ghost var clock: int

    /** Pruning has lost nothing that a window opening now or later could see. */
    ghost predicate AttemptsMatch()
      reads this
    {
      forall ip, cutoff :: cutoff >= clock - policy.attemptsWindow ==>
        After(Of(attempts, ip), cutoff) == After(Of(log.failures, ip), cutoff)
    }

    ghost predicate BansMatch()
      reads this
    {
      && (forall ip :: ip in bannedIPs ==> ip in log.bannedUntil && log.bannedUntil[ip] == bannedIPs[ip])
      && (forall ip :: ip in log.bannedUntil && clock <= log.bannedUntil[ip] ==> ip in bannedIPs)
    }

    ghost predicate CaptchasMatch()
      reads this
    {
      && (forall id :: id in captchas ==> id in log.captchas && log.captchas[id] == captchas[id])
      && (forall id :: id in log.captchas && clock <= log.captchas[id].expiresAt ==> id in captchas)
    }

    ghost predicate Valid()
      reads this
    {
      AttemptsMatch() && BansMatch() && CaptchasMatch()
    }

    constructor (p: Policy, now: int)
      ensures Valid() && clock == now
      ensures log == Log(map[], map[], map[])
      ensures policy == p.(
        attemptsWindow := if p.attemptsWindow == 0 then 300_000_000_000 else p.attemptsWindow,
        banDuration := if p.banDuration == 0 then 1_800_000_000_000 else p.banDuration)
    {
      policy := p.(
        attemptsWindow := if p.attemptsWindow == 0 then 300_000_000_000 else p.attemptsWindow,
        banDuration := if p.banDuration == 0 then 1_800_000_000_000 else p.banDuration);
      attempts, captchas, bannedIPs, hasProvider := map[], map[], map[], false;
      log, clock := Log(map[], map[], map[]), now;
    }

    /** Drops the address's ban once it has run out. */
    method isBanned(ip: string, now: int) returns (banned: bool)
      requires Valid() && clock <= now
      modifies this`bannedIPs, this`clock
      ensures Valid() && clock == now
      ensures banned == Banned(log, ip, now)
    {
      clock := now;
      if ip !in bannedIPs {
        return false;
      }
      if now > bannedIPs[ip] {
        bannedIPs := bannedIPs - {ip};
        return false;
      }
      banned := true;
    }

    /** Keeps the attempts after the cutoff, in order. */
    method pruneAttempts(ip: string, cutoff: int) returns (valid: seq<int>)
      modifies this`attempts
      ensures valid == After(Of(old(attempts), ip), cutoff)
      ensures Of(attempts, ip) == valid
      ensures forall other :: other != ip ==> Of(attempts, other) == Of(old(attempts), other)
      ensures attempts.Keys <= old(attempts).Keys
    {
      valid := [];
      var times := if ip in attempts then attempts[ip] else [];
      for i := 0 to |times|
        invariant valid == After(times[..i], cutoff)
      {
        assert times[..i + 1][..i] == times[..i];
        if times[i] > cutoff {
          valid := valid + [times[i]];
        }
      }
      assert times[..|times|] == times;
      if |valid| == 0 {
        attempts := attempts - {ip};
      } else {
        attempts := attempts[ip := valid];
      }
    }

    /** Any cut at or before the window's start is invisible to this and every later window. */
    lemma CutIsInvisible(before: map<string, seq<int>>, at: int, ip: string, cutoff: int)
      requires at <= clock && cutoff <= clock - policy.attemptsWindow
      requires forall x, c :: c >= at - policy.attemptsWindow ==>
        After(Of(before, x), c) == After(Of(log.failures, x), c)
      requires Of(attempts, ip) == After(Of(before, ip), cutoff)
      requires forall other :: other != ip ==> Of(attempts, other) == Of(before, other)
      ensures AttemptsMatch()
    {
      forall x, c | c >= clock - policy.attemptsWindow
        ensures After(Of(attempts, x), c) == After(Of(log.failures, x), c)
      {
        if x == ip {
          AfterAfter(Of(before, ip), cutoff, c);
        }
      }
    }

    /** Appends one failure to the pruned attempts and to the log alike. */
    method Note(ip: string, validAttempts: seq<int>, now: int)
      requires Valid() && validAttempts == Of(attempts, ip)
      modifies this`attempts, this`log
      ensures Valid()
      ensures log == old(log).(failures := old(log).failures[ip := Of(old(log).failures, ip) + [now]])
    {
      ghost var was, fails := attempts, log.failures;
      attempts := attempts[ip := validAttempts + [now]];
      log := log.(failures := log.failures[ip := Of(log.failures, ip) + [now]]);
      forall x, c | c >= clock - policy.attemptsWindow
        ensures After(Of(attempts, x), c) == After(Of(log.failures, x), c)
      {
        assert After(Of(was, x), c) == After(Of(fails, x), c);
        if x == ip {
          AfterAppend(validAttempts, now, c);
          AfterAppend(Of(fails, ip), now, c);
        }
      }
    }

    method banIP(ip: string, ending: int)
      requires Valid() && clock <= ending
      modifies this`attempts, this`captchas, this`bannedIPs, this`log
      ensures Valid()
      ensures log == Log(old(log).failures - {ip}, old(log).bannedUntil[ip := ending + policy.banDuration],
                         old(log).captchas - {ip})
    {
      bannedIPs := bannedIPs[ip := ending + policy.banDuration];
      captchas := captchas - {ip};
      log := log.(bannedUntil := log.bannedUntil[ip := ending + policy.banDuration], captchas := log.captchas - {ip});
      RemoveAttempts(ip);
    }

    method RecordFailedAttempt(ip: string, checked: int, now: int, ending: int)
      requires Valid() && clock <= checked <= now <= ending
      modifies this
      ensures Valid() && clock <= ending
      ensures log == Fail(old(log), policy, ip, checked, now, ending)
    {
      if Disabled(policy) {
        return;
      }
      var banned := isBanned(ip, checked);
      if banned {
        return;
      }
      var validAttempts := OpenAttempts(ip, now);
      Note(ip, validAttempts, now);
      if policy.banThreshold > 0 && |validAttempts| + 1 >= policy.banThreshold {
        banIP(ip, ending);
      }
    }

    /** Prunes the address's attempts to the window that ends now. */
    method OpenAttempts(ip: string, now: int) returns (valid: seq<int>)
      requires Valid() && clock <= now
      modifies this`attempts, this`clock
      ensures Valid() && clock == now
      ensures valid == Of(attempts, ip) && |valid| == OpenFailures(log, policy, ip, now)
    {
      ghost var before, at := attempts, clock;
      assert After(Of(before, ip), now - policy.attemptsWindow)
             == After(Of(log.failures, ip), now - policy.attemptsWindow);
      clock := now;
      assert BansMatch();
      assert CaptchasMatch();
      valid := pruneAttempts(ip, now - policy.attemptsWindow);
      CutIsInvisible(before, at, ip, now - policy.attemptsWindow);
    }

    method CheckSecurityStatus(ip: string, checked: int, now: int) returns (banned: bool, captchaRequired: bool)
      requires Valid() && clock <= checked <= now
      modifies this
      ensures Valid() && log == old(log) && clock <= now
      ensures (banned, captchaRequired) == Status(log, policy, ip, checked, now)
    {
      banned, captchaRequired := false, false;
      if Disabled(policy) {
        return;
      }
      banned := isBanned(ip, checked);
      if banned {
        return;
      }
      var valid := OpenAttempts(ip, now);
      captchaRequired := |valid| >= policy.captchaThreshold;
    }

    method RemoveAttempts(ip: string)
      requires Valid()
      modifies this`attempts, this`log
      ensures Valid() && log == Forget(old(log), ip)
    {
      ghost var was, fails := attempts, log.failures;
      if ip in attempts {
        attempts := attempts - {ip};
      }
      log := Forget(log, ip);
      forall x, c | c >= clock - policy.attemptsWindow
        ensures After(Of(attempts, x), c) == After(Of(log.failures, x), c)
      {
        assert After(Of(was, x), c) == After(Of(fails, x), c);
      }
    }

    method RegisterProvider()
      modifies this`hasProvider
      ensures hasProvider
    {
      hasProvider := true;
    }

    method PurgeCaptchas(now: int)
      modifies this`captchas
      ensures captchas == Unexpired(old(captchas), now)
    {
      var rest := captchas.Keys;
      ghost var was := captchas;
      while rest != {}
        invariant rest <= captchas.Keys <= was.Keys
        invariant forall id :: id in was && id !in captchas ==> was[id].expiresAt <= now
        invariant forall id :: id in captchas ==> captchas[id] == was[id] && (id in rest || was[id].expiresAt > now)
        decreases rest
      {
        var id :| id in rest;
        if captchas[id].expiresAt <= now {
          captchas := captchas - {id};
        }
        rest := rest - {id};
      }
    }

    /** generated is what the captcha provider came up with, or its error; expiration is the time it
        gives a captcha. */
    method RequireCaptcha(now: int, generated: Option<Generated>, expiration: int)
      returns (r: Result<Captcha, CaptchaError>)
      requires Valid() && clock <= now
      modifies this`captchas, this`log, this`clock
      ensures Valid() && clock == now
      ensures !hasProvider ==> r == Err(NoProvider) && log == old(log)
      ensures hasProvider ==>
        var open := Unexpired(old(log).captchas, now);
        && (r == Err(CapacityReached) <==> |open| >= MAX_ACTIVE_CAPTCHAS)
        && (r.Ok? <==> |open| < MAX_ACTIVE_CAPTCHAS && generated.Some?)
        && (r.Ok? ==> r.value == Captcha(generated.value.content, generated.value.answer, now + expiration))
        && log == old(log).(captchas := if r.Ok? then open[generated.value.id := r.value] else open)
    {
      clock := now;
      if !hasProvider {
        return Err(NoProvider);
      }
      PurgeCaptchas(now);
      AttemptsWait(old(clock));
      log := log.(captchas := Unexpired(log.captchas, now));
      assert captchas == log.captchas;
      if |captchas| >= MAX_ACTIVE_CAPTCHAS {
        return Err(CapacityReached);
      }
      if generated.None? {
        return Err(GenerateFailed);
      }
      var captcha := Captcha(generated.value.content, generated.value.answer, now + expiration);
      captchas := captchas[generated.value.id := captcha];
      log := log.(captchas := log.captchas[generated.value.id := captcha]);
      r := Ok(captcha);
    }

    /** An answer is accepted while its captcha is open, and at most once. */
    method VerifyCaptcha(id: string, answer: string, now: int) returns (ok: bool)
      requires Valid() && clock <= now
      modifies this`captchas, this`log, this`clock
      ensures Valid() && clock == now
      ensures ok <==> hasProvider && Accepts(old(log), id, answer, now)
      ensures log == if ok then old(log).(captchas := old(log).captchas - {id}) else old(log)
      ensures ok ==> forall a, t :: !Accepts(log, id, a, t)
    {
      clock := now;
      if !hasProvider || id !in captchas {
        return false;
      }
      var captcha := captchas[id];
      if now > captcha.expiresAt {
        captchas := captchas - {id};
        return false;
      }
      if answer == captcha.answer {
        captchas := captchas - {id};
        log := log.(captchas := log.captchas - {id});
        return true;
      }
      ok := false;
    }

    method sweepBans(now: int)
      requires BansMatch() && now <= clock
      modifies this`bannedIPs
      ensures BansMatch()
      ensures forall ip :: ip in bannedIPs <==> ip in old(bannedIPs) && now <= old(bannedIPs)[ip]
    {
      var rest := bannedIPs.Keys;
      while rest != {}
        invariant BansMatch() && rest <= bannedIPs.Keys
        invariant forall ip :: ip in bannedIPs ==> ip in old(bannedIPs) && bannedIPs[ip] == old(bannedIPs)[ip]
        invariant forall ip :: ip in old(bannedIPs) ==>
          (ip in bannedIPs <==> ip in rest || now <= old(bannedIPs)[ip])
        decreases rest
      {
        var ip :| ip in rest;
        if now > bannedIPs[ip] {
          bannedIPs := bannedIPs - {ip};
        }
        rest := rest - {ip};
      }
    }

    method sweepAttempts(now: int)
      requires AttemptsMatch() && now <= clock
      modifies this`attempts
      ensures AttemptsMatch()
      ensures forall ip :: Of(attempts, ip) == After(Of(old(attempts), ip), now - policy.attemptsWindow)
    {
      var rest := attempts.Keys;
      while rest != {}
        invariant AttemptsMatch()
        invariant forall ip | ip in rest :: Of(attempts, ip) == Of(old(attempts), ip)
        invariant forall ip | ip !in rest ::
          Of(attempts, ip) == After(Of(old(attempts), ip), now - policy.attemptsWindow)
        decreases rest
      {
        var ip :| ip in rest;
        ghost var before := attempts;
        var valid := pruneAttempts(ip, now - policy.attemptsWindow);
        CutIsInvisible(before, clock, ip, now - policy.attemptsWindow);
        rest := rest - {ip};
      }
    }

    method sweepCaptchas(readings: string -> int)
      requires CaptchasMatch() && forall id :: readings(id) <= clock
      modifies this`captchas
      ensures CaptchasMatch()
      ensures forall id :: id in captchas <==> id in old(captchas) && readings(id) <= old(captchas)[id].expiresAt
    {
      var rest := captchas.Keys;
      while rest != {}
        invariant CaptchasMatch() && rest <= captchas.Keys
        invariant forall id :: id in captchas ==> id in old(captchas) && captchas[id] == old(captchas)[id]
        invariant forall id :: id in old(captchas) ==>
          (id in captchas <==> id in rest || readings(id) <= old(captchas)[id].expiresAt)
        decreases rest
      {
        var id :| id in rest;
        pruneCaptchas(id, readings(id));
        rest := rest - {id};
      }
    }

    /** The background sweep drops exactly what has lapsed, and changes no entry of the log, so no
        later answer. The clock is read once for bans and attempts, and again for each captcha. */
    method cleanupExpired(now: int, readings: string -> int, later: int)
      requires Valid() && clock <= now <= later && forall id :: now <= readings(id) <= later
      modifies this`bannedIPs, this`attempts, this`captchas, this`clock
      ensures Valid() && log == old(log) && clock == later
      ensures forall ip :: ip in bannedIPs <==> ip in old(bannedIPs) && now <= old(bannedIPs)[ip]
      ensures forall ip :: Of(attempts, ip) == After(Of(old(attempts), ip), now - policy.attemptsWindow)
      ensures forall id :: id in captchas <==> id in old(captchas) && readings(id) <= old(captchas)[id].expiresAt
    {
      clock := later;
      AttemptsWait(old(clock));
      assert BansMatch();
      assert CaptchasMatch();
      sweepBans(now);
      sweepAttempts(now);
      sweepCaptchas(readings);
    }

    lemma AttemptsWait(at: int)
      requires at <= clock
      requires forall ip, cutoff :: cutoff >= at - policy.attemptsWindow ==>
        After(Of(attempts, ip), cutoff) == After(Of(log.failures, ip), cutoff)
      ensures AttemptsMatch()
    {
    }

    method pruneCaptchas(id: string, now: int)
      requires CaptchasMatch() && now <= clock
      modifies this`captchas
      ensures CaptchasMatch()
      ensures captchas == if id in old(captchas) && now > old(captchas)[id].expiresAt
                          then old(captchas) - {id} else old(captchas)
    {
      if id in captchas && now > captchas[id].expiresAt {
        captchas := captchas - {id};
      }
    }
  }
}
