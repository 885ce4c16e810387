/** Whole runs of the login limiter: eviction is unobservable, and failures are bounded in every window. */
module LoginRuns {
  import opened Options
  import opened LoginLimiter

  // ---------------------------------------------------------------- eviction is unobservable

  datatype Call = Check(ip: Ip, at: Time) | Failure(ip: Ip, at: Time) | Success(ip: Ip)

  /** Calls in clock order, the clock being past the first window of the calendar. */
  predicate InOrder(calls: seq<Call>, clock: Time) {
    clock >= FAILURE_WINDOW &&
    (calls == [] ||
     if calls[0].Success? then InOrder(calls[1..], clock)
     else clock <= calls[0].at && InOrder(calls[1..], calls[0].at))
  }

  /** The answers of the limiter to a sequence of calls. */
  function Answers(t: Table, lastSweep: Time, calls: seq<Call>): seq<Option<Time>>
    decreases |calls|
  {
    if calls == [] then []
    else match calls[0]
      case Check(ip, now) =>
        var (t', swept) := AfterCheck(t, lastSweep, now);
        [BanOf(t', ip, now)] + Answers(t', swept, calls[1..])
      case Failure(ip, now) => Answers(Failed(t, ip, now), lastSweep, calls[1..])
      case Success(ip) => Answers(t - {ip}, lastSweep, calls[1..])
  }

  /** The answers of the same limiter without `sweepAttempts`. */
  function AnswersWithoutSweep(t: Table, calls: seq<Call>): seq<Option<Time>>
    decreases |calls|
  {
    if calls == [] then []
    else match calls[0]
      case Check(ip, now) => [BanOf(t, ip, now)] + AnswersWithoutSweep(t, calls[1..])
      case Failure(ip, now) => AnswersWithoutSweep(Failed(t, ip, now), calls[1..])
      case Success(ip) => AnswersWithoutSweep(t - {ip}, calls[1..])
  }

  /** An entry that can no longer influence any answer. */
  predicate Dead(e: Option<LoginAttempts>, now: Time) {
    e.Some? ==> e.value.bannedUntil <= now && now - e.value.lastFailure >= FAILURE_WINDOW
  }

  /** Two entries no later call can tell apart. */
  predicate Alike(a: Option<LoginAttempts>, b: Option<LoginAttempts>, now: Time) {
    || (Dead(a, now) && Dead(b, now))
    || (a.Some? && b.Some? && a.value.failures == b.value.failures && a.value.lastFailure == b.value.lastFailure
        && (a.value.bannedUntil == b.value.bannedUntil || (a.value.bannedUntil <= now && b.value.bannedUntil <= now)))
  }

  ghost predicate AllAlike(s: Table, t: Table, now: Time) {
    forall ip :: Alike(Lookup(s, ip), Lookup(t, ip), now)
  }

  lemma AlikeLater(s: Table, t: Table, now: Time, later: Time)
    requires AllAlike(s, t, now) && now <= later
    ensures AllAlike(s, t, later)
  {
    forall ip ensures Alike(Lookup(s, ip), Lookup(t, ip), later) {
      assert Alike(Lookup(s, ip), Lookup(t, ip), now);
    }
  }

  lemma SweepIsAlike(s: Table, t: Table, now: Time)
    requires AllAlike(s, t, now)
    ensures AllAlike(Swept(s, now), t, now)
  {
    forall ip ensures Alike(Lookup(Swept(s, now), ip), Lookup(t, ip), now) {
      assert Alike(Lookup(s, ip), Lookup(t, ip), now);
      if ip in s && Evictable(s[ip], now) {
        assert Dead(Lookup(s, ip), now);
        assert Lookup(Swept(s, now), ip) == None;
      } else {
        assert Lookup(Swept(s, now), ip) == Lookup(s, ip);
      }
    }
  }

  lemma FailureIsAlike(s: Table, t: Table, ip: Ip, now: Time)
    requires AllAlike(s, t, now) && now >= FAILURE_WINDOW
    ensures AllAlike(Failed(s, ip, now), Failed(t, ip, now), now)
  {
    assert Alike(Lookup(s, ip), Lookup(t, ip), now);
    forall other ensures Alike(Lookup(Failed(s, ip, now), other), Lookup(Failed(t, ip, now), other), now) {
      if other != ip {
        assert Alike(Lookup(s, other), Lookup(t, other), now);
      }
    }
  }

  lemma {:induction false} SweepUnobservable(s: Table, lastSweep: Time, t: Table, calls: seq<Call>, clock: Time)
    requires AllAlike(s, t, clock) && InOrder(calls, clock)
    ensures Answers(s, lastSweep, calls) == AnswersWithoutSweep(t, calls)
    decreases |calls|
  {
    if calls != [] {
      match calls[0]
      case Check(ip, now) =>
        AlikeLater(s, t, clock, now);
        SweepIsAlike(s, t, now);
        var (s', swept) := AfterCheck(s, lastSweep, now);
        assert Alike(Lookup(s', ip), Lookup(t, ip), now);
        SweepUnobservable(s', swept, t, calls[1..], now);
      case Failure(ip, now) =>
        AlikeLater(s, t, clock, now);
        FailureIsAlike(s, t, ip, now);
        SweepUnobservable(Failed(s, ip, now), lastSweep, Failed(t, ip, now), calls[1..], now);
      case Success(ip) =>
        forall other ensures Alike(Lookup(s - {ip}, other), Lookup(t - {ip}, other), clock) {
          assert Alike(Lookup(s, other), Lookup(t, other), clock);
        }
        SweepUnobservable(s - {ip}, lastSweep, t - {ip}, calls[1..], clock);
    }
  }

  /** From the empty table, the sweeping limiter and the one that never evicts answer alike. */
  lemma EvictionIsUnobservable(calls: seq<Call>)
    requires InOrder(calls, FAILURE_WINDOW)
    ensures Answers(map[], 0, calls) == AnswersWithoutSweep(map[], calls)
  {
    SweepUnobservable(map[], 0, map[], calls, FAILURE_WINDOW);
  }

  // ---------------------------------------------------------------- the sliding-window bound

  /** What the middleware does for one request: it arrives, and when it was let in and counts, it finishes
      with the status its handler wrote. */
  datatype Event =
    | Arrive(ip: Ip, at: Time, count: bool)
    | Finish(ip: Ip, at: Time, status: int)

  const UNAUTHORIZED := 401
  const UNPROCESSABLE := 422
  const BAD_REQUEST := 400

  predicate IsFailedLogin(status: int) {
    status == UNAUTHORIZED || status == UNPROCESSABLE
  }

  predicate IsSuccess(status: int) {
    !IsFailedLogin(status) && status < BAD_REQUEST
  }

  /** The limiter together with, for one address, its requests past the check and its recorded failures. */
  datatype System = System(table: Table, lastSweep: Time, clock: Time, inFlight: int, failures: seq<Time>)

  const START := System(map[], 0, FAILURE_WINDOW, 0, [])

  function Step(who: Ip, s: System, e: Event): System {
    match e
    case Arrive(ip, now, count) =>
      var (t, swept) := AfterCheck(s.table, s.lastSweep, now);
      s.(table := t, lastSweep := swept, clock := now,
         inFlight := if ip == who && count && BanOf(t, ip, now).None? then s.inFlight + 1 else s.inFlight)
    case Finish(ip, now, status) =>
      var mine := ip == who;
      s.(clock := now,
         table := if IsFailedLogin(status) then Failed(s.table, ip, now)
                  else if IsSuccess(status) then s.table - {ip} else s.table,
         inFlight := if mine then s.inFlight - 1 else s.inFlight,
         failures := if mine && IsFailedLogin(status) then s.failures + [now] else s.failures)
  }

  function Run(who: Ip, events: seq<Event>): System {
    if events == [] then START else Step(who, Run(who, events[..|events| - 1]), events[|events| - 1])
  }

  /** The clock never runs backwards, requests of `who` finish only after they were let in, none of them
      succeeds, and at most `k` of them are in flight at any moment. */
  predicate Admissible(who: Ip, events: seq<Event>, k: nat) {
    events == [] ||
    (var n := |events| - 1;
     var s, e := Run(who, events[..n]), events[n];
     && Admissible(who, events[..n], k)
     && s.clock <= e.at
     && (e.Finish? && e.ip == who ==> s.inFlight > 0 && !IsSuccess(e.status))
     && Step(who, s, e).inFlight <= k)
  }

  /** `loginLimiter` around one handler: turn a ban away, otherwise run the handler and, when the route
      counts, charge or clear the address. It takes exactly the steps of the run above. */
  method Handle(limiter: Limiter, who: Ip, count: bool, arrival: Time, completion: Time, status: int,
                ghost before: System) returns (ban: Option<Time>)
    requires before.table == limiter.byIP && before.lastSweep == limiter.lastSweep
    modifies limiter
    ensures var arrived := Step(who, before, Arrive(who, arrival, count));
            var after := if ban.None? && count then Step(who, arrived, Finish(who, completion, status)) else arrived;
            && ban == BanOf(arrived.table, who, arrival)
            && limiter.byIP == after.table && limiter.lastSweep == after.lastSweep
            && after.inFlight == before.inFlight
  {
    ban := limiter.LoginBannedUntil(who, arrival);
    if ban.Some? || !count {
      return;
    }
    if IsFailedLogin(status) {
      limiter.RecordLoginFailure(who, completion);
    } else if status < BAD_REQUEST {
      limiter.ClearLoginFailures(who);
    }
  }

  /** Failures recorded in the half-open window of one ban duration from `from`. */
  function CountIn(failures: seq<Time>, from: Time): nat {
    if failures == [] then 0
    else
      var n := |failures| - 1;
      CountIn(failures[..n], from) + (if from <= failures[n] < from + LOGIN_BAN_DURATION then 1 else 0)
  }

  /** Why the window cannot overflow. While it is open, either fewer than three failures fell in it and the
      entry has counted them all, or a ban that outlasts it has begun and only requests already in flight
      can still fail. */
  predicate WindowInv(who: Ip, s: System, from: Time, k: nat) {
    var c := CountIn(s.failures, from);
    && s.inFlight <= k && s.clock >= FAILURE_WINDOW
    && c <= k + 2
    && (who in s.table ==> s.table[who].failures < MAX_FAILED_LOGINS)
    && (s.clock < from + LOGIN_BAN_DURATION ==>
          || (c <= 2 && (c >= 1 ==> who in s.table && c <= s.table[who].failures && from <= s.table[who].lastFailure <= s.clock))
          || (c + s.inFlight <= k + 2 && from <= s.clock && who in s.table && from + LOGIN_BAN_DURATION <= s.table[who].bannedUntil))
  }

  lemma ArriveKeeps(who: Ip, s: System, e: Event, from: Time, k: nat)
    requires e.Arrive? && WindowInv(who, s, from, k) && s.clock <= e.at && Step(who, s, e).inFlight <= k
    ensures WindowInv(who, Step(who, s, e), from, k)
  {
    var t := Step(who, s, e);
    assert t.failures == s.failures;
    assert who in t.table ==> who in s.table && t.table[who] == s.table[who];
  }

  lemma FinishKeeps(who: Ip, s: System, e: Event, from: Time, k: nat)
    requires e.Finish? && WindowInv(who, s, from, k) && s.clock <= e.at && Step(who, s, e).inFlight <= k
    requires e.ip == who ==> s.inFlight > 0 && !IsSuccess(e.status)
    ensures WindowInv(who, Step(who, s, e), from, k)
  {
    var t := Step(who, s, e);
    if e.ip == who && IsFailedLogin(e.status) {
      assert t.failures[..|t.failures| - 1] == s.failures;
      assert CountIn(t.failures, from) ==
             CountIn(s.failures, from) + (if from <= e.at < from + LOGIN_BAN_DURATION then 1 else 0);
      assert t.table[who] == Charge(Lookup(s.table, who).GetOr(NO_ATTEMPTS), e.at);
    } else {
      assert t.failures == s.failures;
      assert Lookup(t.table, who) == Lookup(s.table, who);
    }
  }

  lemma {:induction false} RunKeeps(who: Ip, events: seq<Event>, from: Time, k: nat)
    requires Admissible(who, events, k)
    ensures WindowInv(who, Run(who, events), from, k)
  {
    if events != [] {
      var n := |events| - 1;
      RunKeeps(who, events[..n], from, k);
      var s := Run(who, events[..n]);
      if events[n].Arrive? {
        ArriveKeeps(who, s, events[n], from, k);
      } else {
        FinishKeeps(who, s, events[n], from, k);
      }
    }
  }

  /** With no successful login from an address and at most k of its requests in flight, at most k+2
      failures are recorded in any window of one ban duration - three when requests do not overlap. */
  lemma SlidingWindowBound(who: Ip, events: seq<Event>, k: nat)
    requires Admissible(who, events, k)
    ensures forall from: Time :: CountIn(Run(who, events).failures, from) <= k + 2
  {
    forall from: Time ensures CountIn(Run(who, events).failures, from) <= k + 2 {
      RunKeeps(who, events, from, k);
    }
  }

  // ---------------------------------------------------------------- the bound is reached

  lemma Extend(who: Ip, events: seq<Event>, e: Event, k: nat)
    requires Admissible(who, events, k)
    requires var s := Run(who, events);
             && s.clock <= e.at && (e.Finish? && e.ip == who ==> s.inFlight > 0 && !IsSuccess(e.status))
             && Step(who, s, e).inFlight <= k
    ensures Admissible(who, events + [e], k) && Run(who, events + [e]) == Step(who, Run(who, events), e)
  {
    assert (events + [e])[..|events|] == events;
  }

  predicate AllAt(failures: seq<Time>, at: Time) {
    forall i :: 0 <= i < |failures| ==> failures[i] == at
  }

  lemma {:induction false} CountAll(failures: seq<Time>, at: Time)
    requires AllAt(failures, at)
    ensures CountIn(failures, at) == |failures|
  {
    if failures != [] {
      CountAll(failures[..|failures| - 1], at);
    }
  }

  predicate HasFailed(who: Ip, s: System, n: nat) {
    && s.inFlight == 0 && s.clock == FAILURE_WINDOW && |s.failures| == n && AllAt(s.failures, FAILURE_WINDOW)
    && (if n == 0 then s == START
        else s.lastSweep == FAILURE_WINDOW && who in s.table && s.table[who] == LoginAttempts(n, FAILURE_WINDOW, 0))
  }

  lemma FailOnce(who: Ip, s: System, n: nat)
    requires HasFailed(who, s, n) && n < 2
    ensures var arrived := Step(who, s, Arrive(who, FAILURE_WINDOW, true));
            && arrived.inFlight == 1 && arrived.clock == FAILURE_WINDOW
            && HasFailed(who, Step(who, arrived, Finish(who, FAILURE_WINDOW, UNAUTHORIZED)), n + 1)
  {
  }

  /** Two failures, one after the other. */
  lemma TwoFailures(who: Ip, k: nat) returns (events: seq<Event>)
    requires k >= 1
    ensures Admissible(who, events, k) && HasFailed(who, Run(who, events), 2)
  {
    var arrive, fail := Arrive(who, FAILURE_WINDOW, true), Finish(who, FAILURE_WINDOW, UNAUTHORIZED);
    events := [];
    for i := 0 to 2
      invariant Admissible(who, events, k) && HasFailed(who, Run(who, events), i)
    {
      hide Step, Run, Admissible;
      FailOnce(who, Run(who, events), i);
      Extend(who, events, arrive, k);
      InFlightAfter(who, Run(who, events + [arrive]), fail);
      Extend(who, events + [arrive], fail, k);
      events := events + [arrive] + [fail];
    }
  }

  lemma InFlightAfter(who: Ip, s: System, e: Event)
    requires e.Finish? && e.ip == who && s.inFlight > 0
    ensures Step(who, s, e).inFlight == s.inFlight - 1
  {
  }

  /** The bound is exact: k overlapping requests after two failures record k+2 failures in one window. */
  lemma BoundIsReached(who: Ip, k: nat)
    requires k >= 1
    ensures exists events, from :: Admissible(who, events, k) && CountIn(Run(who, events).failures, from) == k + 2
  {
    var arrive, fail := Arrive(who, FAILURE_WINDOW, true), Finish(who, FAILURE_WINDOW, UNAUTHORIZED);
    var events := TwoFailures(who, k);
    for i := 0 to k
      invariant Admissible(who, events, k)
      invariant var s := Run(who, events);
                && s.inFlight == i && s.clock == FAILURE_WINDOW && s.lastSweep == FAILURE_WINDOW
                && |s.failures| == 2 && AllAt(s.failures, FAILURE_WINDOW)
                && who in s.table && s.table[who] == LoginAttempts(2, FAILURE_WINDOW, 0)
    {
      Extend(who, events, arrive, k);
      events := events + [arrive];
    }
    for i := 0 to k
      invariant Admissible(who, events, k)
      invariant var s := Run(who, events);
                s.inFlight == k - i && s.clock == FAILURE_WINDOW && |s.failures| == 2 + i && AllAt(s.failures, FAILURE_WINDOW)
    {
      Extend(who, events, fail, k);
      events := events + [fail];
    }
    CountAll(Run(who, events).failures, FAILURE_WINDOW);
  }
}
