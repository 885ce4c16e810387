/** When a ban begins and ends, told by the failures alone: a failure bans when it is the third, sixth, ... of a
    streak - failures each less than a window after the one before, since the last success - and the ban lasts
    five minutes from it. */
module LoginBans {
  import opened Options
  import opened LoginLimiter
  import opened LoginRuns

  const MINUTE: nat := 60 * 1_000_000_000

  /** The failures of an address since its last success, in order. */
  function FailureTimes(calls: seq<Call>, who: Ip): seq<Time> {
    if calls == [] then []
    else
      var before := FailureTimes(calls[..|calls| - 1], who);
      match calls[|calls| - 1]
      case Check(_, _) => before
      case Failure(ip, at) => if ip == who then before + [at] else before
      case Success(ip) => if ip == who then [] else before
  }

  /** How many failures there are in the streak that the last one belongs to. */
  function Streak(times: seq<Time>): (k: nat)
    ensures k <= |times|
    ensures times != [] ==> k > 0
    ensures forall i :: |times| - k < i < |times| ==> times[i] - times[i - 1] < 5 * MINUTE
    ensures 0 < k < |times| ==> times[|times| - k] - times[|times| - k - 1] >= 5 * MINUTE
  {
    var n := |times|;
    if n <= 1 then n
    else if times[n - 1] - times[n - 2] < 5 * MINUTE then Streak(times[..n - 1]) + 1
    else 1
  }

  predicate IsThird(times: seq<Time>) {
    times != [] && Streak(times) % 3 == 0
  }

  /** The n-th failure was the third of its streak, or the sixth, ..., and none of those up to the k-th after it
      was. */
  predicate IsLastThird(times: seq<Time>, n: nat, k: nat)
    requires k <= |times|
  {
    0 < n <= k && IsThird(times[..n]) && forall m :: n < m <= k ==> !IsThird(times[..m])
  }

  /** The time of the last such failure among the first k. */
  function LastThirdOf(times: seq<Time>, k: nat): (t: Option<Time>)
    requires k <= |times|
  {
    if k == 0 then None
    else if IsThird(times[..k]) then Some(times[k - 1])
    else LastThirdOf(times, k - 1)
  }

  lemma {:induction false} LastThirdIs(times: seq<Time>, k: nat) returns (n: nat)
    requires k <= |times|
    ensures LastThirdOf(times, k).None? ==> forall m :: 0 < m <= k ==> !IsThird(times[..m])
    ensures LastThirdOf(times, k).Some? ==> IsLastThird(times, n, k) && LastThirdOf(times, k).value == times[n - 1]
  {
    hide IsThird;
    n := 0;
    if k > 0 {
      if IsThird(times[..k]) {
        n := k;
      } else {
        n := LastThirdIs(times, k - 1);
      }
    }
  }

  function LastThird(times: seq<Time>): Option<Time> {
    LastThirdOf(times, |times|)
  }

  lemma {:induction false} SamePrefix(times: seq<Time>, more: seq<Time>, k: nat)
    requires k <= |times| && times <= more
    ensures LastThirdOf(more, k) == LastThirdOf(times, k)
  {
    hide IsThird;
    if k > 0 {
      assert more[..k] == times[..k];
      SamePrefix(times, more, k - 1);
    }
  }

  lemma LastThirdUnique(times: seq<Time>, n: nat, m: nat)
    requires IsLastThird(times, n, |times|) && IsLastThird(times, m, |times|)
    ensures n == m
  {
    hide IsThird;
  }

  // ---------------------------------------------------------------- the table

  function AfterCall(t: Table, c: Call): Table {
    match c
    case Check(_, _) => t
    case Failure(ip, at) => Failed(t, ip, at)
    case Success(ip) => t - {ip}
  }

  /** The table of the limiter that never evicts. */
  function After(calls: seq<Call>): Table {
    if calls == [] then map[] else AfterCall(After(calls[..|calls| - 1]), calls[|calls| - 1])
  }

  function EntryFor(times: seq<Time>): LoginAttempts
    requires times != []
  {
    LoginAttempts(Streak(times) % 3, times[|times| - 1],
                  if LastThird(times).Some? then LastThird(times).value + 5 * MINUTE else 0)
  }

  lemma OneMoreStreak(times: seq<Time>, at: Time)
    ensures Streak(times + [at]) ==
            if times == [] || at - times[|times| - 1] >= 5 * MINUTE then 1 else Streak(times) + 1
  {
    var more := times + [at];
    assert more[..|more| - 1] == times;
  }

  lemma OneMoreThird(times: seq<Time>, at: Time)
    ensures LastThird(times + [at]) == if IsThird(times + [at]) then Some(at) else LastThird(times)
  {
    hide IsThird;
    var more := times + [at];
    assert more[..|more|] == more;
    SamePrefix(times, more, |times|);
  }

  lemma ChargeIs(times: seq<Time>, at: Time)
    ensures Charge(if times == [] then NO_ATTEMPTS else EntryFor(times), at) == EntryFor(times + [at])
  {
    hide Streak, LastThird;
    OneMoreStreak(times, at);
    OneMoreThird(times, at);
    if times == [] {
      NoStreak();
    }
  }

  lemma NoStreak()
    ensures Streak([]) == 0 && LastThird([]) == None
  {
  }

  lemma {:induction false} TableIs(calls: seq<Call>, who: Ip)
    ensures var times := FailureTimes(calls, who);
            Lookup(After(calls), who) == if times == [] then None else Some(EntryFor(times))
  {
    hide Charge, EntryFor;
    if calls != [] {
      var n := |calls| - 1;
      TableIs(calls[..n], who);
      match calls[n]
      case Failure(ip, at) =>
        if ip == who {
          ChargeIs(FailureTimes(calls[..n], who), at);
        }
      case _ =>
    }
  }

  lemma {:induction false} AnswerAtEnd(t: Table, calls: seq<Call>, earlier: seq<Call>, c: Call)
    requires t == After(earlier) && c.Check?
    ensures var a := AnswersWithoutSweep(t, calls + [c]);
            a != [] && a[|a| - 1] == BanOf(After(earlier + calls), c.ip, c.at)
    decreases |calls|
  {
    hide Failed, BanOf, After;
    if calls == [] {
      assert earlier + calls == earlier && calls + [c] == [c] && [c][1..] == [];
      assert AnswersWithoutSweep(t, []) == [];
    } else {
      var first := calls[0];
      assert (calls + [c])[1..] == calls[1..] + [c];
      AfterOneMore(earlier, first);
      AnswerAtEnd(AfterCall(t, first), calls[1..], earlier + [first], c);
      assert earlier + [first] + calls[1..] == earlier + calls;
    }
  }

  lemma AfterOneMore(calls: seq<Call>, c: Call)
    ensures After(calls + [c]) == AfterCall(After(calls), c)
  {
    assert (calls + [c])[..|calls|] == calls;
  }

  // ---------------------------------------------------------------- the law

  /** Whether and until when these failures ban at a moment. */
  function BanFrom(times: seq<Time>, now: Time): Option<Time> {
    var third := LastThird(times);
    if third.Some? && now < third.value + 5 * MINUTE then Some(third.value + 5 * MINUTE) else None
  }

  /** For every sequence of calls in clock order, what a check answers is determined by the failures of its
      address since its last success: banned, until five minutes after the last failure that was a third one, if
      that moment is still to come; not banned otherwise. */
  lemma CheckAnswers(calls: seq<Call>, who: Ip, now: Time)
    requires InOrder(calls + [Check(who, now)], FAILURE_WINDOW)
    ensures var a := Answers(map[], 0, calls + [Check(who, now)]);
            a != [] && a[|a| - 1] == BanFrom(FailureTimes(calls, who), now)
  {
    hide InOrder, LastThird, Streak;
    EvictionIsUnobservable(calls + [Check(who, now)]);
    assert [] + calls == calls;
    AnswerAtEnd(map[], calls, [], Check(who, now));
    TableIs(calls, who);
    NoStreak();
  }

  /** A third failure, at t, bans until t + 5 minutes - at every moment before, and at none from then on - as
      long as no later third failure comes in. */
  lemma ThirdFailureBans(calls: seq<Call>, who: Ip, n: nat, now: Time)
    requires InOrder(calls + [Check(who, now)], FAILURE_WINDOW)
    requires var times := FailureTimes(calls, who);
             IsLastThird(times, n, |times|)
    ensures var a, t := Answers(map[], 0, calls + [Check(who, now)]), FailureTimes(calls, who)[n - 1];
            a != [] && a[|a| - 1] == if now < t + 5 * MINUTE then Some(t + 5 * MINUTE) else None
  {
    hide InOrder, Answers, IsThird;
    CheckAnswers(calls, who, now);
    var times := FailureTimes(calls, who);
    var m := LastThirdIs(times, |times|);
    assert IsThird(times[..n]);
    LastThirdUnique(times, m, n);
  }

  /** And nothing else bans: an address banned now had a third failure less than five minutes ago. */
  lemma OnlyThirdFailuresBan(calls: seq<Call>, who: Ip, now: Time)
    requires InOrder(calls + [Check(who, now)], FAILURE_WINDOW)
    requires var a := Answers(map[], 0, calls + [Check(who, now)]); a != [] && a[|a| - 1].Some?
    ensures var times := FailureTimes(calls, who);
            exists n :: 0 < n <= |times| && IsThird(times[..n]) && now < times[n - 1] + 5 * MINUTE
  {
    hide InOrder, Answers, IsThird;
    CheckAnswers(calls, who, now);
    var times := FailureTimes(calls, who);
    var n := LastThirdIs(times, |times|);
    assert IsThird(times[..n]);
  }

  /** Three failures of an address, each within the window of the one before, with no success between: from the
      third on it is banned for five minutes. */
  lemma ThreeInAWindow(a: Time, b: Time, c: Time)
    requires a <= b <= c && c - a < 5 * MINUTE
    ensures IsThird([a, b, c]) && !IsThird([a]) && !IsThird([a, b])
  {
    assert [a, b, c][..2] == [a, b] && [a, b][..1] == [a];
    assert Streak([a]) == 1;
    assert Streak([a, b]) == 2;
    assert Streak([a, b, c]) == 3;
  }

  // ---------------------------------------------------------------- requests and the sweep

  /** What the end of a request means for the limiter: 401 and 422 are failures, a status below 400 is a success,
      anything else is neither. */
  lemma StatusMeans(who: Ip, s: System, ip: Ip, at: Time, status: int)
    ensures Step(who, s, Finish(ip, at, status)).table ==
            if status == 401 || status == 422 then AfterCall(s.table, Failure(ip, at))
            else if status < 400 then AfterCall(s.table, Success(ip))
            else s.table
  {
  }

  /** A sweep leaves exactly the entries whose ban is not over or whose last failure is less than five minutes
      old. */
  lemma SweepLeaves(t: Table, now: Time, ip: Ip)
    requires ip in t ==> t[ip].lastFailure <= now
    ensures ip in Swept(t, now) <==> ip in t && (now <= t[ip].bannedUntil || now - t[ip].lastFailure < 5 * MINUTE)
    ensures ip in Swept(t, now) ==> Swept(t, now)[ip] == t[ip]
  {
  }
}
