/** What the retry loop guarantees, for every sequence of wire outcomes and every interference of
    other callers. */
module GateLaws {
  import opened Wrappers
  import opened Breakers
  import opened Gate
  import Limiter

  // ------------------------------------------------------------ attempts and their bracket

  ghost function Sends(actions: seq<Action>): nat {
    if actions == [] then 0 else (if actions[0].Send? then 1 else 0) + Sends(actions[1..])
  }

  ghost function Reports(actions: seq<Action>): nat {
    if actions == [] then 0 else (if actions[0].Report? then 1 else 0) + Reports(actions[1..])
  }

  lemma {:induction false} CountsAdd(a: seq<Action>, b: seq<Action>)
    ensures Sends(a + b) == Sends(a) + Sends(b) && Reports(a + b) == Reports(a) + Reports(b)
  {
    if a == [] {
      assert a + b == b;
    } else {
      CountsAdd(a[1..], b);
      assert (a + b)[1..] == a[1..] + b;
    }
  }

  /** A send at position `i`: right after a limiter grant and a look at a breaker that is not open,
      right before the one report of its outcome, which ends the call unless it is a failure. */
  ghost predicate Bracketed(actions: seq<Action>, i: nat)
    requires i < |actions| && actions[i].Send?
  {
    && i >= 2 && actions[i - 2] == Grant && actions[i - 1] == Observe(false)
    && i + 1 < |actions| && actions[i + 1] == Report(ReportsSuccess(actions[i].outcome))
    && (ReportsSuccess(actions[i].outcome) ==> i + 2 == |actions|)
  }

  ghost predicate AllBracketed(actions: seq<Action>) {
    forall i :: 0 <= i < |actions| && actions[i].Send? ==> Bracketed(actions, i)
  }

  /** Seeing an open breaker is the last thing a call does. */
  ghost predicate StopsWhenOpen(actions: seq<Action>) {
    forall i :: 0 <= i < |actions| && actions[i] == Observe(true) ==> i == |actions| - 1
  }

  ghost function Budget(retry: Retry, attempt: nat): nat {
    if retry.maxAttempts > attempt then retry.maxAttempts - attempt + 1 else 1
  }

  lemma TryIsBracketed(b: Breaker, bs: seq<Limiter.Bucket>, round: Round)
    ensures AllBracketed(OneTry(b, bs, round).actions) && StopsWhenOpen(OneTry(b, bs, round).actions)
  {
    hide ReportsSuccess, Granted, AtSend, AfterReport, Permits;
  }

  lemma TryThenRest(b: Breaker, bs: seq<Limiter.Bucket>, round: Round, delay: real, rest: seq<Action>)
    requires !Stops(b, bs, round) && AllBracketed(rest) && StopsWhenOpen(rest)
    ensures AllBracketed(OneTry(b, bs, round).actions + [Sleep(delay)] + rest)
    ensures StopsWhenOpen(OneTry(b, bs, round).actions + [Sleep(delay)] + rest)
  {
    hide ReportsSuccess, Granted, AtSend, AfterReport, Permits;
    var all := OneTry(b, bs, round).actions + [Sleep(delay)] + rest;
    forall i | 0 <= i < |all| && all[i].Send? ensures Bracketed(all, i) {
      if i >= 6 { assert rest[i - 6] == all[i] && Bracketed(rest, i - 6); }
    }
    forall i | 0 <= i < |all| && all[i] == Observe(true) ensures i == |all| - 1 {
      assert i >= 6 && rest[i - 6] == all[i];
    }
  }

  lemma {:induction false} RoundsAreBracketed(b: Breaker, bs: seq<Limiter.Bucket>, retry: Retry, rounds: nat -> Round,
                                              attempt: nat, elapsed: real)
    requires attempt >= 1
    ensures AllBracketed(Rounds(b, bs, retry, rounds, attempt, elapsed).actions)
    ensures StopsWhenOpen(Rounds(b, bs, retry, rounds, attempt, elapsed).actions)
    decreases Budget(retry, attempt)
  {
    hide OneTry, Stops, Delay, AfterReport, AfterWait, AllBracketed, StopsWhenOpen;
    var round := rounds(attempt);
    TryIsBracketed(b, bs, round);
    if Continues(b, bs, retry, round, attempt, elapsed) {
      var next := NextElapsed(retry, round, attempt, elapsed);
      RoundsAreBracketed(AfterReport(b, round), AfterWait(bs, round), retry, rounds, attempt + 1, next);
      TryThenRest(b, bs, round, Delay(retry, attempt, round),
                  Rounds(AfterReport(b, round), AfterWait(bs, round), retry, rounds, attempt + 1, next).actions);
    }
  }

  lemma TryCounts(b: Breaker, bs: seq<Limiter.Bucket>, round: Round)
    ensures var try := OneTry(b, bs, round);
            && Sends(try.actions) == Reports(try.actions) <= Limiter.TotalGrants(bs, try.permits)
            && Sends(try.actions) <= 1
  {
    hide Limiter.TotalGrants, ReportsSuccess, AtSend, AfterReport, Sends, Reports;
    ShortCounts(round);
    if Granted(bs, round) { Limiter.GrantIsCounted(bs, round.turns); }
  }

  /** Sends, reports and permits of a call, from round `attempt` on. */
  lemma {:induction false} RoundsCount(b: Breaker, bs: seq<Limiter.Bucket>, retry: Retry, rounds: nat -> Round,
                                       attempt: nat, elapsed: real)
    requires attempt >= 1
    ensures var call := Rounds(b, bs, retry, rounds, attempt, elapsed);
            && Sends(call.actions) <= Budget(retry, attempt)
            && Reports(call.actions) == Sends(call.actions) <= Limiter.TotalGrants(bs, call.permits)
    decreases Budget(retry, attempt)
  {
    hide OneTry, Stops, Delay, AfterReport, Permits, Limiter.Final, Limiter.TotalGrants, Sends, Reports;
    var round := rounds(attempt);
    var try, delay := OneTry(b, bs, round), Delay(retry, attempt, round);
    TryCounts(b, bs, round);
    if Continues(b, bs, retry, round, attempt, elapsed) {
      var next := NextElapsed(retry, round, attempt, elapsed);
      var rest := Rounds(AfterReport(b, round), AfterWait(bs, round), retry, rounds, attempt + 1, next);
      RoundsCount(AfterReport(b, round), AfterWait(bs, round), retry, rounds, attempt + 1, next);
      CountsAdd(try.actions, [Sleep(delay)]);
      OneCounts(Sleep(delay));
      CountsAdd(try.actions + [Sleep(delay)], rest.actions);
      TryEndsAt(b, bs, round);
      Limiter.TotalConcat(bs, try.permits, rest.permits);
    }
  }

  lemma ShortCounts(round: Round)
    ensures Sends([]) == Reports([]) == 0
    ensures Sends([Grant, Observe(true)]) == Reports([Grant, Observe(true)]) == 0
    ensures Sends(SentActions(round)) == Reports(SentActions(round)) == 1
    ensures forall open :: Sends(SentActions(round) + [Observe(open)]) == 1
                        && Reports(SentActions(round) + [Observe(open)]) == 1
  {
    var sent := SentActions(round);
    OneCounts(Grant);
    OneCounts(Observe(false));
    OneCounts(Send(round.outcome));
    OneCounts(Report(ReportsSuccess(round.outcome)));
    CountsAdd([Grant], [Observe(false)]);
    CountsAdd([Grant, Observe(false)], [Send(round.outcome)]);
    CountsAdd([Grant, Observe(false), Send(round.outcome)], [Report(ReportsSuccess(round.outcome))]);
    OneCounts(Observe(true));
    CountsAdd([Grant], [Observe(true)]);
    assert [Grant] + [Observe(true)] == [Grant, Observe(true)];
    assert [Grant] + [Observe(false)] == [Grant, Observe(false)];
    assert [Grant, Observe(false)] + [Send(round.outcome)] == [Grant, Observe(false), Send(round.outcome)];
    assert [Grant, Observe(false), Send(round.outcome)] + [Report(ReportsSuccess(round.outcome))] == sent;
    forall open ensures Sends(sent + [Observe(open)]) == Reports(sent + [Observe(open)]) == 1 {
      OneCounts(Observe(open));
      CountsAdd(sent, [Observe(open)]);
    }
  }

  lemma OneCounts(a: Action)
    ensures Sends([a]) == (if a.Send? then 1 else 0) && Reports([a]) == (if a.Report? then 1 else 0)
  {
    assert [a][1..] == [];
  }

  /** Every call sends at most `max(1, max_attempts)` times; each send is preceded by a limiter
      grant and a breaker that is not open, and followed by exactly one report; nothing is sent
      after a delivered answer, a client error, an oversized body or an open breaker. */
  lemma SendsAreBoundedAndBracketed(b: Breaker, bs: seq<Limiter.Bucket>, retry: Retry, rounds: nat -> Round)
    ensures var actions := Dispatched(b, bs, retry, rounds).actions;
            && Sends(actions) <= (if retry.maxAttempts < 1 then 1 else retry.maxAttempts)
            && Reports(actions) == Sends(actions)
            && AllBracketed(actions) && StopsWhenOpen(actions)
  {
    RoundsCount(b, bs, retry, rounds, 1, 0.0);
    RoundsAreBracketed(b, bs, retry, rounds, 1, 0.0);
  }

  /** The limiter really stands between a call and the wire: the requests of a call never outnumber what
      each bucket holds and gains between the first and the last event at its lock. */
  lemma SendsKeepTheRate(b: Breaker, bs: seq<Limiter.Bucket>, retry: Retry, rounds: nat -> Round, k: nat)
    requires Limiter.ValidAll(bs) && k < |bs|
    requires Limiter.Ordered(bs, Dispatched(b, bs, retry, rounds).permits)
    ensures var call := Dispatched(b, bs, retry, rounds);
            && (call.permits == [] ==> Sends(call.actions) == 0)
            && (call.permits != [] ==>
                  Sends(call.actions) as real <=
                  bs[k].capacity + bs[k].rate * (call.permits[|call.permits| - 1].at - call.permits[0].at))
  {
    hide Rounds, Limiter.Ordered, Limiter.GrantCount;
    var permits := Dispatched(b, bs, retry, rounds).permits;
    RoundsCount(b, bs, retry, rounds, 1, 0.0);
    if permits == [] { NoGrants(bs); } else { Limiter.RateBound(bs, permits, k, 0, |permits|); }
  }

  lemma NoGrants(bs: seq<Limiter.Bucket>)
    ensures Limiter.TotalGrants(bs, []) == 0
  {
  }

  // ------------------------------------------------------------ what follows each outcome

  /** An answer, a client error and an oversized body end the call with a report of success; a refusal for
      rate, a server error and a transport error are reported as failures. */
  ghost predicate ReportedAs(actions: seq<Action>, i: nat)
    requires i < |actions| && actions[i].Send?
  {
    match actions[i].outcome
    case Delivered => actions[i + 1..] == [Report(true)]
    case ClientError => actions[i + 1..] == [Report(true)]
    case BodyTooLarge => actions[i + 1..] == [Report(true)]
    case RateLimited(_) => i + 2 < |actions| && actions[i + 1] == Report(false) && actions[i + 2].Observe?
    case ServerError => i + 2 < |actions| && actions[i + 1] == Report(false) && actions[i + 2].Observe?
    case TransportError => i + 2 < |actions| && actions[i + 1] == Report(false) && actions[i + 2].Observe?
  }

  /** What a failed attempt asks to wait: the server's `Retry-After`, else the step of the schedule, jittered;
      never more than the limit. */
  ghost function WaitAfter(retry: Retry, attempt: nat, round: Round): real
    requires attempt >= 1
  {
    var n := |retry.schedule|;
    var asked :=
      match round.outcome
      case RateLimited(Some(seconds)) => seconds
      case _ => if n == 0 then 0.0 else retry.schedule[if attempt <= n then attempt - 1 else n - 1] * round.jitter;
    if asked <= retry.maxDelay then asked else retry.maxDelay
  }

  /** The clock of the call when attempt `n` begins. */
  ghost function TimeBefore(retry: Retry, rounds: nat -> Round, n: nat): real
    requires n >= 1
  {
    if n == 1 then 0.0
    else
      var last := rounds(n - 1);
      TimeBefore(retry, rounds, n - 1) + last.queued + last.inFlight + WaitAfter(retry, n - 1, last) + last.overshoot
  }

  /** Attempt `n` leaves both an attempt and time for another. */
  ghost predicate MayTryAgain(retry: Retry, rounds: nat -> Round, n: nat)
    requires n >= 1
  {
    && n < retry.maxAttempts
    && TimeBefore(retry, rounds, n) + rounds(n).queued + rounds(n).inFlight + WaitAfter(retry, n, rounds(n))
       <= retry.maxTotalWait
  }

  /** The send at `i` is attempt `n`; what follows it is as its outcome says, and after a failure that leaves the
      breaker closed or half-open the call goes on, with the wait that is due, exactly if it may. */
  ghost predicate FollowedUp(actions: seq<Action>, i: nat, retry: Retry, rounds: nat -> Round, n: nat)
    requires i < |actions| && actions[i].Send? && n >= 1
  {
    && actions[i].outcome == rounds(n).outcome && ReportedAs(actions, i)
    && (i + 2 < |actions| && actions[i + 2] == Observe(false) ==>
          (i + 3 < |actions| <==> MayTryAgain(retry, rounds, n))
          && (i + 3 < |actions| ==> actions[i + 3] == Sleep(WaitAfter(retry, n, rounds(n)))))
  }

  ghost predicate AllFollowedUp(actions: seq<Action>, retry: Retry, rounds: nat -> Round, before: nat) {
    forall i :: 0 <= i < |actions| && actions[i].Send? ==>
      FollowedUp(actions, i, retry, rounds, before + 1 + Sends(actions[..i]))
  }

  lemma WaitIsDelay(retry: Retry, attempt: nat, round: Round)
    requires attempt >= 1
    ensures WaitAfter(retry, attempt, round) == Delay(retry, attempt, round)
  {
  }

  lemma ContinuesIffMay(b: Breaker, bs: seq<Limiter.Bucket>, retry: Retry, rounds: nat -> Round, attempt: nat)
    requires attempt >= 1
    ensures Continues(b, bs, retry, rounds(attempt), attempt, TimeBefore(retry, rounds, attempt)) <==>
            !Stops(b, bs, rounds(attempt)) && MayTryAgain(retry, rounds, attempt)
    ensures NextElapsed(retry, rounds(attempt), attempt, TimeBefore(retry, rounds, attempt)) ==
            TimeBefore(retry, rounds, attempt + 1)
  {
    hide Stops;
    WaitIsDelay(retry, attempt, rounds(attempt));
  }

  lemma TryIsFollowedUp(b: Breaker, bs: seq<Limiter.Bucket>, retry: Retry, rounds: nat -> Round, n: nat)
    requires n >= 1
    ensures var actions := OneTry(b, bs, rounds(n)).actions;
            && (Stops(b, bs, rounds(n)) || !MayTryAgain(retry, rounds, n) ==>
                  AllFollowedUp(actions, retry, rounds, n - 1))
            && (!Stops(b, bs, rounds(n)) ==>
                  actions == [Grant, Observe(false), Send(rounds(n).outcome), Report(false), Observe(false)]
                  && (rounds(n).outcome.RateLimited? || rounds(n).outcome.ServerError?
                      || rounds(n).outcome.TransportError?))
  {
    hide Granted, AtSend, AfterReport, Permits, MayTryAgain, WaitAfter;
    var actions := OneTry(b, bs, rounds(n)).actions;
    ShortCounts(rounds(n));
    forall i | 0 <= i < |actions| && actions[i].Send? ensures i == 2 && Sends(actions[..i]) == 0 {
      assert actions[..2] == [Grant] + [Observe(false)];
      CountsAdd([Grant], [Observe(false)]);
      OneCounts(Grant);
      OneCounts(Observe(false));
    }
  }

  lemma SixThenRest(first: seq<Action>, rest: seq<Action>, retry: Retry, rounds: nat -> Round, n: nat)
    requires n >= 1 && MayTryAgain(retry, rounds, n) && AllFollowedUp(rest, retry, rounds, n)
    requires first == [Grant, Observe(false), Send(rounds(n).outcome), Report(false), Observe(false),
                       Sleep(WaitAfter(retry, n, rounds(n)))]
    requires rounds(n).outcome.RateLimited? || rounds(n).outcome.ServerError? || rounds(n).outcome.TransportError?
    ensures AllFollowedUp(first + rest, retry, rounds, n - 1)
  {
    hide MayTryAgain, WaitAfter, Sends;
    var all := first + rest;
    forall i | 0 <= i < |all| && all[i].Send? ensures FollowedUp(all, i, retry, rounds, n + Sends(all[..i])) {
      if i < 6 {
        FirstSend(first, all, i);
      } else {
        assert all[..i] == first + rest[..i - 6];
        CountsAdd(first, rest[..i - 6]);
        OneSend(first);
        assert FollowedUp(rest, i - 6, retry, rounds, n + 1 + Sends(rest[..i - 6]));
        assert all[i + 1..] == rest[i - 6 + 1..];
        assert i + 3 < |all| ==> all[i + 3] == rest[i - 6 + 3];
        assert i + 2 < |all| ==> all[i + 2] == rest[i - 6 + 2];
      }
    }
  }

  lemma FirstSend(first: seq<Action>, all: seq<Action>, i: nat)
    requires |first| == 6 && first[0] == Grant && first[1] == Observe(false) && !first[3].Send? && !first[4].Send?
    requires !first[5].Send? && first <= all && i < 6 && all[i].Send?
    ensures i == 2 && Sends(all[..i]) == 0
  {
    assert all[i] == first[i];
    assert all[..2] == [Grant] + [Observe(false)];
    CountsAdd([Grant], [Observe(false)]);
    OneCounts(Grant);
    OneCounts(Observe(false));
  }

  lemma OneSend(first: seq<Action>)
    requires |first| == 6 && first[0] == Grant && first[1] == Observe(false) && first[2].Send? && first[3].Report?
    requires first[4].Observe? && first[5].Sleep?
    ensures Sends(first) == 1
  {
    assert first == [first[0]] + [first[1]] + [first[2]] + [first[3]] + [first[4]] + [first[5]];
    OneCounts(first[0]);
    OneCounts(first[1]);
    OneCounts(first[2]);
    OneCounts(first[3]);
    OneCounts(first[4]);
    OneCounts(first[5]);
    CountsAdd([first[0]], [first[1]]);
    CountsAdd([first[0]] + [first[1]], [first[2]]);
    CountsAdd([first[0]] + [first[1]] + [first[2]], [first[3]]);
    CountsAdd([first[0]] + [first[1]] + [first[2]] + [first[3]], [first[4]]);
    CountsAdd([first[0]] + [first[1]] + [first[2]] + [first[3]] + [first[4]], [first[5]]);
  }

  lemma {:induction false} RoundsAreFollowedUp(b: Breaker, bs: seq<Limiter.Bucket>, retry: Retry,
                                               rounds: nat -> Round, attempt: nat)
    requires attempt >= 1
    ensures AllFollowedUp(Rounds(b, bs, retry, rounds, attempt, TimeBefore(retry, rounds, attempt)).actions, retry,
                          rounds, attempt - 1)
    decreases Budget(retry, attempt)
  {
    hide OneTry, Stops, Continues, MayTryAgain, TimeBefore, AfterReport, AfterWait, AllFollowedUp, WaitAfter, Delay;
    hide NextElapsed, Rounds;
    var round, time := rounds(attempt), TimeBefore(retry, rounds, attempt);
    RoundsNext(b, bs, retry, rounds, attempt, time);
    ContinuesIffMay(b, bs, retry, rounds, attempt);
    TryIsFollowedUp(b, bs, retry, rounds, attempt);
    if Continues(b, bs, retry, round, attempt, time) {
      MayMeansBudget(retry, rounds, attempt);
      RoundsAreFollowedUp(AfterReport(b, round), AfterWait(bs, round), retry, rounds, attempt + 1);
      var rest := Rounds(AfterReport(b, round), AfterWait(bs, round), retry, rounds, attempt + 1,
                         TimeBefore(retry, rounds, attempt + 1));
      WaitIsDelay(retry, attempt, round);
      SixThenRest(OneTry(b, bs, round).actions + [Sleep(Delay(retry, attempt, round))], rest.actions, retry, rounds,
                  attempt);
    }
  }

  lemma MayMeansBudget(retry: Retry, rounds: nat -> Round, n: nat)
    requires n >= 1 && MayTryAgain(retry, rounds, n)
    ensures Budget(retry, n + 1) < Budget(retry, n)
  {
  }

  /** Every request of a call is followed by what its outcome calls for, by kind of outcome alone; a failure that
      finds attempts and time left, and the breaker not open, is tried again after the wait that is due, and no
      other is. */
  lemma EveryOutcomeIsFollowedUp(b: Breaker, bs: seq<Limiter.Bucket>, retry: Retry, rounds: nat -> Round)
    ensures AllFollowedUp(Dispatched(b, bs, retry, rounds).actions, retry, rounds, 0)
  {
    hide Rounds;
    RoundsAreFollowedUp(b, bs, retry, rounds, 1);
  }

  // ------------------------------------------------------------ sleeping

  ghost function Slept(actions: seq<Action>): real {
    if actions == [] then 0.0 else (if actions[0].Sleep? then actions[0].span else 0.0) + Slept(actions[1..])
  }

  ghost predicate SleepsWithin(actions: seq<Action>, max: real) {
    forall i :: 0 <= i < |actions| && actions[i].Sleep? ==> 0.0 <= actions[i].span <= max
  }

  lemma {:induction false} SleptAdds(a: seq<Action>, b: seq<Action>)
    ensures Slept(a + b) == Slept(a) + Slept(b)
  {
    if a == [] {
      assert a + b == b;
    } else {
      SleptAdds(a[1..], b);
      assert (a + b)[1..] == a[1..] + b;
    }
  }

  lemma {:induction false} NoSleepIsZero(a: seq<Action>)
    requires forall i :: 0 <= i < |a| ==> !a[i].Sleep?
    ensures Slept(a) == 0.0
  {
    if a != [] { NoSleepIsZero(a[1..]); }
  }

  lemma TrySleepsThenRest(b: Breaker, bs: seq<Limiter.Bucket>, round: Round, delay: real, rest: seq<Action>, max: real)
    requires 0.0 <= delay <= max && SleepsWithin(rest, max)
    ensures SleepsWithin(OneTry(b, bs, round).actions + [Sleep(delay)] + rest, max)
    ensures Slept(OneTry(b, bs, round).actions + [Sleep(delay)] + rest) == delay + Slept(rest)
  {
    hide OneTry;
    var first := OneTry(b, bs, round).actions;
    TryNeverSleeps(b, bs, round);
    NoSleepIsZero(first);
    SleptAdds(first, [Sleep(delay)]);
    SleptAdds(first + [Sleep(delay)], rest);
    assert Slept([Sleep(delay)]) == delay + Slept([]);
    var all, n := first + [Sleep(delay)] + rest, |first| + 1;
    forall i | 0 <= i < |all| && all[i].Sleep? ensures 0.0 <= all[i].span <= max {
      if i >= n { assert rest[i - n] == all[i]; }
    }
  }

  lemma TryNeverSleeps(b: Breaker, bs: seq<Limiter.Bucket>, round: Round)
    ensures forall i :: 0 <= i < |OneTry(b, bs, round).actions| ==> !OneTry(b, bs, round).actions[i].Sleep?
  {
    hide ReportsSuccess, Granted, AtSend, AfterReport, Permits;
  }

  lemma DelayBounds(retry: Retry, attempt: nat, round: Round)
    requires Sensible(retry) && round.Plausible()
    ensures 0.0 <= Delay(retry, attempt, round) <= retry.maxDelay
  {
    assert DelayFor(attempt, retry.schedule) >= 0.0;
    ProductNotNegative(DelayFor(attempt, retry.schedule), round.jitter);
  }

  lemma ProductNotNegative(a: real, b: real)
    requires a >= 0.0 && b >= 0.0
    ensures a * b >= 0.0
  {
  }

  lemma {:induction false} RoundsSleep(b: Breaker, bs: seq<Limiter.Bucket>, retry: Retry, rounds: nat -> Round,
                                       attempt: nat, elapsed: real)
    requires attempt >= 1 && Sensible(retry) && forall i :: rounds(i).Plausible()
    ensures var actions := Rounds(b, bs, retry, rounds, attempt, elapsed).actions;
            && SleepsWithin(actions, retry.maxDelay)
            && (Slept(actions) == 0.0 || elapsed + Slept(actions) <= retry.maxTotalWait)
    decreases Budget(retry, attempt)
  {
    hide OneTry, Stops, Delay, AfterReport, AfterWait, Sensible, Slept;
    var round := rounds(attempt);
    var delay := Delay(retry, attempt, round);
    assert round.Plausible();
    DelayBounds(retry, attempt, round);
    TryNeverSleeps(b, bs, round);
    NoSleepIsZero(OneTry(b, bs, round).actions);
    if Continues(b, bs, retry, round, attempt, elapsed) {
      var next := NextElapsed(retry, round, attempt, elapsed);
      var rest := Rounds(AfterReport(b, round), AfterWait(bs, round), retry, rounds, attempt + 1, next);
      RoundsSleep(AfterReport(b, round), AfterWait(bs, round), retry, rounds, attempt + 1, next);
      TrySleepsThenRest(b, bs, round, delay, rest.actions, retry.maxDelay);
    }
  }

  /** All backoff sleeps of a call together stay within `max_total_wait`, each within `max_delay`,
      whatever a `Retry-After` header asks for. */
  lemma SleepsAreBounded(b: Breaker, bs: seq<Limiter.Bucket>, retry: Retry, rounds: nat -> Round)
    requires Sensible(retry) && forall i :: rounds(i).Plausible()
    ensures var actions := Dispatched(b, bs, retry, rounds).actions;
            && SleepsWithin(actions, retry.maxDelay)
            && (Slept(actions) == 0.0 || Slept(actions) <= retry.maxTotalWait)
  {
    RoundsSleep(b, bs, retry, rounds, 1, 0.0);
  }

  /** The unjittered delays of attempts 1, 2, ... are the schedule, its last step repeated for ever. */
  lemma DelaysFollowSchedule(schedule: seq<real>, attempt: nat)
    requires schedule != []
    ensures seq(|schedule|, i requires i >= 0 => DelayFor(i + 1, schedule)) == schedule
    ensures attempt >= |schedule| ==> DelayFor(attempt, schedule) == DelayFor(|schedule|, schedule)
  {
  }

  // ------------------------------------------------------------ the answer

  /** The outcome of the last request a call sent. */
  ghost function LastOutcome(actions: seq<Action>): Option<Outcome> {
    if actions == [] then None
    else if actions[|actions| - 1].Send? then Some(actions[|actions| - 1].outcome)
    else LastOutcome(actions[..|actions| - 1])
  }

  /** What a caller is told about one outcome on the wire. */
  function AnswerTo(outcome: Outcome): Answer {
    match outcome
    case Delivered => Fetched
    case RateLimited(d) => Denied(TooManyRequests(d))
    case ServerError => Denied(ServerStatus)
    case ClientError => Denied(ClientStatus)
    case BodyTooLarge => Denied(Oversized)
    case TransportError => Denied(Transport)
  }

  /** The call gave up at an open breaker before sending again. */
  predicate EndsAtOpenBreaker(actions: seq<Action>) {
    |actions| >= 2 && actions[|actions| - 2] == Grant && actions[|actions| - 1] == Observe(true)
  }

  ghost predicate TellsTheTruth(call: Call) {
    if EndsAtOpenBreaker(call.actions) then call.answer == Denied(BreakerOpen)
    else LastOutcome(call.actions).Some? && call.answer == AnswerTo(LastOutcome(call.actions).value)
  }

  lemma {:induction false} LastOutcomeOf(a: seq<Action>, b: seq<Action>)
    ensures LastOutcome(a + b) == if LastOutcome(b).Some? then LastOutcome(b) else LastOutcome(a)
    decreases |b|
  {
    if b == [] {
      assert a + b == a;
    } else {
      LastOutcomeOf(a, b[..|b| - 1]);
      assert (a + b)[..|a + b| - 1] == a + b[..|b| - 1];
    }
  }

  lemma TryTellsTheTruth(b: Breaker, bs: seq<Limiter.Bucket>, round: Round)
    ensures Granted(bs, round) ==> TellsTheTruth(OneTry(b, bs, round))
    ensures Granted(bs, round) <==> OneTry(b, bs, round).answer != StillWaiting
    ensures !Stops(b, bs, round) ==> LastOutcome(OneTry(b, bs, round).actions) == Some(round.outcome)
  {
    hide LastOutcome, Granted, AtSend, AfterReport, Permits;
    var sent := SentActions(round);
    SendIsLast([Grant, Observe(false)], round.outcome, [Report(ReportsSuccess(round.outcome))]);
    assert [Grant, Observe(false)] + [Send(round.outcome)] + [Report(ReportsSuccess(round.outcome))] == sent;
    forall open ensures LastOutcome(sent + [Observe(open)]) == Some(round.outcome) {
      SendIsLast([Grant, Observe(false)], round.outcome, [Report(ReportsSuccess(round.outcome)), Observe(open)]);
      assert [Grant, Observe(false)] + [Send(round.outcome)] + [Report(ReportsSuccess(round.outcome)), Observe(open)]
             == sent + [Observe(open)];
    }
  }

  lemma {:induction false} SendIsLast(before: seq<Action>, outcome: Outcome, after: seq<Action>)
    requires forall i :: 0 <= i < |after| ==> !after[i].Send?
    ensures LastOutcome(before + [Send(outcome)] + after) == Some(outcome)
    decreases |after|
  {
    var all := before + [Send(outcome)] + after;
    if after != [] {
      SendIsLast(before, outcome, after[..|after| - 1]);
      assert all[..|all| - 1] == before + [Send(outcome)] + after[..|after| - 1];
    } else {
      assert all[|all| - 1] == Send(outcome);
    }
  }

  lemma TruthOfTheRest(before: seq<Action>, rest: Call, all: Call)
    requires rest.answer != StillWaiting && TellsTheTruth(rest) && |rest.actions| >= 2
    requires all.actions == before + rest.actions && all.answer == rest.answer
    ensures TellsTheTruth(all)
  {
    LastOutcomeOf(before, rest.actions);
  }

  lemma {:induction false} RoundsAnswer(b: Breaker, bs: seq<Limiter.Bucket>, retry: Retry, rounds: nat -> Round,
                                        attempt: nat, elapsed: real)
    requires attempt >= 1
    ensures var call := Rounds(b, bs, retry, rounds, attempt, elapsed);
            call.answer != StillWaiting ==> TellsTheTruth(call) && |call.actions| >= 2
    decreases Budget(retry, attempt)
  {
    hide Stops, Delay, AfterReport, AfterWait, LastOutcome, Permits;
    var round := rounds(attempt);
    TryTellsTheTruth(b, bs, round);
    if Continues(b, bs, retry, round, attempt, elapsed) {
      hide OneTry;
      var next := NextElapsed(retry, round, attempt, elapsed);
      var rest := Rounds(AfterReport(b, round), AfterWait(bs, round), retry, rounds, attempt + 1, next);
      RoundsAnswer(AfterReport(b, round), AfterWait(bs, round), retry, rounds, attempt + 1, next);
      if rest.answer != StillWaiting {
        TruthOfTheRest(OneTry(b, bs, round).actions + [Sleep(Delay(retry, attempt, round))], rest,
                       Rounds(b, bs, retry, rounds, attempt, elapsed));
      }
    }
  }

  /** What a call returns is the outcome of the last request it sent, or "breaker open" exactly when the
      breaker was found open after the wait for the limiter; never a placeholder error. */
  lemma AnswersAreReal(b: Breaker, bs: seq<Limiter.Bucket>, retry: Retry, rounds: nat -> Round)
    requires Dispatched(b, bs, retry, rounds).answer != StillWaiting
    ensures var call := Dispatched(b, bs, retry, rounds);
            && (call.answer == Denied(BreakerOpen) <==> EndsAtOpenBreaker(call.actions))
            && (call.answer == Denied(BreakerOpen)
                || (LastOutcome(call.actions).Some? && call.answer == AnswerTo(LastOutcome(call.actions).value)))
            && call.answer != Denied(RetryExhausted) && call.answer != Denied(RetryBudgetSpent)
  {
    hide Rounds, LastOutcome;
    RoundsAnswer(b, bs, retry, rounds, 1, 0.0);
  }

  // ------------------------------------------------------------ the half-open probe

  /** Some report among the events, right after which no probe is in flight. */
  ghost predicate Releases(b: Breaker, events: seq<Event>) {
    exists i :: 0 <= i < |events| && ReleasedAt(b, events, i)
  }

  ghost predicate ReleasedAt(b: Breaker, events: seq<Event>, i: nat)
    requires i < |events|
  {
    IsReport(events[i]) && !Run(b, events[..i + 1]).probeInFlight
  }

  lemma ReportReleases(b: Breaker, events: seq<Event>, i: nat)
    requires i < |events| && IsReport(events[i])
    ensures ReleasedAt(b, events, i)
  {
    assert events[..i + 1] == events[..i] + [events[i]];
    RunNext(b, events[..i], events[i]);
  }

  lemma {:induction false} OpensOnlyByFailure(b: Breaker, h: seq<Event>)
    requires !b.phase.Open? && Run(b, h).phase.Open?
    ensures exists i :: 0 <= i < |h| && h[i].Failure?
    decreases |h|
  {
    if h != [] && !Breakers.Last(h).Failure? {
      OpensOnlyByFailure(b, Breakers.Init(h));
      var i :| 0 <= i < |h| - 1 && Breakers.Init(h)[i].Failure?;
      assert h[i].Failure?;
    } else if h != [] {
      assert h[|h| - 1].Failure?;
    }
  }

  lemma ReleasesMore(b: Breaker, events: seq<Event>, more: seq<Event>)
    requires Releases(b, events)
    ensures Releases(b, events + more)
  {
    var i :| 0 <= i < |events| && ReleasedAt(b, events, i);
    assert (events + more)[i] == events[i];
    ReportReleases(b, events + more, i);
  }

  lemma RoundReleases(b: Breaker, round: Round)
    ensures Releases(b, UpToReport(round))
  {
    var events := UpToReport(round);
    assert events[|events| - 1] == ReportEvent(round);
    ReportReleases(b, events, |events| - 1);
  }

  lemma TryReleases(b: Breaker, bs: seq<Limiter.Bucket>, round: Round)
    requires !b.phase.Open? && Granted(bs, round)
    ensures Releases(b, OneTry(b, bs, round).events)
  {
    hide Granted, Permits, ReportsSuccess, Apply;
    if AtSend(b, round).phase.Open? {
      OpensOnlyByFailure(b, round.others);
      var i :| 0 <= i < |round.others| && round.others[i].Failure?;
      ReportReleases(b, round.others, i);
    } else {
      RoundReleases(b, round);
      ReleasesMore(b, UpToReport(round), round.afterwards);
    }
  }

  /** A half-open probe held on entry is released on every return: before the call ends, it or
      another caller has reported, which leaves no probe in flight. */
  lemma ProbeIsReleased(b: Breaker, bs: seq<Limiter.Bucket>, retry: Retry, rounds: nat -> Round)
    requires !b.phase.Open? && Dispatched(b, bs, retry, rounds).answer != StillWaiting
    ensures Releases(b, Dispatched(b, bs, retry, rounds).events)
  {
    hide Delay, Releases, OneTry, AfterReport, AfterWait;
    var round := rounds(1);
    WaitingStops(b, bs, round);
    if Granted(bs, round) { TryReleases(b, bs, round); }
    if Continues(b, bs, retry, round, 1, 0.0) {
      var next := NextElapsed(retry, round, 1, 0.0);
      ReleasesMore(b, OneTry(b, bs, round).events,
                   Rounds(AfterReport(b, round), AfterWait(bs, round), retry, rounds, 2, next).events);
    }
  }

  lemma WaitingStops(b: Breaker, bs: seq<Limiter.Bucket>, round: Round)
    ensures !Granted(bs, round) <==> OneTry(b, bs, round).answer == StillWaiting
    ensures !Stops(b, bs, round) ==> Granted(bs, round)
  {
    hide Granted, Permits, AtSend, AfterReport;
  }

  /** Breaker and buckets at the end are the ones all events since the call began lead to. */
  lemma {:induction false} RoundsBreaker(b: Breaker, bs: seq<Limiter.Bucket>, retry: Retry, rounds: nat -> Round,
                                         attempt: nat, elapsed: real)
    requires attempt >= 1
    ensures var call := Rounds(b, bs, retry, rounds, attempt, elapsed); call.breaker == Run(b, call.events)
    decreases Budget(retry, attempt)
  {
    hide Apply, Delay, Stops, OneTry, AfterWait, Run;
    var round := rounds(attempt);
    TryRuns(b, bs, round);
    if Continues(b, bs, retry, round, attempt, elapsed) {
      var next := NextElapsed(retry, round, attempt, elapsed);
      RoundsBreaker(AfterReport(b, round), AfterWait(bs, round), retry, rounds, attempt + 1, next);
      TryEndsAt(b, bs, round);
      RunConcat(b, OneTry(b, bs, round).events,
                Rounds(AfterReport(b, round), AfterWait(bs, round), retry, rounds, attempt + 1, next).events);
    }
  }

  lemma TryRuns(b: Breaker, bs: seq<Limiter.Bucket>, round: Round)
    ensures OneTry(b, bs, round).breaker == Run(b, OneTry(b, bs, round).events)
  {
    hide Granted, Permits, ReportsSuccess, Apply;
    RunConcat(b, round.others, round.meanwhile);
    RunNext(b, round.others + round.meanwhile, ReportEvent(round));
    RunConcat(b, UpToReport(round), round.afterwards);
  }

  // ------------------------------------------------------------ get_with

  /** The probe that `get_with` claims on a half-open breaker is given back exactly when the cache has
      nothing to answer with: a fresh entry, and a failed read as well, return without any report. */
  lemma ProbeReleasedIffCacheMisses(b: Breaker, bs: seq<Limiter.Bucket>, now: real, cache: CacheAnswer, retry: Retry,
                                    rounds: nat -> Round)
    requires b.phase.Open? ==> b.openedAt.Some?
    requires Checked(b, now).1.Allow? && Gotten(b, bs, now, cache, retry, rounds).answer != StillWaiting
    ensures Releases(Checked(b, now).0, Gotten(b, bs, now, cache, retry, rounds).events[1..]) <==> cache == Miss
  {
    hide Dispatched;
    var claimed := Checked(b, now).0;
    if cache == Miss {
      ProbeIsReleased(claimed, bs, retry, rounds);
      var events := Dispatched(claimed, bs, retry, rounds).events;
      assert ([Check(now)] + events)[1..] == events;
    }
  }

  /** Without a miss nothing is sent and no permit is taken: a rejected call is refused as open, a fresh entry is the
      answer, a failed read the error. */
  lemma CacheAnswersAtOnce(b: Breaker, bs: seq<Limiter.Bucket>, now: real, cache: CacheAnswer, retry: Retry,
                           rounds: nat -> Round)
    ensures var call, rejected := Gotten(b, bs, now, cache, retry, rounds), Checked(b, now).1 != Allow;
            && (rejected || cache != Miss ==> call.actions == [] && call.permits == [] && call.events == [Check(now)])
            && (rejected ==> call.answer == Denied(BreakerOpen))
            && (!rejected && cache == Fresh ==> call.answer == Fetched)
            && (!rejected && cache == ReadError ==> call.answer == Denied(CacheUnreadable))
            && (!rejected && cache == Miss ==>
                  call.actions == Dispatched(Checked(b, now).0, bs, retry, rounds).actions)
  {
    hide Dispatched;
  }

  /** So after one answer from the cache, or one failed read of it, a half-open breaker keeps rejecting, at
      any later time, until some other request reports. */
  lemma CacheKeepsRejecting(b: Breaker, bs: seq<Limiter.Bucket>, now: real, cache: CacheAnswer, retry: Retry,
                            rounds: nat -> Round, later: real)
    requires b.phase.HalfOpen? && !b.probeInFlight && cache != Miss
    ensures Checked(Gotten(b, bs, now, cache, retry, rounds).breaker, later).1 == Reject(PROBE_RETRY)
  {
  }
}
