/** The retry loop of the traffic gate: limiter, breaker, wire outcome, backoff. */
module Gate {
  import opened Wrappers
  import opened Numbers
  import opened Breakers
  import Limiter

  datatype Retry = Retry(maxAttempts: nat, schedule: seq<real>, maxTotalWait: real, maxDelay: real)

  /** How one request on the wire ends. */
  datatype Outcome =
    | Delivered
    | RateLimited(retryAfter: Option<real>)
    | ServerError
    | ClientError
    | BodyTooLarge
    | TransportError

  /** Everything outside the loop that one round meets: the turns at the limiter's lock and how long
      they take, what other callers do to the breaker before, during and right after the request,
      the request itself, the jitter of the backoff, and how far a sleep overshoots. */
  datatype Round = Round(
    turns: seq<Limiter.Turn>,
    queued: real,
    others: seq<Event>,
    inFlight: real,
    meanwhile: seq<Event>,
    outcome: Outcome,
    reported: real,
    afterwards: seq<Event>,
    jitter: real,
    overshoot: real
  ) {
    ghost predicate Plausible() {
      queued >= 0.0 && inFlight >= 0.0 && overshoot >= 0.0 && jitter >= 0.0
      && (outcome.RateLimited? && outcome.retryAfter.Some? ==> outcome.retryAfter.value >= 0.0)
    }
  }

  datatype Failure =
    | BreakerOpen
    | TooManyRequests(retryAfter: Option<real>)
    | ServerStatus
    | ClientStatus
    | Oversized
    | Transport
    | RetryExhausted
    | RetryBudgetSpent
    | CacheUnreadable

  /** What a call returns; `StillWaiting` stands for a call whose run ends before the limiter gives it a
      permit, so that it has not returned. */
  datatype Answer = Fetched | Denied(failure: Failure) | StillWaiting

  /** What this call itself does, in order. */
  datatype Action = Grant | Observe(open: bool) | Send(outcome: Outcome) | Report(success: bool) | Sleep(span: real)

  /** A call: its actions, every event at the breaker and at the limiter's lock since it began (its own
      and those of others), the breaker at the end, and its answer. */
  datatype Call = Call(
    actions: seq<Action>,
    events: seq<Event>,
    permits: seq<Limiter.Event>,
    breaker: Breaker,
    answer: Answer
  )

  // ------------------------------------------------------------ backoff

  function DelayFor(attempt: nat, schedule: seq<real>): real {
    if schedule == [] then 0.0
    else
      var step := if attempt < 1 then 0 else attempt - 1;
      schedule[if step < |schedule| then step else |schedule| - 1]
  }

  /** The sleep before the next attempt: a `Retry-After`, or the jittered schedule, capped. */
  function Delay(retry: Retry, attempt: nat, round: Round): real {
    if round.outcome.RateLimited? && round.outcome.retryAfter.Some? then
      MinReal(round.outcome.retryAfter.value, retry.maxDelay)
    else
      MinReal(DelayFor(attempt, retry.schedule) * round.jitter, retry.maxDelay)
  }

  ghost predicate Sensible(retry: Retry) {
    && retry.maxDelay >= 0.0
    && forall i :: 0 <= i < |retry.schedule| ==> retry.schedule[i] >= 0.0
  }

  predicate ReportsSuccess(outcome: Outcome) {
    outcome.Delivered? || outcome.ClientError? || outcome.BodyTooLarge?
  }

  function FinalAnswer(outcome: Outcome): Answer
    requires ReportsSuccess(outcome)
  {
    match outcome
    case Delivered => Fetched
    case ClientError => Denied(ClientStatus)
    case BodyTooLarge => Denied(Oversized)
  }

  /** The error an attempt to retry after leaves for the caller. */
  function ErrorOf(outcome: Outcome): Failure
    requires !ReportsSuccess(outcome)
  {
    match outcome
    case RateLimited(d) => TooManyRequests(d)
    case ServerError => ServerStatus
    case TransportError => Transport
  }

  function ReportEvent(round: Round): Event {
    if ReportsSuccess(round.outcome) then Success else Event.Failure(round.reported)
  }

  function OrElse(last: Option<Failure>, default: Failure): Answer {
    Denied(last.GetOr(default))
  }

  // ------------------------------------------------------------ the loop as a function

  /** The breaker when the round observes it before sending. */
  function AtSend(b: Breaker, round: Round): Breaker {
    Run(b, round.others)
  }

  /** The breaker just after the round's report. */
  function Reported(b: Breaker, round: Round): Breaker {
    Apply(Run(AtSend(b, round), round.meanwhile), ReportEvent(round))
  }

  /** The breaker when the round observes it after its report. */
  function AfterReport(b: Breaker, round: Round): Breaker {
    Run(Reported(b, round), round.afterwards)
  }

  function UpToReport(round: Round): seq<Event> {
    round.others + round.meanwhile + [ReportEvent(round)]
  }

  function RoundEvents(round: Round): seq<Event> {
    UpToReport(round) + round.afterwards
  }

  function SentActions(round: Round): seq<Action> {
    [Grant, Observe(false), Send(round.outcome), Report(ReportsSuccess(round.outcome))]
  }

  /** The lock events of one wait. */
  ghost function Permits(bs: seq<Limiter.Bucket>, round: Round): seq<Limiter.Event> {
    Limiter.TurnEvents(round.turns, Limiter.Waited(bs, round.turns, 0).0)
  }

  ghost predicate Granted(bs: seq<Limiter.Bucket>, round: Round) {
    Limiter.Waited(bs, round.turns, 0).1
  }

  ghost function AfterWait(bs: seq<Limiter.Bucket>, round: Round): seq<Limiter.Bucket> {
    Limiter.Final(bs, Permits(bs, round))
  }

  /** One round up to the decision whether to try again. */
  ghost function OneTry(b: Breaker, bs: seq<Limiter.Bucket>, round: Round): Call {
    var sent, permits := SentActions(round), Permits(bs, round);
    if !Granted(bs, round) then Call([], round.others, permits, AtSend(b, round), StillWaiting)
    else if AtSend(b, round).phase.Open? then
      Call([Grant, Observe(true)], round.others, permits, AtSend(b, round), Denied(BreakerOpen))
    else if ReportsSuccess(round.outcome) then
      Call(sent, UpToReport(round), permits, Reported(b, round), FinalAnswer(round.outcome))
    else
      Call(sent + [Observe(AfterReport(b, round).phase.Open?)], RoundEvents(round), permits, AfterReport(b, round),
           Denied(ErrorOf(round.outcome)))
  }

  /** The call ends with this round whatever the retry policy says. */
  ghost predicate Stops(b: Breaker, bs: seq<Limiter.Bucket>, round: Round) {
    || !Granted(bs, round) || AtSend(b, round).phase.Open? || ReportsSuccess(round.outcome)
    || AfterReport(b, round).phase.Open?
  }

  ghost predicate Continues(b: Breaker, bs: seq<Limiter.Bucket>, retry: Retry, round: Round, attempt: nat,
                            elapsed: real)
  {
    && !Stops(b, bs, round) && attempt < retry.maxAttempts
    && elapsed + round.queued + round.inFlight + Delay(retry, attempt, round) <= retry.maxTotalWait
  }

  /** When the next round starts. */
  function NextElapsed(retry: Retry, round: Round, attempt: nat, elapsed: real): real {
    elapsed + round.queued + round.inFlight + Delay(retry, attempt, round) + round.overshoot
  }

  /** The rounds from number `attempt` on, `elapsed` seconds after the call began. */
  ghost function Rounds(b: Breaker, bs: seq<Limiter.Bucket>, retry: Retry, rounds: nat -> Round, attempt: nat,
                        elapsed: real): Call
    requires attempt >= 1
    decreases if retry.maxAttempts > attempt then retry.maxAttempts - attempt else 0
  {
    var round := rounds(attempt);
    var try := OneTry(b, bs, round);
    if Continues(b, bs, retry, round, attempt, elapsed) then
      Prefixed(try.actions + [Sleep(Delay(retry, attempt, round))], try.events, try.permits,
               Rounds(AfterReport(b, round), AfterWait(bs, round), retry, rounds, attempt + 1,
                      NextElapsed(retry, round, attempt, elapsed)))
    else try
  }

  lemma RoundsNext(b: Breaker, bs: seq<Limiter.Bucket>, retry: Retry, rounds: nat -> Round, attempt: nat,
                   elapsed: real)
    requires attempt >= 1
    ensures var round := rounds(attempt);
            var try := OneTry(b, bs, round);
            Rounds(b, bs, retry, rounds, attempt, elapsed) ==
            if !Continues(b, bs, retry, round, attempt, elapsed) then try
            else
              Prefixed(try.actions + [Sleep(Delay(retry, attempt, round))], try.events, try.permits,
                       Rounds(AfterReport(b, round), AfterWait(bs, round), retry, rounds, attempt + 1,
                              NextElapsed(retry, round, attempt, elapsed)))
  {
  }

  ghost function Dispatched(b: Breaker, bs: seq<Limiter.Bucket>, retry: Retry, rounds: nat -> Round): Call {
    Rounds(b, bs, retry, rounds, 1, 0.0)
  }

  /** What the cache says: a fresh entry, nothing to answer with, or a failed read. */
  datatype CacheAnswer = Fresh | Miss | ReadError

  /** `get_with`: refused by the breaker, answered or failed by the cache, or dispatched. */
  ghost function Gotten(b: Breaker, bs: seq<Limiter.Bucket>, now: real, cache: CacheAnswer, retry: Retry,
                        rounds: nat -> Round): Call
  {
    var (claimed, verdict) := Checked(b, now);
    if verdict.Reject? then Call([], [Check(now)], [], claimed, Denied(BreakerOpen))
    else
      match cache
      case Fresh => Call([], [Check(now)], [], claimed, Fetched)
      case ReadError => Call([], [Check(now)], [], claimed, Denied(CacheUnreadable))
      case Miss => Prefixed([], [Check(now)], [], Dispatched(claimed, bs, retry, rounds))
  }

  // ------------------------------------------------------------ the loop as written

  /** The three records of a service, with its breaker and its buckets. */
  datatype Moment = Moment(
    trace: seq<Action>,
    seen: seq<Event>,
    locked: seq<Limiter.Event>,
    breaker: Breaker,
    buckets: seq<Limiter.Bucket>
  )

  /** The records grew by those of a call, and breaker and buckets are where it left them. */
  ghost predicate Did(before: Moment, after: Moment, call: Call) {
    && after.trace == before.trace + call.actions
    && after.seen == before.seen + call.events
    && after.locked == before.locked + call.permits
    && after.breaker == call.breaker
    && after.buckets == Limiter.Final(before.buckets, call.permits)
  }

  /** One service behind the gate. Every effect of a call goes through a method below, which records it:
      what the call does, what happens at the breaker, what happens at the limiter's lock. */
  class ServiceState {
    const limiter: Limiter.Limiter
    const breaker: CircuitBreaker
    ghost var trace: seq<Action>
    ghost var seen: seq<Event>
    ghost var locked: seq<Limiter.Event>

    ghost predicate Valid()
      reads this, limiter, limiter.buckets
    {
      limiter.Valid()
    }

    ghost function Now(): Moment
      reads this, breaker, limiter, limiter.buckets
    {
      Moment(trace, seen, locked, breaker.Value(), limiter.buckets[..])
    }

    constructor (limiter: Limiter.Limiter, breaker: CircuitBreaker)
      requires limiter.Valid()
      ensures Valid() && this.limiter == limiter && this.breaker == breaker
    {
      this.limiter, this.breaker := limiter, breaker;
      trace, seen, locked := [], [], [];
    }

    /** Other callers act on the shared breaker. */
    method Others(events: seq<Event>)
      modifies this`seen, breaker
      ensures seen == old(seen) + events && breaker.Value() == Run(old(breaker.Value()), events)
    {
      hide Checked, Peeked, Succeeded, Failed;
      ghost var before := breaker.Value();
      for i := 0 to |events|
        invariant seen == old(seen) && breaker.Value() == Run(before, events[..i])
      {
        assert events[..i + 1] == events[..i] + [events[i]];
        RunNext(before, events[..i], events[i]);
        match events[i] {
          case Check(t) => var _ := breaker.Check(t);
          case Peek(t) => var _ := breaker.Peek(t);
          case Success => breaker.OnSuccess();
          case Failure(t) => breaker.OnFailure(t);
        }
      }
      assert events[..|events|] == events;
      seen := seen + events;
    }

    /** `breaker_state(service) == Open`. */
    method IsOpen() returns (open: bool)
      modifies this`trace
      ensures open == breaker.phase.Open? && trace == old(trace) + [Observe(open)]
    {
      open := breaker.phase == Open;
      trace := trace + [Observe(open)];
    }

    /** `send`: the request goes out while others act on the breaker. */
    method SendRequest(round: Round) returns (outcome: Outcome)
      modifies this`trace, this`seen, breaker
      ensures outcome == round.outcome && trace == old(trace) + [Send(outcome)]
      ensures seen == old(seen) + round.meanwhile
      ensures breaker.Value() == Run(old(breaker.Value()), round.meanwhile)
    {
      outcome := round.outcome;
      trace := trace + [Send(outcome)];
      Others(round.meanwhile);
    }

    method RecordSuccess()
      modifies this`trace, this`seen, breaker
      ensures trace == old(trace) + [Report(true)] && seen == old(seen) + [Success]
      ensures breaker.Value() == Succeeded(old(breaker.Value()))
    {
      breaker.OnSuccess();
      trace, seen := trace + [Report(true)], seen + [Success];
    }

    method RecordFailure(at: real)
      modifies this`trace, this`seen, breaker
      ensures trace == old(trace) + [Report(false)] && seen == old(seen) + [Event.Failure(at)]
      ensures breaker.Value() == Failed(old(breaker.Value()), at)
    {
      breaker.OnFailure(at);
      trace, seen := trace + [Report(false)], seen + [Event.Failure(at)];
    }

    method Pause(span: real)
      modifies this`trace
      ensures trace == old(trace) + [Sleep(span)]
    {
      trace := trace + [Sleep(span)];
    }

    /** Steps 3 on of one round: the request, its report and the look at the breaker after it. `open` has a
        meaning only when the outcome is one to retry after. */
    method SendAndReport(round: Round) returns (answer: Option<Answer>, failed: Option<Failure>, open: bool)
      modifies this`trace, this`seen, breaker
      ensures answer.Some? == ReportsSuccess(round.outcome)
      ensures answer.Some? ==> answer.value == FinalAnswer(round.outcome)
      ensures answer.None? ==> failed == Some(ErrorOf(round.outcome))
      ensures var report := Apply(Run(old(breaker.Value()), round.meanwhile), ReportEvent(round));
              if answer.Some? then
                && breaker.Value() == report
                && seen == old(seen) + (round.meanwhile + [ReportEvent(round)])
                && trace == old(trace) + [Send(round.outcome), Report(true)]
              else
                && breaker.Value() == Run(report, round.afterwards)
                && open == breaker.phase.Open?
                && seen == old(seen) + (round.meanwhile + [ReportEvent(round)] + round.afterwards)
                && trace == old(trace) + [Send(round.outcome), Report(false), Observe(open)]
    {
      hide Run, Succeeded, Failed;
      var outcome := SendRequest(round);
      open, failed := false, None;
      match outcome {
        case Delivered =>
          RecordSuccess();
          return Some(Fetched), failed, open;
        case RateLimited(d) =>
          failed := Some(TooManyRequests(d));
          RecordFailure(round.reported);
        case ServerError =>
          failed := Some(ServerStatus);
          RecordFailure(round.reported);
        case ClientError =>
          RecordSuccess();
          return Some(Denied(ClientStatus)), failed, open;
        case BodyTooLarge =>
          RecordSuccess();
          return Some(Denied(Oversized)), failed, open;
        case TransportError =>
          failed := Some(Transport);
          RecordFailure(round.reported);
      }
      Others(round.afterwards);
      open := IsOpen();
      return None, failed, open;
    }

    /** One round of the loop, up to the look at the breaker after a failure. */
    method TryOnce(round: Round) returns (stop: bool, answer: Answer, lastErr: Option<Failure>)
      requires Valid()
      modifies this, breaker, limiter.buckets
      ensures Valid() && stop == Stops(old(breaker.Value()), old(limiter.buckets[..]), round)
      ensures Did(old(Now()), Now(), OneTry(old(breaker.Value()), old(limiter.buckets[..]), round))
      ensures stop ==> answer == OneTry(old(breaker.Value()), old(limiter.buckets[..]), round).answer
      ensures !stop ==> lastErr == Some(ErrorOf(round.outcome))
    {
      hide Run, Apply, ReportsSuccess, ErrorOf, Permits, Granted, Limiter.Final;
      lastErr := None;
      var granted := AwaitRound(round);
      if !granted {
        return true, StillWaiting, lastErr;
      }
      var open := IsOpen();
      if open {
        return true, Denied(BreakerOpen), lastErr;
      }
      var final;
      final, lastErr, open := SendAndReport(round);
      if final.Some? {
        return true, final.value, lastErr;
      }
      // Preserve the actual failure on the opening request.
      return open, OrElse(lastErr, BreakerOpen), lastErr;
    }

    /** `dispatch`. */
    method Dispatch(retry: Retry, rounds: nat -> Round) returns (answer: Answer)
      requires Valid()
      modifies this, breaker, limiter.buckets
      ensures Valid() && answer == Dispatched(old(breaker.Value()), old(limiter.buckets[..]), retry, rounds).answer
      ensures Did(old(Now()), Now(), Dispatched(old(breaker.Value()), old(limiter.buckets[..]), retry, rounds))
    {
      hide Did, Delay, Stops, OneTry, ErrorOf, AfterReport, AfterWait, Rounds;
      var attempt, elapsed := 0, 0.0;
      ghost var whole := Rounds(breaker.Value(), limiter.buckets[..], retry, rounds, 1, 0.0);
      ghost var actions: seq<Action>, events: seq<Event>, permits: seq<Limiter.Event> := [], [], [];
      PrefixNothing(whole);
      NothingDone(Now());
      while true
        invariant Valid() && (attempt == 0 || attempt < retry.maxAttempts)
        invariant Did(old(Now()), Now(), Call(actions, events, permits, breaker.Value(), StillWaiting))
        invariant whole == Prefixed(actions, events, permits,
                                    Rounds(breaker.Value(), limiter.buckets[..], retry, rounds, attempt + 1, elapsed))
        decreases (if retry.maxAttempts > attempt then retry.maxAttempts - attempt else 0),
                  if attempt == 0 then 1 else 0
      {
        attempt := attempt + 1;
        var round := rounds(attempt);
        ghost var start, b, bs := Now(), breaker.Value(), limiter.buckets[..];
        ghost var try := OneTry(b, bs, round);
        var stop, lastErr;
        stop, answer, lastErr := TryOnce(round);
        DidBoth(old(Now()), start, Now(), actions, events, permits, try);
        DidEnds(start, Now(), try);
        TryEndsAt(b, bs, round);
        RoundsNext(b, bs, retry, rounds, attempt, elapsed);
        if stop {
          return answer;
        }
        if attempt >= retry.maxAttempts {
          return OrElse(lastErr, RetryExhausted);
        }
        var delay := Delay(retry, attempt, round);
        var now := elapsed + round.queued + round.inFlight;
        if now + delay > retry.maxTotalWait {
          return OrElse(lastErr, RetryBudgetSpent);
        }
        ghost var tried := Now();
        Pause(delay);
        elapsed := now + delay + round.overshoot;
        ghost var part := try.(actions := try.actions + [Sleep(delay)], answer := StillWaiting);
        DidSleep(start, tried, Now(), try, delay);
        DidBoth(old(Now()), start, Now(), actions, events, permits, part);
        PrefixTwice(actions, events, permits, part.actions, part.events, part.permits,
                    Rounds(breaker.Value(), limiter.buckets[..], retry, rounds, attempt + 1, elapsed));
        actions, events, permits := actions + part.actions, events + part.events, permits + part.permits;
      }
    }

    /** Step 3 of one round: wait for the limiter. */
    method AwaitRound(round: Round) returns (granted: bool)
      requires Valid()
      modifies this, breaker, limiter.buckets
      ensures Valid() && granted == Granted(old(limiter.buckets[..]), round)
      ensures trace == old(trace) + if granted then [Grant] else []
      ensures seen == old(seen) + round.others
      ensures locked == old(locked) + Permits(old(limiter.buckets[..]), round)
      ensures breaker.Value() == AtSend(old(breaker.Value()), round)
      ensures limiter.buckets[..] == AfterWait(old(limiter.buckets[..]), round)
    {
      var used;
      used, granted := limiter.Acquire(round.turns);
      trace := trace + if granted then [Grant] else [];
      locked := locked + Limiter.TurnEvents(round.turns, used);
      Others(round.others);
    }

    /** `get_with`, once the URL is parsed. */
    method GetWith(now: real, cache: CacheAnswer, retry: Retry, rounds: nat -> Round) returns (answer: Answer)
      requires Valid()
      modifies this, breaker, limiter.buckets
      ensures Valid()
      ensures answer == Gotten(old(breaker.Value()), old(limiter.buckets[..]), now, cache, retry, rounds).answer
      ensures Did(old(Now()), Now(), Gotten(old(breaker.Value()), old(limiter.buckets[..]), now, cache, retry, rounds))
    {
      hide Dispatched, Limiter.Final, Checked;
      NothingDone(Now());
      var verdict := breaker.Check(now);
      seen := seen + [Check(now)];
      ghost var claimed := Now();
      assert Did(old(Now()), claimed, Call([], [Check(now)], [], claimed.breaker, StillWaiting));
      if verdict.Reject? {
        return Denied(BreakerOpen);
      }
      match cache {
        case Fresh => answer := Fetched;
        case ReadError => answer := Denied(CacheUnreadable);
        case Miss =>
          answer := Dispatch(retry, rounds);
          DidBoth(old(Now()), claimed, Now(), [], [Check(now)], [],
                  Dispatched(claimed.breaker, claimed.buckets, retry, rounds));
      }
    }
  }

  // ------------------------------------------------------------ joining the parts of a call

  lemma NothingDone(m: Moment)
    ensures Did(m, m, Call([], [], [], m.breaker, StillWaiting))
  {
  }

  /** Where a round to be retried leaves breaker and buckets, and the error it leaves. */
  lemma TryEndsAt(b: Breaker, bs: seq<Limiter.Bucket>, round: Round)
    ensures !Stops(b, bs, round) ==>
              && OneTry(b, bs, round).breaker == AfterReport(b, round)
              && Limiter.Final(bs, OneTry(b, bs, round).permits) == AfterWait(bs, round)
              && !ReportsSuccess(round.outcome)
              && OneTry(b, bs, round).answer == Denied(ErrorOf(round.outcome))
  {
    hide Limiter.Final;
  }

  lemma DidEnds(first: Moment, last: Moment, call: Call)
    requires Did(first, last, call)
    ensures last.breaker == call.breaker && last.buckets == Limiter.Final(first.buckets, call.permits)
  {
  }

  lemma DidSleep(first: Moment, mid: Moment, last: Moment, call: Call, span: real)
    requires Did(first, mid, call) && last == mid.(trace := mid.trace + [Sleep(span)])
    ensures Did(first, last, call.(actions := call.actions + [Sleep(span)], answer := StillWaiting))
  {
    hide Limiter.Final;
    assert (first.trace + call.actions) + [Sleep(span)] == first.trace + (call.actions + [Sleep(span)]);
  }

  lemma DidBoth(first: Moment, mid: Moment, last: Moment, actions: seq<Action>, events: seq<Event>,
                permits: seq<Limiter.Event>, call: Call)
    requires Did(first, mid, Call(actions, events, permits, mid.breaker, StillWaiting)) && Did(mid, last, call)
    ensures Did(first, last, Prefixed(actions, events, permits, call))
  {
    hide Limiter.Final;
    Limiter.FinalConcat(first.buckets, permits, call.permits);
    assert (first.trace + actions) + call.actions == first.trace + (actions + call.actions);
    assert (first.seen + events) + call.events == first.seen + (events + call.events);
    assert (first.locked + permits) + call.permits == first.locked + (permits + call.permits);
  }

  lemma PrefixNothing(call: Call)
    ensures Prefixed([], [], [], call) == call
  {
    assert [] + call.actions == call.actions && [] + call.events == call.events && [] + call.permits == call.permits;
  }

  ghost function Prefixed(actions: seq<Action>, events: seq<Event>, permits: seq<Limiter.Event>, call: Call): Call {
    call.(actions := actions + call.actions, events := events + call.events, permits := permits + call.permits)
  }

  lemma PrefixTwice(a: seq<Action>, e: seq<Event>, p: seq<Limiter.Event>, b: seq<Action>, f: seq<Event>,
                    q: seq<Limiter.Event>, call: Call)
    ensures Prefixed(a, e, p, Prefixed(b, f, q, call)) == Prefixed(a + b, e + f, p + q, call)
  {
    assert a + (b + call.actions) == (a + b) + call.actions;
    assert e + (f + call.events) == (e + f) + call.events;
    assert p + (q + call.permits) == (p + q) + call.permits;
  }

  lemma RunNext(b: Breaker, h: seq<Event>, e: Event)
    ensures Run(b, h + [e]) == Apply(Run(b, h), e)
  {
    assert Breakers.Init(h + [e]) == h && Breakers.Last(h + [e]) == e;
  }

  lemma {:induction false} RunConcat(b: Breaker, h: seq<Event>, g: seq<Event>)
    ensures Run(b, h + g) == Run(Run(b, h), g)
    decreases |g|
  {
    if g == [] {
      assert h + g == h;
    } else {
      RunConcat(b, h, Breakers.Init(g));
      RunNext(b, h + Breakers.Init(g), Breakers.Last(g));
      assert h + g == (h + Breakers.Init(g)) + [Breakers.Last(g)];
    }
  }
}
