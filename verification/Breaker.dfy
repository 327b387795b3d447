/** The circuit breaker: its four operations on a mutable object, and what every history of them
    allows. Time is a real number of seconds; `Instant::duration_since` saturates at zero. */
module Breakers {
  import opened Wrappers

  const U32_MAX: nat := 0xffff_ffff

  datatype Phase = Closed | Open | HalfOpen
  datatype Verdict = Allow | Reject(retryIn: real)

  datatype Breaker = Breaker(
    threshold: nat,
    cooldown: real,
    failures: nat,
    phase: Phase,
    openedAt: Option<real>,
    probeInFlight: bool
  )

  function AtLeastOne(n: nat): nat {
    if n < 1 then 1 else n
  }

  function NewBreaker(threshold: nat, cooldown: real): Breaker {
    Breaker(AtLeastOne(threshold), cooldown, 0, Closed, None, false)
  }

  /** `now.duration_since(at)`. */
  function Since(now: real, at: real): real {
    if now >= at then now - at else 0.0
  }

  function Remaining(cooldown: real, passed: real): real {
    if cooldown > passed then cooldown - passed else 0.0
  }

  const PROBE_RETRY: real := 0.25

  function Checked(b: Breaker, now: real): (Breaker, Verdict) {
    match b.phase
    case Closed => (b, Allow)
    case Open =>
      (match b.openedAt
       case None => (b, Allow)
       case Some(at) =>
         if Since(now, at) >= b.cooldown then (b.(phase := HalfOpen, probeInFlight := true), Allow)
         else (b, Reject(Remaining(b.cooldown, Since(now, at)))))
    case HalfOpen =>
      if b.probeInFlight then (b, Reject(PROBE_RETRY)) else (b.(probeInFlight := true), Allow)
  }

  function Peeked(b: Breaker, now: real): (Breaker, bool) {
    match b.phase
    case Closed => (b, true)
    case Open =>
      if b.openedAt.Some? && Since(now, b.openedAt.value) >= b.cooldown then (b.(phase := HalfOpen), true)
      else (b, false)
    case HalfOpen => (b, !b.probeInFlight)
  }

  function Succeeded(b: Breaker): Breaker {
    b.(failures := 0, phase := Closed, openedAt := None, probeInFlight := false)
  }

  function SaturatingNext(n: nat): nat {
    if n < U32_MAX then n + 1 else n
  }

  function Failed(b: Breaker, now: real): Breaker {
    if b.phase.HalfOpen? then
      b.(probeInFlight := false, phase := Open, openedAt := Some(now), failures := b.threshold)
    else
      var n := SaturatingNext(b.failures);
      if n >= b.threshold then b.(probeInFlight := false, failures := n, phase := Open, openedAt := Some(now))
      else b.(probeInFlight := false, failures := n)
  }

  /** The breaker as the source has it: a record updated in place. */
  class CircuitBreaker {
    const threshold: nat
    const cooldown: real
    var failures: nat
    var phase: Phase
    var openedAt: Option<real>
    var probeInFlight: bool

    ghost function Value(): Breaker
      reads this
    {
      Breaker(threshold, cooldown, failures, phase, openedAt, probeInFlight)
    }

    constructor (threshold: nat, cooldown: real)
      ensures Value() == NewBreaker(threshold, cooldown)
      ensures Value() == Breaker(if threshold == 0 then 1 else threshold, cooldown, 0, Closed, None, false)
    {
      this.threshold := AtLeastOne(threshold);
      this.cooldown := cooldown;
      failures, phase, openedAt, probeInFlight := 0, Closed, None, false;
    }

    method Check(now: real) returns (verdict: Verdict)
      modifies this
      ensures (Value(), verdict) == Checked(old(Value()), now)
    {
      match phase {
        case Closed =>
          return Allow;
        case Open =>
          match openedAt {
            case None =>
              return Allow;
            case Some(at) =>
              if Since(now, at) >= cooldown {
                phase, probeInFlight := HalfOpen, true;
                return Allow;
              }
              return Reject(Remaining(cooldown, Since(now, at)));
          }
        case HalfOpen =>
          if probeInFlight {
            return Reject(PROBE_RETRY);
          }
          probeInFlight := true;
          return Allow;
      }
    }

    method Peek(now: real) returns (may: bool)
      modifies this
      ensures (Value(), may) == Peeked(old(Value()), now)
    {
      match phase {
        case Closed =>
          return true;
        case Open =>
          if openedAt.Some? && Since(now, openedAt.value) >= cooldown {
            phase := HalfOpen;
            return true;
          }
          return false;
        case HalfOpen =>
          return !probeInFlight;
      }
    }

    method OnSuccess()
      modifies this
      ensures Value() == Succeeded(old(Value()))
    {
      failures, phase, openedAt, probeInFlight := 0, Closed, None, false;
    }

    method OnFailure(now: real)
      modifies this
      ensures Value() == Failed(old(Value()), now)
    {
      probeInFlight := false;
      if phase.HalfOpen? {
        phase, openedAt, failures := Open, Some(now), threshold;
      } else {
        failures := SaturatingNext(failures);
        if failures >= threshold {
          phase, openedAt := Open, Some(now);
        }
      }
    }
  }

  // ------------------------------------------------------------ histories

  datatype Event = Check(at: real) | Peek(at: real) | Success | Failure(at: real)

  function Apply(b: Breaker, e: Event): Breaker {
    match e
    case Check(t) => Checked(b, t).0
    case Peek(t) => Peeked(b, t).0
    case Success => Succeeded(b)
    case Failure(t) => Failed(b, t)
  }

  function Init(h: seq<Event>): seq<Event>
    requires h != []
  {
    h[..|h| - 1]
  }

  function Last(h: seq<Event>): Event
    requires h != []
  {
    h[|h| - 1]
  }

  function Run(b: Breaker, h: seq<Event>): Breaker {
    if h == [] then b else Apply(Run(b, Init(h)), Last(h))
  }

  /** The latest time read so far. */
  ghost function Clock(start: real, h: seq<Event>): real {
    if h == [] then start else if Last(h).Success? then Clock(start, Init(h)) else Last(h).at
  }

  /** No event reads an earlier time than one before it. Reports may arrive in any order. */
  ghost predicate Monotone(start: real, h: seq<Event>) {
    h == [] || (Monotone(start, Init(h)) && (Last(h).Success? || Clock(start, Init(h)) <= Last(h).at))
  }

  // What matters of a history, without reference to the machine.

  ghost function FailuresSinceSuccess(h: seq<Event>): nat {
    if h == [] || Last(h).Success? then 0
    else FailuresSinceSuccess(Init(h)) + if Last(h).Failure? then 1 else 0
  }

  ghost function LastFailure(h: seq<Event>): real {
    if h == [] then 0.0 else if Last(h).Failure? then Last(h).at else LastFailure(Init(h))
  }

  ghost predicate IsReport(e: Event) {
    e.Success? || e.Failure?
  }

  /** A check was allowed after the last report. */
  ghost predicate TrialOut(threshold: nat, cooldown: real, h: seq<Event>)
    decreases |h|, 0
  {
    && h != [] && !IsReport(Last(h))
    && (TrialOut(threshold, cooldown, Init(h))
        || (Last(h).Check? && Allowed(threshold, cooldown, Init(h), Last(h).at)))
  }

  /** Fewer failures than the threshold since the last success, or the cooldown has passed since
      the last failure and no trial is out. */
  ghost predicate Allowed(threshold: nat, cooldown: real, h: seq<Event>, now: real)
    decreases |h|, 1
  {
    || FailuresSinceSuccess(h) < threshold
    || (now >= LastFailure(h) + cooldown && !TrialOut(threshold, cooldown, h))
  }

  ghost function VerdictOf(threshold: nat, cooldown: real, h: seq<Event>, now: real): Verdict {
    if Allowed(threshold, cooldown, h, now) then Allow
    else if now < LastFailure(h) + cooldown then Reject(LastFailure(h) + cooldown - now)
    else Reject(PROBE_RETRY)
  }

  /** How the machine's fields stand after a history. */
  ghost predicate Reflects(b: Breaker, start: real, h: seq<Event>) {
    var n := FailuresSinceSuccess(h);
    match b.phase
    case Closed => b.failures == n && n < b.threshold && b.openedAt.None? && !b.probeInFlight
    case Open =>
      && n >= b.threshold && b.openedAt == Some(LastFailure(h)) && !b.probeInFlight
      && b.failures >= b.threshold && !TrialOut(b.threshold, b.cooldown, h) && LastFailure(h) <= Clock(start, h)
    case HalfOpen =>
      && n >= b.threshold && b.openedAt == Some(LastFailure(h)) && b.failures >= b.threshold
      && b.probeInFlight == TrialOut(b.threshold, b.cooldown, h)
      && LastFailure(h) + b.cooldown <= Clock(start, h)
  }

  lemma {:induction false} RunReflects(threshold: nat, cooldown: real, start: real, h: seq<Event>)
    requires threshold <= U32_MAX && cooldown >= 0.0 && Monotone(start, h)
    ensures var b := Run(NewBreaker(threshold, cooldown), h);
            && b.threshold == AtLeastOne(threshold) && b.cooldown == cooldown
            && Reflects(b, start, h)
    decreases |h|
  {
    if h != [] { RunReflects(threshold, cooldown, start, Init(h)); }
  }

  /** Over every monotone history: the breaker is closed exactly when fewer than the threshold
      failures were reported since the last success, and every verdict, with its retry time, is
      the one the history alone determines. */
  lemma HistoryDeterminesVerdict(threshold: nat, cooldown: real, start: real, h: seq<Event>, now: real)
    requires threshold <= U32_MAX && cooldown >= 0.0 && Monotone(start, h) && Clock(start, h) <= now
    ensures var b, limit := Run(NewBreaker(threshold, cooldown), h), if threshold == 0 then 1 else threshold;
            && (b.phase.Closed? <==> FailuresSinceSuccess(h) < limit)
            && Checked(b, now).1 == VerdictOf(limit, cooldown, h, now)
            && (Peeked(b, now).1 <==> Allowed(limit, cooldown, h, now))
  {
    RunReflects(threshold, cooldown, start, h);
  }

  /** A history without its peeks. */
  ghost function WithoutPeeks(h: seq<Event>): seq<Event> {
    if h == [] then [] else WithoutPeeks(Init(h)) + if Last(h).Peek? then [] else [Last(h)]
  }

  /** Nothing a verdict depends on differs between the two histories. */
  ghost predicate SameEvidence(threshold: nat, cooldown: real, start: real, e: seq<Event>, h: seq<Event>) {
    && FailuresSinceSuccess(e) == FailuresSinceSuccess(h) && LastFailure(e) == LastFailure(h)
    && TrialOut(threshold, cooldown, e) == TrialOut(threshold, cooldown, h)
    && Monotone(start, e) && Clock(start, e) <= Clock(start, h)
  }

  lemma SameEvidenceNext(threshold: nat, cooldown: real, start: real, e: seq<Event>, h: seq<Event>, x: Event)
    requires SameEvidence(threshold, cooldown, start, e, h) && Monotone(start, h + [x])
    ensures SameEvidence(threshold, cooldown, start, if x.Peek? then e else e + [x], h + [x])
  {
    assert Init(h + [x]) == h && Last(h + [x]) == x;
    assert Init(e + [x]) == e && Last(e + [x]) == x;
  }

  lemma {:induction false} PeeksDoNotMatter(threshold: nat, cooldown: real, start: real, h: seq<Event>)
    requires Monotone(start, h)
    ensures SameEvidence(threshold, cooldown, start, WithoutPeeks(h), h)
    decreases |h|
  {
    if h != [] {
      PeeksDoNotMatter(threshold, cooldown, start, Init(h));
      assert h == Init(h) + [Last(h)];
      SameEvidenceNext(threshold, cooldown, start, WithoutPeeks(Init(h)), Init(h), Last(h));
      assert WithoutPeeks(Init(h)) + [] == WithoutPeeks(Init(h));
    }
  }

  /** Asking spends nothing: erasing every peek from a history leaves the next verdict as it was. */
  lemma PeekErasure(threshold: nat, cooldown: real, start: real, h: seq<Event>, now: real)
    requires threshold <= U32_MAX && cooldown >= 0.0 && Monotone(start, h) && Clock(start, h) <= now
    ensures Checked(Run(NewBreaker(threshold, cooldown), h), now).1 ==
            Checked(Run(NewBreaker(threshold, cooldown), WithoutPeeks(h)), now).1
  {
    PeeksDoNotMatter(AtLeastOne(threshold), cooldown, start, h);
    HistoryDeterminesVerdict(threshold, cooldown, start, h, now);
    HistoryDeterminesVerdict(threshold, cooldown, start, WithoutPeeks(h), now);
  }

  ghost predicate NoReports(h: seq<Event>) {
    forall i :: 0 <= i < |h| ==> !h[i].Success? && !h[i].Failure?
  }

  lemma {:induction false} TrialStaysOut(threshold: nat, cooldown: real, h: seq<Event>, more: seq<Event>)
    requires NoReports(more) && TrialOut(threshold, cooldown, h)
    ensures TrialOut(threshold, cooldown, h + more)
    ensures FailuresSinceSuccess(h + more) == FailuresSinceSuccess(h)
    decreases |more|
  {
    if more == [] {
      assert h + more == h;
    } else {
      TrialStaysOut(threshold, cooldown, h, Init(more));
      assert Init(h + more) == h + Init(more) && Last(h + more) == Last(more);
    }
  }

  /** Once tripped, at most one check is allowed between two consecutive reports: after an allowed
      one, every later check before the next report is rejected. */
  lemma AtMostOneTrial(threshold: nat, cooldown: real, start: real, h: seq<Event>, first: real, between: seq<Event>,
                       second: real)
    requires threshold <= U32_MAX && cooldown >= 0.0
    requires FailuresSinceSuccess(h) >= AtLeastOne(threshold) && NoReports(between)
    requires Monotone(start, h + [Check(first)] + between) && Clock(start, h + [Check(first)] + between) <= second
    requires Allowed(AtLeastOne(threshold), cooldown, h, first)
    ensures Checked(Run(NewBreaker(threshold, cooldown), h + [Check(first)] + between), second).1.Reject?
  {
    var tried := h + [Check(first)];
    assert Init(tried) == h && Last(tried) == Check(first);
    TrialStaysOut(AtLeastOne(threshold), cooldown, tried, between);
    HistoryDeterminesVerdict(threshold, cooldown, start, tried + between, second);
  }

  // ------------------------------------------------------------ what `failures()` counts

  /** Since the last report, with the breaker tripped, somebody looked after the cooldown. */
  ghost predicate Probed(threshold: nat, cooldown: real, h: seq<Event>) {
    && h != [] && !IsReport(Last(h))
    && (Probed(threshold, cooldown, Init(h))
        || (FailuresSinceSuccess(h) >= threshold && Last(h).at >= LastFailure(h) + cooldown))
  }

  /** Since the last success, a failure was reported after such a look. */
  ghost predicate Capped(threshold: nat, cooldown: real, h: seq<Event>) {
    && h != [] && !Last(h).Success?
    && (Capped(threshold, cooldown, Init(h)) || (Last(h).Failure? && Probed(threshold, cooldown, Init(h))))
  }

  lemma {:induction false} HalfOpenIffProbed(threshold: nat, cooldown: real, start: real, h: seq<Event>)
    requires threshold <= U32_MAX && cooldown >= 0.0 && Monotone(start, h)
    ensures Run(NewBreaker(threshold, cooldown), h).phase.HalfOpen? <==> Probed(AtLeastOne(threshold), cooldown, h)
    decreases |h|
  {
    if h != [] {
      HalfOpenIffProbed(threshold, cooldown, start, Init(h));
      RunReflects(threshold, cooldown, start, Init(h));
    }
  }

  /** `failures()` never exceeds the number of failures since the last success, and is that number
      exactly when none of them was reported after somebody had looked past the cooldown. */
  lemma {:induction false} FailuresExactIffNotCapped(threshold: nat, cooldown: real, start: real, h: seq<Event>)
    requires threshold <= U32_MAX && cooldown >= 0.0 && Monotone(start, h)
    requires FailuresSinceSuccess(h) <= U32_MAX
    ensures var failures := Run(NewBreaker(threshold, cooldown), h).failures;
            && failures <= FailuresSinceSuccess(h)
            && (failures == FailuresSinceSuccess(h) <==> !Capped(AtLeastOne(threshold), cooldown, h))
    decreases |h|
  {
    if h != [] && !Last(h).Success? {
      FailuresExactIffNotCapped(threshold, cooldown, start, Init(h));
      HalfOpenIffProbed(threshold, cooldown, start, Init(h));
      RunReflects(threshold, cooldown, start, Init(h));
    }
  }

  /** With threshold 2, three failures around a half-open trial are counted as two. */
  lemma FailureCountIsCapped()
    ensures var h := [Failure(0.0), Failure(0.0), Check(10.0), Failure(10.0)];
            Run(NewBreaker(2, 5.0), h).failures == 2 && FailuresSinceSuccess(h) == 3
  {
    var a, b, c, d := Failure(0.0), Failure(0.0), Check(10.0), Failure(10.0);
    assert Init([a, b, c, d]) == [a, b, c] && Init([a, b, c]) == [a, b] && Init([a, b]) == [a] && Init([a]) == [];
    var s := NewBreaker(2, 5.0);
    assert Run(s, [a]) == Apply(s, a);
    assert Run(s, [a, b]) == Apply(Apply(s, a), b);
    assert Run(s, [a, b, c]) == Apply(Run(s, [a, b]), c);
    assert FailuresSinceSuccess([a]) == 1 && FailuresSinceSuccess([a, b]) == 2 && FailuresSinceSuccess([a, b, c]) == 2;
  }
}
