/** The token-bucket limiter: several buckets refilled lazily and spent together. Tokens, rates and
    times are real numbers. */
module Limiter {
  import opened Wrappers
  import opened Numbers

  datatype Bucket = Bucket(rate: real, capacity: real, tokens: real, lastRefill: real)

  function NewBucket(rate: real, capacity: real, now: real): Bucket {
    Bucket(rate, capacity, capacity, now)
  }

  /** Tokens a rate brings in a span of time. */
  function Gain(rate: real, span: real): real {
    span * rate
  }

  function Refill(b: Bucket, now: real): Bucket {
    if now <= b.lastRefill then b
    else b.(tokens := MinReal(b.tokens + Gain(b.rate, now - b.lastRefill), b.capacity), lastRefill := now)
  }

  /** The wait that `probe` reports for a refilled bucket; the source divides by the rate. */
  function WaitOf(b: Bucket): real
    requires b.rate > 0.0
  {
    if b.tokens >= 1.0 then 0.0 else (1.0 - b.tokens) / b.rate
  }

  function Take(b: Bucket): Bucket {
    b.(tokens := b.tokens - 1.0)
  }

  ghost predicate ValidBucket(b: Bucket) {
    b.rate > 0.0 && b.capacity >= 1.0 && 0.0 <= b.tokens <= b.capacity
  }

  ghost predicate ValidAll(bs: seq<Bucket>) {
    forall k :: 0 <= k < |bs| ==> ValidBucket(bs[k])
  }

  function RefillAll(bs: seq<Bucket>, now: real): (r: seq<Bucket>)
    ensures |r| == |bs| && forall k :: 0 <= k < |bs| ==> r[k] == Refill(bs[k], now)
  {
    seq(|bs|, k requires 0 <= k < |bs| => Refill(bs[k], now))
  }

  function TakeAll(bs: seq<Bucket>): (r: seq<Bucket>)
    ensures |r| == |bs| && forall k :: 0 <= k < |bs| ==> r[k] == Take(bs[k])
  {
    seq(|bs|, k requires 0 <= k < |bs| => Take(bs[k]))
  }

  predicate AllReady(bs: seq<Bucket>) {
    forall k :: 0 <= k < |bs| ==> bs[k].tokens >= 1.0
  }

  /** One pass under the lock: refill everything, and spend from every bucket or from none. */
  function Attempted(bs: seq<Bucket>, now: real): (seq<Bucket>, bool) {
    var r := RefillAll(bs, now);
    if AllReady(r) then (TakeAll(r), true) else (r, false)
  }

  ghost predicate IsLongestWait(bs: seq<Bucket>, wait: real)
    requires ValidAll(bs)
  {
    && wait >= 0.0
    && (forall k :: 0 <= k < |bs| ==> WaitOf(bs[k]) <= wait)
    && (wait == 0.0 || exists k :: 0 <= k < |bs| && WaitOf(bs[k]) == wait)
  }

  lemma GainLaws(rate: real, x: real, y: real)
    requires rate > 0.0
    ensures x >= 0.0 ==> Gain(rate, x) >= 0.0
    ensures Gain(rate, x) + Gain(rate, y) == Gain(rate, x + y)
    ensures Gain(rate, x) >= 0.0 ==> x >= 0.0
  {
  }

  lemma RefillKeepsValid(b: Bucket, now: real)
    requires ValidBucket(b)
    ensures ValidBucket(Refill(b, now))
  {
    hide Gain;
    GainLaws(b.rate, now - b.lastRefill, 0.0);
  }

  lemma AttemptKeepsValid(bs: seq<Bucket>, now: real)
    requires ValidAll(bs)
    ensures ValidAll(RefillAll(bs, now)) && ValidAll(Attempted(bs, now).0)
  {
    forall k | 0 <= k < |bs| ensures ValidBucket(RefillAll(bs, now)[k]) { RefillKeepsValid(bs[k], now); }
  }

  /** The limiter as the source has it: a vector of buckets updated in place. */
  class Limiter {
    const buckets: array<Bucket>

    ghost predicate Valid()
      reads this, buckets
    {
      ValidAll(buckets[..])
    }

    constructor (permitsPerSecond: real, burst: nat, perMinuteCap: Option<nat>, now: real)
      ensures fresh(buckets) && (Valid() <==> permitsPerSecond > 0.0)
      ensures var size := (if burst < 1 then 1 else burst) as real;
              buckets[..] ==
              [Bucket(permitsPerSecond, size, size, now)] +
              match perMinuteCap
              case Some(cap) =>
                if cap == 0 then [] else [Bucket(cap as real / 60.0, cap as real, cap as real, now)]
              case None => []
    {
      var first := NewBucket(permitsPerSecond, (if burst < 1 then 1 else burst) as real, now);
      if perMinuteCap.Some? && perMinuteCap.value > 0 {
        var second := NewBucket(perMinuteCap.value as real / 60.0, perMinuteCap.value as real, now);
        buckets := new Bucket[] [first, second];
      } else {
        buckets := new Bucket[] [first];
      }
      new;
      assert buckets[..][0] == first;
    }

    /** The probing loop: refill every bucket in place and report the longest wait. */
    method ProbeAll(now: real) returns (longest: real, ready: bool)
      requires Valid()
      modifies buckets
      ensures Valid() && buckets[..] == RefillAll(old(buckets[..]), now)
      ensures ready == AllReady(buckets[..]) && IsLongestWait(buckets[..], longest)
      ensures !ready ==> longest > 0.0
    {
      longest, ready := 0.0, true;
      ghost var before := buckets[..];
      AttemptKeepsValid(before, now);
      for k := 0 to buckets.Length
        invariant forall i :: 0 <= i < k ==> buckets[i] == RefillAll(before, now)[i]
        invariant forall i :: k <= i < buckets.Length ==> buckets[i] == before[i]
        invariant ready == AllReady(RefillAll(before, now)[..k])
        invariant IsLongestWait(RefillAll(before, now)[..k], longest)
        invariant !ready ==> longest > 0.0
      {
        buckets[k] := Refill(buckets[k], now);
        ghost var r := RefillAll(before, now);
        assert r[..k + 1] == r[..k] + [r[k]];
        var wait := WaitOf(buckets[k]);
        WaitIsPositive(buckets[k]);
        if buckets[k].tokens < 1.0 { ready := false; }
        LongestWaitNext(r[..k], r[k], longest);
        longest := MaxReal(longest, wait);
      }
      assert RefillAll(before, now)[..buckets.Length] == RefillAll(before, now);
      assert buckets[..] == RefillAll(before, now);
    }

    /** One round of the `acquire` loop. */
    method TryAcquire(now: real) returns (granted: bool, wait: real)
      requires Valid()
      modifies buckets
      ensures Valid() && (buckets[..], granted) == Attempted(old(buckets[..]), now)
      ensures !granted ==> IsLongestWait(buckets[..], wait) && wait > 0.0
    {
      ghost var before := buckets[..];
      AttemptKeepsValid(before, now);
      var ready;
      wait, ready := ProbeAll(now);
      if ready {
        ghost var refilled := buckets[..];
        for k := 0 to buckets.Length
          invariant forall i :: 0 <= i < k ==> buckets[i] == Take(refilled[i])
          invariant forall i :: k <= i < buckets.Length ==> buckets[i] == refilled[i]
        {
          buckets[k] := Take(buckets[k]);
        }
        assert buckets[..] == TakeAll(refilled);
      }
      return ready, wait;
    }

    /** `acquire`, over the turns at the lock it gets: it returns at its first round that finds a token
        in every bucket, or is still waiting when the turns end. */
    method Acquire(turns: seq<Turn>) returns (used: nat, granted: bool)
      requires Valid()
      modifies buckets
      ensures Valid() && (used, granted) == Waited(old(buckets[..]), turns, 0)
      ensures buckets[..] == Final(old(buckets[..]), TurnEvents(turns, used))
    {
      hide Attempted, Waited, Final, ValidAll, TurnGrants;
      ghost var before := buckets[..];
      NoTurnYet(before, turns);
      for i := 0 to |turns|
        invariant Valid() && buckets[..] == Final(before, TurnEvents(turns, i))
        invariant Waited(before, turns, 0) == Waited(before, turns, i)
      {
        WaitedNext(before, turns, i);
        TurnNext(before, turns, i);
        var ok := TakeTurn(turns[i]);
        if ok {
          return i + 1, true;
        }
      }
      WaitedOut(before, turns);
      return |turns|, false;
    }

    /** What others do at the lock, then one round. */
    method TakeTurn(turn: Turn) returns (granted: bool)
      requires Valid()
      modifies buckets
      ensures Valid() && (buckets[..], granted) == Attempted(Final(old(buckets[..]), turn.others), turn.at)
    {
      hide Attempted, Final;
      ApplyOthers(turn.others);
      var wait;
      granted, wait := TryAcquire(turn.at);
    }

    /** Other callers at the same lock. */
    method ApplyOthers(events: seq<Event>)
      requires Valid()
      modifies buckets
      ensures Valid() && buckets[..] == Final(old(buckets[..]), events)
    {
      hide Attempted;
      ghost var before := buckets[..];
      for i := 0 to |events|
        invariant Valid() && buckets[..] == Final(before, events[..i])
      {
        assert events[..i + 1] == events[..i] + [events[i]];
        FinalNext(before, events[..i], events[i]);
        match events[i] {
          case Attempt(t) => var _, _ := TryAcquire(t);
          case Query(t) => var _ := QueuedWait(t);
        }
      }
      assert events[..|events|] == events;
    }

    /** `queued_wait`. */
    method QueuedWait(now: real) returns (wait: real)
      requires Valid()
      modifies buckets
      ensures Valid() && buckets[..] == RefillAll(old(buckets[..]), now) && IsLongestWait(buckets[..], wait)
    {
      var ready;
      wait, ready := ProbeAll(now);
    }
  }

  /** One round of a waiting `acquire`: what others do at the lock before it, and its clock reading. */
  datatype Turn = Turn(others: seq<Event>, at: real)

  /** Everything at the lock during the first `n` turns. */
  ghost function TurnEvents(turns: seq<Turn>, n: nat): seq<Event>
    requires n <= |turns|
  {
    if n == 0 then [] else TurnEvents(turns, n - 1) + turns[n - 1].others + [Attempt(turns[n - 1].at)]
  }

  ghost predicate TurnGrants(bs: seq<Bucket>, turns: seq<Turn>, i: nat)
    requires i < |turns|
  {
    Attempted(Final(bs, TurnEvents(turns, i) + turns[i].others), turns[i].at).1
  }

  /** How many turns the wait takes from turn `i` on, and whether it ends with a grant: at the first
      turn that grants. */
  ghost function Waited(bs: seq<Bucket>, turns: seq<Turn>, i: nat): (r: (nat, bool))
    requires i <= |turns|
    ensures i <= r.0 <= |turns|
    decreases |turns| - i
  {
    if i == |turns| then (i, false)
    else if TurnGrants(bs, turns, i) then (i + 1, true)
    else Waited(bs, turns, i + 1)
  }

  lemma NoTurnYet(bs: seq<Bucket>, turns: seq<Turn>)
    ensures Final(bs, TurnEvents(turns, 0)) == bs
  {
  }

  lemma TurnNext(bs: seq<Bucket>, turns: seq<Turn>, i: nat)
    requires i < |turns|
    ensures var attempt := Attempted(Final(Final(bs, TurnEvents(turns, i)), turns[i].others), turns[i].at);
            Final(bs, TurnEvents(turns, i + 1)) == attempt.0 && TurnGrants(bs, turns, i) == attempt.1
  {
    hide Attempted;
    FinalConcat(bs, TurnEvents(turns, i), turns[i].others);
    FinalNext(bs, TurnEvents(turns, i) + turns[i].others, Attempt(turns[i].at));
  }

  lemma WaitedNext(bs: seq<Bucket>, turns: seq<Turn>, i: nat)
    requires i < |turns|
    ensures Waited(bs, turns, i) == if TurnGrants(bs, turns, i) then (i + 1, true) else Waited(bs, turns, i + 1)
  {
  }

  lemma WaitedOut(bs: seq<Bucket>, turns: seq<Turn>)
    ensures Waited(bs, turns, |turns|) == (|turns|, false)
  {
  }

  /** The wait ends exactly at the first of its own rounds that finds a token in every bucket. */
  lemma {:induction false} WaitEndsAtFirstGrant(bs: seq<Bucket>, turns: seq<Turn>, i: nat)
    requires i <= |turns|
    ensures var (used, granted) := Waited(bs, turns, i);
            && (granted <==> exists j :: i <= j < |turns| && TurnGrants(bs, turns, j))
            && (granted ==> used > i && TurnGrants(bs, turns, used - 1))
            && (forall j :: i <= j < used - 1 ==> !TurnGrants(bs, turns, j))
    decreases |turns| - i
  {
    hide TurnGrants;
    if i < |turns| && !TurnGrants(bs, turns, i) { WaitEndsAtFirstGrant(bs, turns, i + 1); }
  }

  lemma WaitIsPositive(b: Bucket)
    requires b.rate > 0.0
    ensures WaitOf(b) >= 0.0 && (WaitOf(b) == 0.0 <==> b.tokens >= 1.0)
  {
    if b.tokens < 1.0 { assert WaitOf(b) * b.rate == 1.0 - b.tokens; }
  }

  lemma LongestWaitNext(bs: seq<Bucket>, b: Bucket, wait: real)
    requires ValidAll(bs) && ValidBucket(b) && IsLongestWait(bs, wait)
    ensures ValidAll(bs + [b]) && IsLongestWait(bs + [b], MaxReal(wait, WaitOf(b)))
  {
    var all := bs + [b];
    assert all[|bs|] == b;
    if wait != 0.0 {
      var k :| 0 <= k < |bs| && WaitOf(bs[k]) == wait;
      assert all[k] == bs[k];
    }
  }

  // ------------------------------------------------------------ runs

  /** Every locked section of every caller, in the order the lock was taken: a round of some
      `acquire`, or a diagnostic query. */
  datatype Event = Attempt(at: real) | Query(at: real)

  ghost function StateAfter(bs: seq<Bucket>, es: seq<Event>, n: nat): (r: seq<Bucket>)
    requires n <= |es|
    ensures |r| == |bs|
  {
    if n == 0 then bs
    else
      var before := StateAfter(bs, es, n - 1);
      match es[n - 1]
      case Attempt(t) => Attempted(before, t).0
      case Query(t) => RefillAll(before, t)
  }

  ghost predicate Grants(bs: seq<Bucket>, es: seq<Event>, i: nat)
    requires i < |es|
  {
    es[i].Attempt? && Attempted(StateAfter(bs, es, i), es[i].at).1
  }

  /** Permits granted by the events from `i` up to `j`. */
  ghost function GrantCount(bs: seq<Bucket>, es: seq<Event>, i: nat, j: nat): nat
    requires i <= j <= |es|
  {
    if i == j then 0 else GrantCount(bs, es, i, j - 1) + if Grants(bs, es, j - 1) then 1 else 0
  }

  /** A nondecreasing clock that starts no earlier than the last refill. */
  ghost predicate Ordered(bs: seq<Bucket>, es: seq<Event>) {
    && (forall i, j :: 0 <= i < j < |es| ==> es[i].at <= es[j].at)
    && (forall i, k :: 0 <= i < |es| && 0 <= k < |bs| ==> bs[k].lastRefill <= es[i].at)
  }

  lemma {:induction false} StateFacts(bs: seq<Bucket>, es: seq<Event>, n: nat, k: nat)
    requires ValidAll(bs) && Ordered(bs, es) && n <= |es| && k < |bs|
    ensures var s := StateAfter(bs, es, n);
            && ValidAll(s) && s[k].rate == bs[k].rate && s[k].capacity == bs[k].capacity
            && s[k].lastRefill == if n == 0 then bs[k].lastRefill else es[n - 1].at
  {
    if n > 0 {
      StateFacts(bs, es, n - 1, k);
      AttemptKeepsValid(StateAfter(bs, es, n - 1), es[n - 1].at);
    }
  }

  /** All buckets spend or none do, and the tokens of each stay between 0 and its capacity. */
  lemma SpendTogether(bs: seq<Bucket>, es: seq<Event>, n: nat, k: nat)
    requires ValidAll(bs) && Ordered(bs, es) && n < |es| && k < |bs|
    ensures var before, after := StateAfter(bs, es, n)[k], StateAfter(bs, es, n + 1)[k];
            && 0.0 <= after.tokens <= bs[k].capacity
            && after.tokens == Refill(before, es[n].at).tokens - if Grants(bs, es, n) then 1.0 else 0.0
  {
    StateFacts(bs, es, n, k);
    StateFacts(bs, es, n + 1, k);
  }

  lemma RefillGains(b: Bucket, now: real)
    requires ValidBucket(b) && b.lastRefill <= now
    ensures Refill(b, now).tokens <= b.tokens + Gain(b.rate, now - b.lastRefill)
    ensures Refill(b, now).tokens <= b.capacity
  {
    hide Gain;
    GainLaws(b.rate, now - b.lastRefill, 0.0);
  }

  lemma {:induction false} SpentPlusLeft(bs: seq<Bucket>, es: seq<Event>, k: nat, i: nat, j: nat)
    requires ValidAll(bs) && Ordered(bs, es) && k < |bs| && i < j <= |es|
    ensures GrantCount(bs, es, i, j) as real + StateAfter(bs, es, j)[k].tokens
            <= bs[k].capacity + Gain(bs[k].rate, es[j - 1].at - es[i].at)
    decreases j
  {
    hide Gain, Refill, Attempted;
    SpendTogether(bs, es, j - 1, k);
    StateFacts(bs, es, j - 1, k);
    var before := StateAfter(bs, es, j - 1)[k];
    RefillGains(before, es[j - 1].at);
    if i + 1 < j {
      SpentPlusLeft(bs, es, k, i, j - 1);
      GainLaws(bs[k].rate, es[j - 2].at - es[i].at, es[j - 1].at - es[j - 2].at);
    } else {
      assert GrantCount(bs, es, i, i) == 0;
      GainLaws(bs[k].rate, 0.0, 0.0);
    }
  }

  /** No bucket can be overdrawn: between any two moments of any run, over all callers, it grants
      at most its capacity plus its rate times the time between them. */
  lemma RateBound(bs: seq<Bucket>, es: seq<Event>, k: nat, i: nat, j: nat)
    requires ValidAll(bs) && Ordered(bs, es) && k < |bs| && i < j <= |es|
    ensures GrantCount(bs, es, i, j) as real <= bs[k].capacity + bs[k].rate * (es[j - 1].at - es[i].at)
  {
    SpentPlusLeft(bs, es, k, i, j);
    StateFacts(bs, es, j, k);
  }

  // ------------------------------------------------------------ queries are free

  /** Refilling in two steps is refilling once. */
  lemma RefillTwice(b: Bucket, t: real, u: real)
    requires ValidBucket(b) && b.lastRefill <= t <= u
    ensures Refill(Refill(b, t), u) == Refill(b, u)
  {
    hide Gain;
    GainLaws(b.rate, t - b.lastRefill, u - t);
    GainLaws(b.rate, u - t, 0.0);
  }

  /** Two limiter states that no later time can tell apart. */
  ghost predicate SameFrom(a: seq<Bucket>, b: seq<Bucket>, t: real) {
    && |a| == |b| && ValidAll(a) && ValidAll(b)
    && forall k :: 0 <= k < |a| ==> a[k].lastRefill <= t && b[k].lastRefill <= t && Refill(a[k], t) == Refill(b[k], t)
  }

  lemma SameFromLater(a: seq<Bucket>, b: seq<Bucket>, t: real, u: real)
    requires SameFrom(a, b, t) && t <= u
    ensures SameFrom(a, b, u) && RefillAll(a, u) == RefillAll(b, u)
  {
    forall k | 0 <= k < |a| ensures Refill(a[k], u) == Refill(b[k], u) {
      RefillTwice(a[k], t, u);
      RefillTwice(b[k], t, u);
    }
  }

  lemma QueryIsFree(a: seq<Bucket>, b: seq<Bucket>, t: real, u: real)
    requires SameFrom(a, b, t) && t <= u
    ensures SameFrom(RefillAll(a, u), b, u)
  {
    SameFromLater(a, b, t, u);
    AttemptKeepsValid(a, u);
    forall k | 0 <= k < |a| ensures Refill(RefillAll(a, u)[k], u) == Refill(b[k], u) {
      RefillTwice(a[k], u, u);
    }
  }

  lemma AttemptsAgree(a: seq<Bucket>, b: seq<Bucket>, t: real, u: real)
    requires SameFrom(a, b, t) && t <= u
    ensures Attempted(a, u) == Attempted(b, u) && SameFrom(Attempted(a, u).0, Attempted(b, u).0, u)
  {
    SameFromLater(a, b, t, u);
    AttemptKeepsValid(a, u);
  }

  /** The attempts of a run, without the queries. */
  ghost function Attempts(es: seq<Event>): seq<Event> {
    if es == [] then [] else Attempts(es[..|es| - 1]) + if es[|es| - 1].Attempt? then [es[|es| - 1]] else []
  }

  ghost function Final(bs: seq<Bucket>, es: seq<Event>): seq<Bucket> {
    StateAfter(bs, es, |es|)
  }

  lemma {:induction false} PrefixState(bs: seq<Bucket>, es: seq<Event>, fs: seq<Event>, n: nat)
    requires n <= |es| <= |fs| && forall i :: 0 <= i < n ==> es[i] == fs[i]
    ensures StateAfter(bs, es, n) == StateAfter(bs, fs, n)
  {
    if n > 0 { PrefixState(bs, es, fs, n - 1); }
  }

  lemma FinalNext(bs: seq<Bucket>, es: seq<Event>, e: Event)
    ensures Final(bs, es + [e]) ==
            match e case Attempt(t) => Attempted(Final(bs, es), t).0 case Query(t) => RefillAll(Final(bs, es), t)
  {
    PrefixState(bs, es, es + [e], |es|);
  }

  lemma {:induction false} FinalConcat(bs: seq<Bucket>, a: seq<Event>, b: seq<Event>)
    ensures Final(bs, a + b) == Final(Final(bs, a), b)
    decreases |b|
  {
    hide Attempted;
    if b == [] {
      assert a + b == a;
    } else {
      var front, e := b[..|b| - 1], b[|b| - 1];
      FinalConcat(bs, a, front);
      FinalNext(bs, a + front, e);
      FinalNext(Final(bs, a), front, e);
      assert a + b == (a + front) + [e] && b == front + [e];
    }
  }

  /** Permits granted in a whole run. */
  ghost function TotalGrants(bs: seq<Bucket>, es: seq<Event>): nat {
    GrantCount(bs, es, 0, |es|)
  }

  lemma {:induction false} PrefixGrants(bs: seq<Bucket>, es: seq<Event>, fs: seq<Event>, n: nat)
    requires n <= |es| <= |fs| && forall i :: 0 <= i < n ==> es[i] == fs[i]
    ensures GrantCount(bs, es, 0, n) == GrantCount(bs, fs, 0, n)
  {
    hide Attempted;
    if n > 0 {
      PrefixGrants(bs, es, fs, n - 1);
      PrefixState(bs, es, fs, n - 1);
    }
  }

  lemma TotalNext(bs: seq<Bucket>, es: seq<Event>, e: Event)
    ensures TotalGrants(bs, es + [e]) ==
            TotalGrants(bs, es) + if e.Attempt? && Attempted(Final(bs, es), e.at).1 then 1 else 0
  {
    hide Attempted;
    PrefixGrants(bs, es, es + [e], |es|);
    PrefixState(bs, es, es + [e], |es|);
  }

  lemma {:induction false} TotalConcat(bs: seq<Bucket>, a: seq<Event>, b: seq<Event>)
    ensures TotalGrants(bs, a + b) == TotalGrants(bs, a) + TotalGrants(Final(bs, a), b)
    decreases |b|
  {
    hide Attempted;
    if b == [] {
      assert a + b == a;
    } else {
      var front, e := b[..|b| - 1], b[|b| - 1];
      TotalConcat(bs, a, front);
      TotalNext(bs, a + front, e);
      TotalNext(Final(bs, a), front, e);
      FinalConcat(bs, a, front);
      assert a + b == (a + front) + [e] && b == front + [e];
    }
  }

  /** A wait that ends with a grant has taken a permit. */
  lemma GrantIsCounted(bs: seq<Bucket>, turns: seq<Turn>)
    requires Waited(bs, turns, 0).1
    ensures TotalGrants(bs, TurnEvents(turns, Waited(bs, turns, 0).0)) >= 1
  {
    hide Attempted, TotalGrants;
    WaitEndsAtFirstGrant(bs, turns, 0);
    var n := Waited(bs, turns, 0).0;
    TotalNext(bs, TurnEvents(turns, n - 1) + turns[n - 1].others, Attempt(turns[n - 1].at));
  }

  /** Queries change nothing for later callers: with every query erased, the limiter is in a state
      that no later attempt can tell apart. */
  lemma {:induction false} QueriesChangeNothing(bs: seq<Bucket>, es: seq<Event>, now: real)
    requires ValidAll(bs) && Ordered(bs, es) && forall i :: 0 <= i < |es| ==> es[i].at <= now
    requires forall k :: 0 <= k < |bs| ==> bs[k].lastRefill <= now
    ensures SameFrom(Final(bs, es), Final(bs, Attempts(es)), now)
    ensures Attempted(Final(bs, es), now) == Attempted(Final(bs, Attempts(es)), now)
    decreases |es|
  {
    if es != [] {
      var front, e := es[..|es| - 1], es[|es| - 1];
      QueriesChangeNothing(bs, front, e.at);
      assert es == front + [e];
      FinalNext(bs, front, e);
      var a, b := Final(bs, front), Final(bs, Attempts(front));
      if e.Attempt? {
        FinalNext(bs, Attempts(front), e);
        AttemptsAgree(a, b, e.at, e.at);
      } else {
        QueryIsFree(a, b, e.at, e.at);
        assert Attempts(es) == Attempts(front);
      }
      SameFromLater(Final(bs, es), Final(bs, Attempts(es)), e.at, now);
    }
    AttemptsAgree(Final(bs, es), Final(bs, Attempts(es)), now, now);
  }

  // ------------------------------------------------------------ the wait is exact

  lemma WaitGains(b: Bucket)
    requires b.rate > 0.0 && b.tokens < 1.0
    ensures Gain(b.rate, WaitOf(b)) == 1.0 - b.tokens
  {
  }

  lemma BucketReadyIff(b: Bucket, now: real, t: real)
    requires ValidBucket(b) && b.lastRefill == now && now <= t
    ensures Refill(b, t).tokens >= 1.0 <==> t >= now + WaitOf(b)
  {
    GainLaws(b.rate, t - now, 0.0);
    if b.tokens < 1.0 {
      WaitGains(b);
      GainLaws(b.rate, WaitOf(b), t - now - WaitOf(b));
      GainIffLater(b, now, t, WaitOf(b));
    }
  }

  lemma GainIffLater(b: Bucket, now: real, t: real, wait: real)
    requires ValidBucket(b) && b.lastRefill == now && now <= t && b.tokens < 1.0
    requires Gain(b.rate, wait) == 1.0 - b.tokens
    requires Gain(b.rate, wait) + Gain(b.rate, t - now - wait) == Gain(b.rate, t - now)
    ensures Refill(b, t).tokens >= 1.0 <==> t >= now + wait
  {
    hide Gain;
    GainLaws(b.rate, t - now - wait, 0.0);
    GainLaws(b.rate, 0.0, 0.0);
  }

  /** After a failed round with reported wait `w`, and nobody else calling, a round is granted
      exactly from `w` later on: sleeping `w` is enough and nothing less is. */
  lemma WaitIsExact(bs: seq<Bucket>, now: real, wait: real, t: real)
    requires ValidAll(bs) && now <= t && forall k :: 0 <= k < |bs| ==> bs[k].lastRefill <= now
    requires !Attempted(bs, now).1 && ValidAll(Attempted(bs, now).0) && IsLongestWait(Attempted(bs, now).0, wait)
    ensures Attempted(Attempted(bs, now).0, t).1 <==> t >= now + wait
  {
    var r := Attempted(bs, now).0;
    forall k | 0 <= k < |r| ensures RefillAll(r, t)[k].tokens >= 1.0 <==> t >= now + WaitOf(r[k]) {
      BucketReadyIff(r[k], now, t);
    }
    if wait != 0.0 {
      var k :| 0 <= k < |r| && WaitOf(r[k]) == wait;
      assert RefillAll(r, t)[k].tokens >= 1.0 <==> t >= now + wait;
    }
  }
}
