/** The per-connection fixed-window request limiter, and what it bounds over whole runs. */
module RateLimiter {
  import opened Common

  const MAXIMUM_RATE_WINDOW_NS: nat := 300_000_000_000
  const MAXIMUM_BURST: nat := 65_535
  const NS_PER_MS: nat := 1_000_000

  datatype RateLimitError = InvalidMaximum(maximum: u32) | InvalidWindow | ClockMovedBackwards | Exceeded | CounterOverflow

  datatype RateLimit = RateLimit(maximumRequests: nat, windowMs: nat) {
    predicate Valid() {
      1 <= maximumRequests <= MAXIMUM_BURST && 1 <= windowMs <= 300_000
    }
  }

  /** A positive finite budget; the window is cut down to whole milliseconds. */
  function NewLimit(maximum: u32, windowNs: nat): (r: Result<RateLimit, RateLimitError>)
    ensures r.Success? <==> 1 <= maximum <= MAXIMUM_BURST && NS_PER_MS <= windowNs <= MAXIMUM_RATE_WINDOW_NS
    ensures r.Success? ==>
              && r.value.Valid() && r.value.maximumRequests == maximum
              && r.value.windowMs * NS_PER_MS <= windowNs < (r.value.windowMs + 1) * NS_PER_MS
  {
    if maximum == 0 || maximum > MAXIMUM_BURST then Failure(InvalidMaximum(maximum))
    else if windowNs == 0 || windowNs > MAXIMUM_RATE_WINDOW_NS then Failure(InvalidWindow)
    else if windowNs / NS_PER_MS == 0 then Failure(InvalidWindow)
    else Success(RateLimit(maximum, windowNs / NS_PER_MS))
  }

  /** The counter fields, and the times of every request admitted so far. */
  datatype Limiter = Limiter(start: nat, used: nat, last: nat, admitted: seq<nat>)

  datatype Step = Step(next: Limiter, result: Result<(), RateLimitError>)

  function Started(nowMs: nat): Limiter {
    Limiter(nowMs, 0, nowMs, [])
  }

  function Admit(p: RateLimit, l: Limiter, nowMs: nat): (s: Step) {
    if nowMs < l.last then Step(l, Failure(ClockMovedBackwards))
    else
      var over := nowMs >= l.start + p.windowMs;
      var start := if over then nowMs else l.start;
      var used := if over then 0 else l.used;
      if used == p.maximumRequests then Step(l.(start := start, used := used, last := nowMs), Failure(Exceeded))
      else Step(Limiter(start, used + 1, nowMs, l.admitted + [nowMs]), Success(()))
  }

  function Run(p: RateLimit, l: Limiter, times: seq<nat>): (r: Limiter)
    decreases |times|
  {
    if times == [] then l else Run(p, Admit(p, l, times[0]).next, times[1..])
  }

  // ---- Counting admitted requests -----------------------------------------------------

  /** Requests admitted in the half-open interval from `lo` to `hi`. */
  function CountIn(times: seq<nat>, lo: int, hi: int): nat {
    if times == [] then 0
    else CountIn(times[..|times| - 1], lo, hi) + (if lo <= times[|times| - 1] < hi then 1 else 0)
  }

  /** Requests admitted in an interval of the given length. */
  function CountSliding(times: seq<nat>, from: int, length: nat): nat {
    CountIn(times, from, from + length)
  }

  lemma CountAppend(times: seq<nat>, t: nat, lo: int, hi: int)
    ensures CountIn(times + [t], lo, hi) == CountIn(times, lo, hi) + (if lo <= t < hi then 1 else 0)
  {
    assert (times + [t])[..|times|] == times;
  }

  lemma {:induction false} CountWider(times: seq<nat>, lo: int, hi: int, lo': int, hi': int)
    requires forall i :: 0 <= i < |times| && lo <= times[i] < hi ==> lo' <= times[i] < hi'
    ensures CountIn(times, lo, hi) <= CountIn(times, lo', hi')
  {
    if times == [] {
    } else {
      CountWider(times[..|times| - 1], lo, hi, lo', hi');
      var t := times[|times| - 1];
      assert lo <= t < hi ==> lo' <= t < hi';
    }
  }

  lemma {:induction false} CountNone(times: seq<nat>, lo: int, hi: int)
    requires forall i :: 0 <= i < |times| ==> times[i] < lo
    ensures CountIn(times, lo, hi) == 0
  {
    if times == [] {
    } else {
      CountNone(times[..|times| - 1], lo, hi);
      assert times[|times| - 1] < lo;
    }
  }

  // ---- What every run keeps -----------------------------------------------------------

  /** The counter is the number of requests admitted in the current fixed window. */
  ghost predicate CounterInv(p: RateLimit, l: Limiter) {
    && l.start <= l.last && l.used <= p.maximumRequests
    && (forall i :: 0 <= i < |l.admitted| ==> l.admitted[i] <= l.last && l.admitted[i] < l.start + p.windowMs)
    && CountIn(l.admitted, l.start, l.last + 1) == l.used
    && CountIn(l.admitted, l.start - p.windowMs, l.last + 1) <= l.used + p.maximumRequests
  }

  /** No interval as long as the window holds more than two budgets. */
  ghost predicate Bounded(p: RateLimit, l: Limiter) {
    forall a: int :: CountSliding(l.admitted, a, p.windowMs) <= 2 * p.maximumRequests
  }

  /** Moving the clock forward, and starting a new window if the old one is over. */
  lemma WindowInv(p: RateLimit, l: Limiter, nowMs: nat)
    requires p.Valid() && CounterInv(p, l) && nowMs >= l.last
    ensures var over := nowMs >= l.start + p.windowMs;
            CounterInv(p, Limiter(if over then nowMs else l.start, if over then 0 else l.used, nowMs, l.admitted))
  {
    var w := p.windowMs;
    if nowMs >= l.start + w {
      CountNone(l.admitted, nowMs, nowMs + 1);
      CountWider(l.admitted, nowMs - w, nowMs + 1, l.start, l.last + 1);
    } else {
      CountWider(l.admitted, l.start, nowMs + 1, l.start, l.last + 1);
      CountWider(l.admitted, l.start, l.last + 1, l.start, nowMs + 1);
      CountWider(l.admitted, l.start - w, nowMs + 1, l.start - w, l.last + 1);
    }
  }

  lemma AppendInv(p: RateLimit, l: Limiter)
    requires p.Valid() && CounterInv(p, l) && Bounded(p, l) && l.used < p.maximumRequests && l.last < l.start + p.windowMs
    ensures CounterInv(p, l.(used := l.used + 1, admitted := l.admitted + [l.last]))
    ensures Bounded(p, l.(admitted := l.admitted + [l.last]))
  {
    var w, t := p.windowMs, l.last;
    CountAppend(l.admitted, t, l.start, t + 1);
    CountAppend(l.admitted, t, l.start - w, t + 1);
    forall a: int ensures CountSliding(l.admitted + [t], a, w) <= 2 * p.maximumRequests {
      CountAppend(l.admitted, t, a, a + w);
      assert CountSliding(l.admitted, a, w) <= 2 * p.maximumRequests;
      if a <= t < a + w {
        CountWider(l.admitted, a, a + w, l.start - w, t + 1);
      }
    }
  }

  lemma AdmitInv(p: RateLimit, l: Limiter, nowMs: nat)
    requires p.Valid() && CounterInv(p, l) && Bounded(p, l)
    ensures CounterInv(p, Admit(p, l, nowMs).next) && Bounded(p, Admit(p, l, nowMs).next)
  {
    if nowMs >= l.last {
      WindowInv(p, l, nowMs);
      var over := nowMs >= l.start + p.windowMs;
      var moved := Limiter(if over then nowMs else l.start, if over then 0 else l.used, nowMs, l.admitted);
      assert Bounded(p, moved);
      if moved.used < p.maximumRequests {
        AppendInv(p, moved);
      }
    }
  }

  lemma {:induction false} RunInv(p: RateLimit, l: Limiter, times: seq<nat>)
    requires p.Valid() && CounterInv(p, l) && Bounded(p, l)
    ensures CounterInv(p, Run(p, l, times)) && Bounded(p, Run(p, l, times))
    decreases |times|
  {
    if times == [] {
    } else {
      AdmitInv(p, l, times[0]);
      RunInv(p, Admit(p, l, times[0]).next, times[1..]);
    }
  }

  /** Over any calls at any times, a sliding window never holds more than twice the budget. */
  lemma SlidingWindowBound(p: RateLimit, startMs: nat, times: seq<nat>, a: int)
    requires p.Valid()
    ensures CountSliding(Run(p, Started(startMs), times).admitted, a, p.windowMs) <= 2 * p.maximumRequests
  {
    assert CounterInv(p, Started(startMs)) && Bounded(p, Started(startMs));
    RunInv(p, Started(startMs), times);
  }

  /** A refusal for excess happens only after a full budget within the last window length. */
  lemma RefusedOnlyWhenFull(p: RateLimit, startMs: nat, times: seq<nat>, nowMs: nat)
    requires p.Valid()
    ensures var l := Run(p, Started(startMs), times);
            Admit(p, l, nowMs).result == Failure(Exceeded) ==>
              CountIn(l.admitted, nowMs - p.windowMs + 1, nowMs + 1) >= p.maximumRequests
  {
    var l := Run(p, Started(startMs), times);
    assert CounterInv(p, Started(startMs)) && Bounded(p, Started(startMs));
    RunInv(p, Started(startMs), times);
    if Admit(p, l, nowMs).result == Failure(Exceeded) {
      CountWider(l.admitted, l.start, l.last + 1, nowMs - p.windowMs + 1, nowMs + 1);
    }
  }

  /** The latest time any call was made at, the start included. */
  function LatestOf(startMs: nat, times: seq<nat>): nat {
    if times == [] then startMs
    else
      var before, last := LatestOf(startMs, times[..|times| - 1]), times[|times| - 1];
      if last < before then before else last
  }

  lemma {:induction false} RunSnoc(p: RateLimit, l: Limiter, times: seq<nat>, t: nat)
    ensures Run(p, l, times + [t]) == Admit(p, Run(p, l, times), t).next
    decreases |times|
  {
    if times == [] {
      assert times + [t] == [t];
      assert [t][1..] == [];
    } else {
      RunSnoc(p, Admit(p, l, times[0]).next, times[1..], t);
      assert (times + [t])[1..] == times[1..] + [t];
    }
  }

  lemma {:induction false} LastIsLatest(p: RateLimit, startMs: nat, times: seq<nat>)
    ensures Run(p, Started(startMs), times).last == LatestOf(startMs, times)
  {
    if times == [] {
    } else {
      var front, t := times[..|times| - 1], times[|times| - 1];
      LastIsLatest(p, startMs, front);
      RunSnoc(p, Started(startMs), front, t);
      assert times == front + [t];
    }
  }

  /**
   * Over any calls, a call is refused for its time exactly when an earlier one, admitted or
   * refused, was made later; otherwise it is refused exactly when the budget of its window is used up.
   */
  lemma AdmittedExactly(p: RateLimit, startMs: nat, times: seq<nat>, nowMs: nat)
    requires p.Valid()
    ensures var l := Run(p, Started(startMs), times);
            Admit(p, l, nowMs).result
            == if nowMs < LatestOf(startMs, times) then Failure(ClockMovedBackwards)
               else if nowMs < l.start + p.windowMs && CountIn(l.admitted, l.start, nowMs + 1) == p.maximumRequests then Failure(Exceeded)
               else Success(())
  {
    var l := Run(p, Started(startMs), times);
    assert CounterInv(p, Started(startMs)) && Bounded(p, Started(startMs));
    RunInv(p, Started(startMs), times);
    LastIsLatest(p, startMs, times);
    if l.last <= nowMs {
      CountWider(l.admitted, l.start, nowMs + 1, l.start, l.last + 1);
      CountWider(l.admitted, l.start, l.last + 1, l.start, nowMs + 1);
    }
  }

  // ---- The bound is reached -----------------------------------------------------------

  function Burst(t: nat, n: nat): seq<nat> {
    seq(n, i => t)
  }

  /** A burst that fits the current window is admitted whole. */
  lemma {:induction false} BurstAdmitted(p: RateLimit, l: Limiter, t: nat, n: nat)
    requires l.last <= t < l.start + p.windowMs && l.used + n <= p.maximumRequests
    ensures Run(p, l, Burst(t, n)) == Limiter(l.start, l.used + n, if n == 0 then l.last else t, l.admitted + Burst(t, n))
    decreases n
  {
    if n == 0 {
      assert l.admitted + Burst(t, n) == l.admitted;
    } else {
      assert Burst(t, n)[1..] == Burst(t, n - 1);
      BurstAdmitted(p, Admit(p, l, t).next, t, n - 1);
      assert l.admitted + [t] + Burst(t, n - 1) == l.admitted + Burst(t, n);
    }
  }

  lemma {:induction false} RunConcat(p: RateLimit, l: Limiter, a: seq<nat>, b: seq<nat>)
    ensures Run(p, l, a + b) == Run(p, Run(p, l, a), b)
    decreases |a|
  {
    if a == [] {
      assert a + b == b;
    } else {
      assert (a + b)[1..] == a[1..] + b;
      RunConcat(p, Admit(p, l, a[0]).next, a[1..], b);
    }
  }

  lemma {:induction false} CountAll(times: seq<nat>, lo: int, hi: int)
    requires forall i :: 0 <= i < |times| ==> lo <= times[i] < hi
    ensures CountIn(times, lo, hi) == |times|
  {
    if times == [] {
    } else {
      CountAll(times[..|times| - 1], lo, hi);
      assert lo <= times[|times| - 1] < hi;
    }
  }

  /** Two bursts around a window boundary reach the bound, so it cannot be tightened. */
  lemma BoundIsReached(p: RateLimit)
    requires p.Valid() && p.windowMs >= 2
    ensures var w, n := p.windowMs, p.maximumRequests;
            CountSliding(Run(p, Started(0), Burst(w - 1, n) + Burst(w, n)).admitted, w - 1, w) == 2 * n
  {
    var w, n := p.windowMs, p.maximumRequests;
    RunConcat(p, Started(0), Burst(w - 1, n), Burst(w, n));
    BurstAdmitted(p, Started(0), w - 1, n);
    var full := Run(p, Started(0), Burst(w - 1, n));
    assert Burst(w, n)[0] == w && Burst(w, n)[1..] == Burst(w, n - 1);
    BurstAdmitted(p, Admit(p, full, w).next, w, n - 1);
    var all := Burst(w - 1, n) + [w] + Burst(w, n - 1);
    assert Run(p, full, Burst(w, n)).admitted == all;
    CountAll(all, w - 1, w - 1 + w);
  }

  /** The mutable limiter of one connection. */
  class RequestRateLimiter {
    const policy: RateLimit
    var windowStartMs: u64
    var used: u32
    var lastNowMs: u64
    ghost var admitted: seq<nat>

    ghost function Abs(): Limiter
      reads this
    {
      Limiter(windowStartMs, used, lastNowMs, admitted)
    }

    ghost predicate Valid()
      reads this
    {
      policy.Valid() && CounterInv(policy, Abs()) && Bounded(policy, Abs())
    }

    constructor (policy: RateLimit, nowMs: u64)
      requires policy.Valid()
      ensures Valid() && this.policy == policy && Abs() == Started(nowMs)
    {
      this.policy := policy;
      windowStartMs, used, lastNowMs, admitted := nowMs, 0, nowMs, [];
    }

    /** Never overflows: the counter stays within the budget. */
    method AdmitRequest(nowMs: u64) returns (r: Result<(), RateLimitError>)
      requires Valid()
      modifies this
      ensures Valid() && Step(Abs(), r) == Admit(policy, old(Abs()), nowMs)
    {
      AdmitInv(policy, Abs(), nowMs);
      if nowMs < lastNowMs {
        return Failure(ClockMovedBackwards);
      }
      lastNowMs := nowMs;
      var elapsed := nowMs - windowStartMs;
      if elapsed >= policy.windowMs {
        windowStartMs := nowMs;
        used := 0;
      }
      if used == policy.maximumRequests {
        return Failure(Exceeded);
      }
      used := used + 1;
      admitted := admitted + [nowMs];
      return Success(());
    }
  }
}
