/** The delay between flush rounds: durations are 64-bit, so doubling may wrap. */
module ReleaseBackoff {
  import opened Base

  const TWO_62: int := 0x4000_0000_0000_0000
  const DEFAULT_FLUSH_INTERVAL: int := 250_000_000
  const DEFAULT_MAX_BACKOFF: int := 2_000_000_000

  type Duration = d: int | -2 * TWO_62 <= d < 2 * TWO_62

  /** Two's complement of 64 bits. */
  function Wrap(x: int): Duration {
    (x + 2 * TWO_62) % (4 * TWO_62) - 2 * TWO_62
  }

  /** The two limiter settings; a zero that was not given explicitly is replaced by its default. */
  datatype Limits = Limits(flush: Duration, flushGiven: bool, backoff: Duration, backoffGiven: bool)

  datatype Timings = Timings(flushInterval: Duration, maxBackoff: Duration)

  predicate Sane(t: Timings) {
    0 < t.flushInterval <= t.maxBackoff
  }

  /** Whatever is configured, the interval is positive and the maximum is not below it. */
  function CurrentTimings(flush: Duration, backoff: Duration, provider: Option<Limits>): (t: Timings)
    ensures Sane(t)
    ensures provider == None && 0 < flush <= backoff ==> t == Timings(flush, backoff)
    ensures provider.Some? && 0 < provider.value.flush <= provider.value.backoff ==>
      t == Timings(provider.value.flush, provider.value.backoff)
  {
    var f := match provider
      case None => flush
      case Some(l) => if !l.flushGiven && l.flush == 0 then DEFAULT_FLUSH_INTERVAL else l.flush;
    var b := match provider
      case None => backoff
      case Some(l) => if !l.backoffGiven && l.backoff == 0 then DEFAULT_MAX_BACKOFF else l.backoff;
    var f' := if f <= 0 then DEFAULT_FLUSH_INTERVAL else f;
    Timings(f', if b < f' then f' else b)
  }

  function NextDelay(t: Timings, delay: Duration, failed: bool): (r: (Duration, bool)) {
    if !failed then (t.flushInterval, false)
    else
      var doubled := Wrap(2 * delay);
      var raised := if doubled < t.flushInterval then t.flushInterval else doubled;
      (if raised > t.maxBackoff then t.maxBackoff else raised, true)
  }

  /** The delay after `k` failures in a row following a success, with fixed timings. */
  function DelayAfter(t: Timings, k: nat): Duration {
    if k == 0 then t.flushInterval else NextDelay(t, DelayAfter(t, k - 1), true).0
  }

  function Power2(k: nat): nat {
    if k == 0 then 1 else 2 * Power2(k - 1)
  }

  function Capped(t: Timings, k: nat): int {
    if t.flushInterval * Power2(k) < t.maxBackoff then t.flushInterval * Power2(k) else t.maxBackoff
  }

  /** Under any sequence of configurations and outcomes, and even if doubling wraps, the delay obeys the current ones. */
  lemma DelayWithinTimings(flush: Duration, backoff: Duration, provider: Option<Limits>, delay: Duration, failed: bool)
    ensures var t := CurrentTimings(flush, backoff, provider);
      t.flushInterval <= NextDelay(t, delay, failed).0 <= t.maxBackoff
  {
  }

  lemma {:induction false} PowerGrows(k: nat)
    ensures Power2(k) > k
  {
    if k > 0 {
      PowerGrows(k - 1);
    }
  }

  lemma {:induction false} CappedSteps(t: Timings, k: nat)
    requires Sane(t)
    ensures Capped(t, k + 1) == if 2 * Capped(t, k) < t.maxBackoff then 2 * Capped(t, k) else t.maxBackoff
    ensures t.flushInterval <= Capped(t, k) <= t.maxBackoff
  {
    assert t.flushInterval * Power2(k + 1) == 2 * (t.flushInterval * Power2(k));
    assert t.flushInterval * Power2(k) >= t.flushInterval by {
      PowerGrows(k);
      MulAtLeast(t.flushInterval, Power2(k));
    }
  }

  lemma MulAtLeast(a: nat, b: nat)
    requires b >= 1
    ensures a * b >= a
  {
    assert a * b == a + a * (b - 1);
  }

  /** Without room to wrap, a failure doubles the delay up to the maximum. */
  lemma FailureDoubles(t: Timings, delay: Duration)
    requires Sane(t) && t.flushInterval <= delay <= t.maxBackoff
    requires t.maxBackoff < TWO_62 || t.flushInterval == t.maxBackoff
    ensures NextDelay(t, delay, true).0 == if 2 * delay < t.maxBackoff then 2 * delay else t.maxBackoff
  {
  }

  /** At a maximum of 2^62 or more the next doubling wraps below zero. */
  lemma FailureWraps(t: Timings)
    requires Sane(t) && t.maxBackoff >= TWO_62
    ensures NextDelay(t, t.maxBackoff, true).0 == t.flushInterval
  {
  }

  lemma {:induction false} DoublesUpToMax(t: Timings, k: nat)
    requires Sane(t) && (t.maxBackoff < TWO_62 || t.flushInterval == t.maxBackoff)
    ensures DelayAfter(t, k) == Capped(t, k)
  {
    if k == 0 {
      assert t.flushInterval * Power2(0) == t.flushInterval;
    } else {
      DoublesUpToMax(t, k - 1);
      CappedSteps(t, k - 1);
      FailureDoubles(t, DelayAfter(t, k - 1));
    }
  }

  lemma CapIsReached(t: Timings)
    requires Sane(t)
    ensures Capped(t, t.maxBackoff) == Capped(t, t.maxBackoff + 1) == t.maxBackoff
  {
    PowerGrows(t.maxBackoff);
    MulAtLeast(Power2(t.maxBackoff), t.flushInterval);
    CappedSteps(t, t.maxBackoff);
  }

  /**
   After k failures the delay is the interval doubled k times, capped by the
   maximum: for every k exactly when the maximum is below 2^62 nanoseconds
   (146 years) or leaves no room to double. Above that the doubling wraps to a
   negative duration and the delay falls back to the interval.
   */
  lemma BackoffIsExponential(t: Timings)
    requires Sane(t)
    ensures (forall k: nat :: DelayAfter(t, k) == Capped(t, k))
            <==> (t.maxBackoff < TWO_62 || t.flushInterval == t.maxBackoff)
  {
    if t.maxBackoff < TWO_62 || t.flushInterval == t.maxBackoff {
      forall k: nat
        ensures DelayAfter(t, k) == Capped(t, k)
      {
        DoublesUpToMax(t, k);
      }
    } else {
      CapIsReached(t);
      FailureWraps(t);
      var k: nat := t.maxBackoff;
      assert DelayAfter(t, k) != Capped(t, k) || DelayAfter(t, k + 1) != Capped(t, k + 1);
    }
  }

  /** The delay after a history of rounds, of which `true` stands for a failed one. */
  function DelayOf(t: Timings, rounds: seq<bool>): Duration {
    if rounds == [] then t.flushInterval
    else NextDelay(t, DelayOf(t, rounds[..|rounds| - 1]), rounds[|rounds| - 1]).0
  }

  /** How many of the last rounds failed in a row. */
  function FailuresInARow(rounds: seq<bool>): nat {
    if rounds == [] || !rounds[|rounds| - 1] then 0 else FailuresInARow(rounds[..|rounds| - 1]) + 1
  }

  /** A success undoes all backing off: only the failures since then count. */
  lemma {:induction false} OnlyLastFailuresCount(t: Timings, rounds: seq<bool>)
    ensures DelayOf(t, rounds) == DelayAfter(t, FailuresInARow(rounds))
    ensures rounds != [] ==>
      (NextDelay(t, DelayOf(t, rounds[..|rounds| - 1]), rounds[|rounds| - 1]).1 <==> FailuresInARow(rounds) > 0)
  {
    if rounds != [] { OnlyLastFailuresCount(t, rounds[..|rounds| - 1]); }
  }

  lemma {:induction false} FailuresOnly(k: nat)
    ensures FailuresInARow(seq(k, _ => true)) == k
  {
    if k > 0 {
      FailuresOnly(k - 1);
      assert seq(k, _ => true)[..k - 1] == seq(k - 1, _ => true);
    }
  }

  /** For every history of failed and successful rounds, under the same exact condition. */
  lemma HistoryIsExponential(t: Timings)
    requires Sane(t)
    ensures (forall rounds: seq<bool> :: DelayOf(t, rounds) == Capped(t, FailuresInARow(rounds)))
            <==> (t.maxBackoff < TWO_62 || t.flushInterval == t.maxBackoff)
  {
    BackoffIsExponential(t);
    if t.maxBackoff < TWO_62 || t.flushInterval == t.maxBackoff {
      forall rounds: seq<bool>
        ensures DelayOf(t, rounds) == Capped(t, FailuresInARow(rounds))
      {
        OnlyLastFailuresCount(t, rounds);
      }
    } else {
      var k: nat :| DelayAfter(t, k) != Capped(t, k);
      FailuresOnly(k);
      OnlyLastFailuresCount(t, seq(k, _ => true));
    }
  }
}
