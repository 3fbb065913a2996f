/** The outgoing jitter control at the end of AudioStream::encode. */
module Pacing {
  import opened Bits
  import opened Deadline

  /** How long the sender sleeps before an audio packet. */
  function Sleep(timer: int, now: int, interval: nat): nat {
    if 0 < now - timer < interval then interval - (now - timer) else 0
  }

  /** `mTimer` after an audio packet. */
  function NextTimer(timer: int, now: int, interval: nat): int {
    timer + (if 0 < now - timer < interval then interval else now - timer)
  }

  /** `mTimer` after the audio packet that reads the clock as `readings[k]`. */
  function TimerAfter(timer: int, readings: seq<int>, interval: nat, k: nat): int
    requires k < |readings|
    decreases k, 1
  {
    NextTimer(TimerBefore(timer, readings, interval, k), readings[k], interval)
  }

  function TimerBefore(timer: int, readings: seq<int>, interval: nat, k: nat): int
    requires k < |readings|
    decreases k, 0
  {
    if k == 0 then timer else TimerAfter(timer, readings, interval, k - 1)
  }

  /** With an exact sleep the packet leaves at the time `mTimer` records. */
  lemma SendsWhenTimerSays(timer: int, now: int, interval: nat)
    ensures now + Sleep(timer, now, interval) == NextTimer(timer, now, interval)
  {}

  /** A packet is held back if and only if the clock is past the timer by less than an interval, and then it leaves one
      interval after the timer. Any other packet, also if the clock has fallen behind the timer, leaves at once.
    */
  lemma OnlyEarlyPacketsAreDelayed(timer: int, now: int, interval: nat)
    ensures Sleep(timer, now, interval) > 0 <==> timer < now < timer + interval
    ensures now + Sleep(timer, now, interval) == NextTimer(timer, now, interval)
    ensures NextTimer(timer, now, interval) == if timer < now < timer + interval then timer + interval else now
  {}

  // ----- Rate limit -----

  /** A step advances the timer by a full interval exactly when the clock has passed the timer, or has
      reached it and the interval is 0.
    */
  lemma StepIsPaced(timer: int, now: int, interval: nat)
    ensures NextTimer(timer, now, interval) >= timer + interval <==> now > timer || (now == timer && interval == 0)
  {}

  /** Every clock reading is strictly later than the timer it is compared with. */
  predicate StrictClock(timer: int, readings: seq<int>, interval: nat) {
    forall k :: 0 <= k < |readings| ==> readings[k] > TimerBefore(timer, readings, interval, k)
  }

  lemma {:induction false} TimersAreSpaced(timer: int, readings: seq<int>, interval: nat, k: nat)
    requires k < |readings| && StrictClock(timer, readings, interval)
    ensures TimerAfter(timer, readings, interval, k) >= TimerAfter(timer, readings, interval, 0) + k * interval
  {
    if k > 0 {
      TimersAreSpaced(timer, readings, interval, k - 1);
      assert readings[k] > TimerBefore(timer, readings, interval, k);
      StepIsPaced(TimerAfter(timer, readings, interval, k - 1), readings[k], interval);
      assert k * interval == (k - 1) * interval + interval;
    }
  }

  lemma TimerUnfold(timer: int, readings: seq<int>, interval: nat, k: nat)
    requires k < |readings|
    ensures TimerAfter(timer, readings, interval, k)
            == NextTimer(TimerBefore(timer, readings, interval, k), readings[k], interval)
  {}

  /** No packet leaves before its clock reading and its sleep are over. */
  predicate NoShortSleep(timer: int, readings: seq<int>, sends: seq<int>, interval: nat) {
    && |sends| == |readings|
    && forall k :: 0 <= k < |sends| ==>
         sends[k] >= readings[k] + Sleep(TimerBefore(timer, readings, interval, k), readings[k], interval)
  }

  /** If the clock always passes the timer and no sleep is short, then by time `t` at most
      1 + (t - t1) / interval audio packets have left, where t1 is the timer of the first. An interval
      of 0 gives no bound.
    */
  lemma RateLimit(timer: int, readings: seq<int>, sends: seq<int>, interval: nat, t: int)
    requires readings != [] && StrictClock(timer, readings, interval)
    requires NoShortSleep(timer, readings, sends, interval)
    requires sends[|sends| - 1] <= t
    ensures var t1 := NextTimer(timer, readings[0], interval);
            var last := TimerAfter(timer, readings, interval, |readings| - 1);
            && last <= t && (|sends| - 1) * interval <= last - t1
            && (interval > 0 ==> |sends| <= 1 + (t - t1) / interval)
  {
    assert |sends| == |readings|;
    hide StrictClock, NoShortSleep, TimerAfter, TimerBefore, Sleep, NextTimer;
    var n := |readings| - 1;
    TimersAreSpaced(timer, readings, interval, n);
    LastSend(timer, readings, sends, interval);
    FirstTimer(timer, readings, interval);
    if interval > 0 { QuotientAtLeast(t - TimerAfter(timer, readings, interval, 0), interval, n); }
  }

  lemma FirstTimer(timer: int, readings: seq<int>, interval: nat)
    requires readings != []
    ensures TimerAfter(timer, readings, interval, 0) == NextTimer(timer, readings[0], interval)
  {}

  /** The last packet does not leave before the timer says. */
  lemma LastSend(timer: int, readings: seq<int>, sends: seq<int>, interval: nat)
    requires readings != [] && NoShortSleep(timer, readings, sends, interval)
    ensures sends[|sends| - 1] >= TimerAfter(timer, readings, interval, |readings| - 1)
  {
    hide TimerAfter, TimerBefore, Sleep, NextTimer;
    var n := |readings| - 1;
    SendsWhenTimerSays(TimerBefore(timer, readings, interval, n), readings[n], interval);
    TimerUnfold(timer, readings, interval, n);
  }

  /** The clock always passes the timer if it passes the initial timer and, from then on, the departure of the
      packet before.
    */
  lemma ObservedClockIsStrict(timer: int, readings: seq<int>, sends: seq<int>, interval: nat)
    requires NoShortSleep(timer, readings, sends, interval)
    requires readings != [] ==> readings[0] > timer
    requires forall k :: 1 <= k < |readings| ==> readings[k] > sends[k - 1]
    ensures StrictClock(timer, readings, interval)
  {
    forall k | 0 <= k < |readings|
      ensures readings[k] > TimerBefore(timer, readings, interval, k)
    {
      if k > 0 { SendsWhenTimerSays(TimerBefore(timer, readings, interval, k - 1), readings[k - 1], interval); }
    }
  }

  lemma QuotientAtLeast(x: int, d: nat, n: nat)
    requires d > 0 && x >= n * d
    ensures x / d >= n
  {
    var q := x / d;
    assert x == d * q + x % d;
    assert d * (n - q) == n * d - d * q;
    if q < n { MulAtLeast(d, n - q); assert false; }
  }

  /** The strict clock is needed. If the clock stands still at `now`, any number of audio packets
      leave without any delay, although no reading is earlier than the timer.
    */
  lemma {:induction false} StandingClockIsUnpaced(timer: int, now: int, interval: nat, n: nat)
    requires timer + interval <= now && n > 0
    ensures var readings := seq(n, _ => now);
            forall k :: 0 <= k < n ==>
              && readings[k] >= TimerBefore(timer, readings, interval, k)
              && Sleep(TimerBefore(timer, readings, interval, k), readings[k], interval) == 0
              && TimerAfter(timer, readings, interval, k) == now
  {
    var readings := seq(n, _ => now);
    for k := 0 to n
      invariant forall j :: 0 <= j < k ==>
                  && readings[j] >= TimerBefore(timer, readings, interval, j)
                  && Sleep(TimerBefore(timer, readings, interval, j), readings[j], interval) == 0
                  && TimerAfter(timer, readings, interval, j) == now
    {
      assert TimerAfter(timer, readings, interval, k)
             == NextTimer(TimerBefore(timer, readings, interval, k), now, interval);
    }
  }

  // ----- Convergence -----

  function Max(a: real, b: real): real {
    if a < b then b else a
  }

  /** Time between the capture of an audio frame and its departure. */
  function Latency(captures: seq<real>, timer: int, readings: seq<int>, interval: nat, k: nat): real
    requires k < |readings| == |captures|
  {
    TimerAfter(timer, readings, interval, k) as real - captures[k]
  }

  /** A run of audio packets whose frames are at least `period` apart. The sender looks at the clock
      at most `slack` after the frame has been captured and the previous packet has left.
    */
  predicate Punctual(captures: seq<real>, timer: int, readings: seq<int>, interval: nat, period: real, slack: real)
  {
    && |captures| == |readings|
    && 0.0 <= slack
    && forall k :: 1 <= k < |readings| ==>
         var left := TimerAfter(timer, readings, interval, k - 1);
         && captures[k] - captures[k - 1] >= period
         && left <= readings[k]
         && readings[k] as real <= Max(captures[k], left as real) + slack
  }

  /** What one packet takes off the latency: the frame period less the interval, or less the slack of the
      sender if that is more.
    */
  function Gain(period: real, interval: nat, slack: real): real {
    period - Max(slack, interval as real)
  }

  /** One packet: the latency drops by the gain until it is at most the slack. */
  lemma LatencyStep(captures: seq<real>, timer: int, readings: seq<int>, interval: nat, period: real, slack: real,
                    k: nat)
    requires Punctual(captures, timer, readings, interval, period, slack) && 1 <= k < |readings|
    ensures Latency(captures, timer, readings, interval, k)
            <= Max(slack, Latency(captures, timer, readings, interval, k - 1) - Gain(period, interval, slack))
  {
    var left := TimerAfter(timer, readings, interval, k - 1);
    assert captures[k] - captures[k - 1] >= period;
    assert TimerAfter(timer, readings, interval, k) == NextTimer(left, readings[k], interval);
  }

  /** What `k` packets take off the latency. */
  function Gained(k: nat, gain: real): real {
    k as real * gain
  }

  lemma {:induction false} LatencyAfter(captures: seq<real>, timer: int, readings: seq<int>, interval: nat,
                                        period: real, slack: real, gain: real, k: nat)
    requires Punctual(captures, timer, readings, interval, period, slack) && k < |readings|
    requires 0.0 <= gain <= Gain(period, interval, slack)
    ensures Latency(captures, timer, readings, interval, k)
            <= Max(slack, Latency(captures, timer, readings, interval, 0) - Gained(k, gain))
  {
    assert |captures| == |readings|;
    hide Latency, Punctual, Gained;
    GainedStep(k, gain);
    if k > 0 {
      LatencyStep(captures, timer, readings, interval, period, slack, k);
      LatencyAfter(captures, timer, readings, interval, period, slack, gain, k - 1);
    }
  }

  lemma GainedStep(k: nat, gain: real)
    ensures Gained(k, gain) == if k == 0 then 0.0 else Gained(k - 1, gain) + gain
  {
    if k > 0 { Distribute((k - 1) as real, gain); }
  }

  lemma Distribute(n: real, gain: real)
    ensures (n + 1.0) * gain == n * gain + gain
  {}

  /** The time from one frame to the next, in microseconds. */
  function Period(sampleRate: nat, sampleCount: nat): real
    requires sampleRate > 0
  {
    1_000_000.0 * sampleCount as real / sampleRate as real
  }

  /** The interval `set` chooses leaves a fifth of the frame period in hand. */
  lemma IntervalLeavesAFifth(sampleRate: nat, sampleCount: nat)
    requires 0 < sampleCount < sampleRate
    ensures var period := Period(sampleRate, sampleCount);
            period - Interval(sampleRate, sampleCount) as real >= period / 5.0 > 0.0
  {
    IntervalBounds(sampleRate, sampleCount);
    hide Interval;
    var interval, s, r := Interval(sampleRate, sampleCount) as real, sampleCount as real, sampleRate as real;
    assert (Interval(sampleRate, sampleCount) * sampleRate) as real == interval * r;
    assert interval * r <= 800_000.0 * s;
    QuotientPositive(1_000_000.0 * s, r);
    FifthLeft(interval, 1_000_000.0 * s / r, s, r);
  }

  lemma FifthLeft(interval: real, period: real, s: real, r: real)
    requires r > 0.0 && period * r == 1_000_000.0 * s && interval * r <= 800_000.0 * s
    ensures period - interval >= period / 5.0
  {
    var fourFifths := 0.8 * period;
    assert fourFifths * r == 0.8 * (period * r);
    assert (fourFifths - interval) * r == fourFifths * r - interval * r;
    SignOfProduct(fourFifths - interval, r);
  }

  lemma SignOfProduct(a: real, r: real)
    requires r > 0.0 && a * r >= 0.0
    ensures a >= 0.0
  {}

  lemma QuotientPositive(y: real, r: real)
    requires r > 0.0 && y > 0.0
    ensures y / r > 0.0
  {
    var q := y / r;
    assert q * r == y;
    SignOfProduct(q, r);
  }

  /** The delay converges, as the comment in `encode` claims, for every sender whose slack is at most a frame
      period: each audio packet takes a fixed gain off the latency, until only the slack is left. The gain is
      at least a fifth of the period if the slack is at most four fifths of it.
    */
  lemma DelayConverges(sampleRate: nat, sampleCount: nat, captures: seq<real>, timer: int, readings: seq<int>,
                       slack: real, k: nat)
    requires 0 < sampleCount < sampleRate && k < |readings|
    requires Punctual(captures, timer, readings, Interval(sampleRate, sampleCount), Period(sampleRate, sampleCount),
                      slack)
    ensures var interval := Interval(sampleRate, sampleCount);
            var gain := Gain(Period(sampleRate, sampleCount), interval, slack);
            && (gain >= 0.0 <==> slack <= Period(sampleRate, sampleCount))
            && (slack <= 0.8 * Period(sampleRate, sampleCount) ==> gain >= Period(sampleRate, sampleCount) / 5.0 > 0.0)
            && (gain >= 0.0 ==>
                  Latency(captures, timer, readings, interval, k)
                  <= Max(slack, Latency(captures, timer, readings, interval, 0) - k as real * gain))
  {
    hide Interval, Latency, Punctual, Period;
    var interval := Interval(sampleRate, sampleCount);
    var gain := Gain(Period(sampleRate, sampleCount), interval, slack);
    IntervalLeavesAFifth(sampleRate, sampleCount);
    if gain >= 0.0 {
      LatencyAfter(captures, timer, readings, interval, Period(sampleRate, sampleCount), slack, gain, k);
    }
  }

  /** A slack of more than a period is too much: the latency of this run grows with every packet. */
  lemma SlowSenderFallsBehind()
    ensures var captures, readings := [0.0, 20_000.0, 40_000.0], [30_000, 60_000, 90_000];
            && Interval(8000, 160) == 16_000 && Period(8000, 160) == 20_000.0
            && Punctual(captures, 0, readings, 16_000, 20_000.0, 30_000.0)
            && Latency(captures, 0, readings, 16_000, 0) == 30_000.0
            && Latency(captures, 0, readings, 16_000, 1) == 40_000.0
            && Latency(captures, 0, readings, 16_000, 2) == 50_000.0
  {
    var readings := [30_000, 60_000, 90_000];
    assert TimerAfter(0, readings, 16_000, 0) == 30_000;
    assert TimerAfter(0, readings, 16_000, 1) == 60_000;
    assert TimerAfter(0, readings, 16_000, 2) == 90_000;
  }
}
