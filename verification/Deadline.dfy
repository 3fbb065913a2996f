/** Interval and deadline arithmetic shared by AudioStream::set, AudioStream::decode and `receive`. */
module Deadline {
  import opened Bits
  import opened Wrappers

  const SECOND := 1_000_000

  datatype Timeval = Timeval(sec: int, usec: int) {
    function Micros(): int { sec * SECOND + usec }

    predicate Normal() { 0 <= usec < SECOND }
  }

  /** `mInterval`, in microseconds. */
  function Interval(sampleRate: nat, sampleCount: nat): nat
    requires sampleRate > 0
  {
    1000 * sampleCount / sampleRate * 800
  }

  /** 0.8 times the frame period, rounded down to a multiple of 800 microseconds, and under a second. */
  lemma IntervalBounds(sampleRate: nat, sampleCount: nat)
    requires 0 < sampleCount < sampleRate
    ensures Interval(sampleRate, sampleCount) <= 799_200
    ensures Interval(sampleRate, sampleCount) % 800 == 0
    ensures 800_000 * sampleCount - 800 * sampleRate
            < Interval(sampleRate, sampleCount) * sampleRate
            <= 800_000 * sampleCount
  {
    var q, r := 1000 * sampleCount / sampleRate, 1000 * sampleCount % sampleRate;
    assert 1000 * sampleCount == sampleRate * q + r;
    assert (q * 800) * sampleRate == 800 * (sampleRate * q);
    assert (q - 1000) * sampleRate == sampleRate * q - 1000 * sampleRate;
    NonNegative(q - 1000, sampleRate);
  }

  /** Frames of less than a millisecond have no interval, and are not paced. */
  lemma IntervalIsZero(sampleRate: nat, sampleCount: nat)
    requires sampleRate > 0
    ensures Interval(sampleRate, sampleCount) == 0 <==> 1000 * sampleCount < sampleRate
  {
    var q, r := 1000 * sampleCount / sampleRate, 1000 * sampleCount % sampleRate;
    assert 1000 * sampleCount == sampleRate * q + r;
    if q > 0 { MulAtLeast(sampleRate, q); }
  }

  /** The deadline of one `decode` call. */
  function DeadlineFrom(now: Timeval, interval: nat): Timeval {
    var usec := now.usec + interval;
    if usec > SECOND then Timeval(now.sec + 1, usec - SECOND) else Timeval(now.sec, usec)
  }

  /** The socket timeout `receive` sets, or None when the deadline has passed. */
  function TimeoutUntil(deadline: Timeval, now: Timeval): Option<Timeval> {
    var remain := (deadline.sec - now.sec) * SECOND + deadline.usec - now.usec;
    if remain <= 0 then None
    else if remain < SECOND then Some(Timeval(0, remain))
    else Some(Timeval(remain / SECOND, remain - remain / SECOND * SECOND))
  }

  /** One carry is enough: the deadline is exactly one interval ahead, and it is a normal time
      unless the microseconds add up to exactly one second, which the code does not carry.
    */
  lemma DeadlineIsOneIntervalAhead(now: Timeval, interval: nat)
    requires now.Normal() && interval <= 799_200
    ensures var d := DeadlineFrom(now, interval);
            && d.Micros() == now.Micros() + interval
            && d.sec * 1_000_000 + d.usec == now.sec * 1_000_000 + now.usec + interval
            && 0 <= d.usec <= 1_000_000
            && (0 <= d.usec < 1_000_000 <==> now.usec + interval != 1_000_000)
  {}

  /** `receive` gives up exactly when the deadline has passed. Otherwise its timeout ends at the
      deadline and is a normal, non-zero time; a zero timeout would mean waiting for ever.
    */
  lemma TimeoutEndsAtDeadline(deadline: Timeval, now: Timeval)
    ensures var t := TimeoutUntil(deadline, now);
            && (t == None <==> now.Micros() >= deadline.Micros())
            && (t.Some? ==> now.Micros() + t.value.Micros() == deadline.Micros()
                            && 0 <= t.value.usec < 1_000_000 && t.value.sec >= 0 && t.value != Timeval(0, 0))
  {
    assert (deadline.sec - now.sec) * SECOND == deadline.sec * SECOND - now.sec * SECOND;
  }

  /** Whenever a `decode` call that began at `start` waits, the wait ends at the same instant, one interval after
      the call began.
    */
  lemma WaitEndsWithInterval(sampleRate: nat, sampleCount: nat, start: Timeval, now: Timeval)
    requires 0 < sampleCount < sampleRate && start.Normal()
    ensures var interval := Interval(sampleRate, sampleCount);
            match TimeoutUntil(DeadlineFrom(start, interval), now)
            case None => now.Micros() >= start.Micros() + interval
            case Some(t) => now.Micros() + t.Micros() == start.Micros() + interval
  {
    hide Interval, DeadlineFrom, TimeoutUntil;
    var interval := Interval(sampleRate, sampleCount);
    IntervalBounds(sampleRate, sampleCount);
    DeadlineIsOneIntervalAhead(start, interval);
    TimeoutEndsAtDeadline(DeadlineFrom(start, interval), now);
  }

  /** The deadline computation of `decode`, which updates the clock reading in place. */
  method ComputeDeadline(now: Timeval, interval: nat) returns (deadline: Timeval)
    requires now.Normal() && interval <= 799_200
    ensures deadline == DeadlineFrom(now, interval)
    ensures deadline.Micros() == now.Micros() + interval
  {
    deadline := now;
    deadline := deadline.(usec := deadline.usec + interval);
    if deadline.usec > SECOND {
      deadline := deadline.(usec := deadline.usec - SECOND);
      deadline := deadline.(sec := deadline.sec + 1);
    }
  }

  /** The timeout computation of `receive`, built step by step in the clock reading. */
  method ComputeTimeout(deadline: Timeval, now: Timeval) returns (timeout: Option<Timeval>)
    ensures timeout == TimeoutUntil(deadline, now)
    ensures timeout.Some? ==>
              (now.sec + timeout.value.sec) * 1_000_000 + now.usec + timeout.value.usec
              == deadline.sec * 1_000_000 + deadline.usec
  {
    TimeoutEndsAtDeadline(deadline, now);
    var remain := (deadline.sec - now.sec) * SECOND + deadline.usec - now.usec;
    if remain <= 0 {
      return None;
    }
    var t := now;
    if remain < SECOND {
      t := t.(sec := 0);
      t := t.(usec := remain);
    } else {
      t := t.(sec := remain / SECOND);
      t := t.(usec := remain - t.sec * SECOND);
    }
    timeout := Some(t);
  }
}
