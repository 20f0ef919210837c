/** The 8-bit wrapping tick timer: deadlines, expiry test and busy wait, all measured
    against one free-running 8-bit hardware counter that wraps from 255 to 0. */
module Timer {
  import opened Ints
  import opened TimerConfig

  /** The largest number of ticks a deadline may lie ahead. */
  const MAX_TIMER_TICKS: uint8 := 128

  /** `(uint8_t)(now - since)`: the ticks elapsed from `since` to `now` on the wrapping counter. */
  function Elapsed(now: uint8, since: uint8): (d: uint8)
    ensures (since + d) % 256 == now
  {
    if now >= since then now - since else now - since + 256
  }

  /** The tick count timer_set actually uses: requests beyond 128 ticks are clamped to 128. */
  function Clamp(ticks: uint8): (c: uint8)
    ensures c <= MAX_TIMER_TICKS
    ensures c == ticks || (ticks > MAX_TIMER_TICKS && c == MAX_TIMER_TICKS)
  {
    if ticks > MAX_TIMER_TICKS then MAX_TIMER_TICKS else ticks
  }

  /** The deadline timer_set returns when the counter reads `now`: it lies exactly
      `Clamp(ticks)` ticks ahead of `now`. */
  function Deadline(now: uint8, ticks: uint8): (t: Timer)
    ensures Elapsed(t, now) == Clamp(ticks)
  {
    (now + Clamp(ticks)) % 256
  }

  /** timer_check's verdict when the counter reads `now`: 1 once the deadline has been
      reached (up to 127 ticks ago), 0 while it still lies ahead. */
  function Expired(now: uint8, timer: Timer): (r: uint8)
    ensures r == 0 || r == 1
  {
    if Elapsed(now, timer) > 127 then 0 else 1
  }

  /** The byte `d` read as a two's-complement int8_t. */
  function AsInt8(d: uint8): (v: int)
    ensures -128 <= v < 128 && v % 256 == d
  {
    if d < 128 then d else d - 256
  }

  /** The expiry test agrees with the signed comparison `(int8_t)(now - timer) >= 0`
      that the source deliberately avoids writing. */
  lemma ExpiredIsSignedComparison(now: uint8, timer: Timer)
    ensures Expired(now, timer) == 1 <==> AsInt8(Elapsed(now, timer)) >= 0
  {
  }

  /** `(start + e) - (start + c)` on the wrapping counter is `(e - c) mod 256`. */
  lemma ElapsedBetween(start: uint8, c: nat, e: nat)
    ensures Elapsed((start + e) % 256, (start + c) % 256) == (e - c) % 256
  {
  }

  /** Wrap-around correctness of timer_set / timer_check: a deadline set `ticks` ahead at
      counter value `start` reads as not expired for the first `Clamp(ticks)` ticks and as
      expired for the 128 ticks after that, wherever on the counter `start` lies. */
  lemma DeadlineExpiry(start: uint8, ticks: uint8, e: nat)
    requires e <= Clamp(ticks) + 127
    ensures Expired((start + e) % 256, Deadline(start, ticks)) == if e < Clamp(ticks) then 0 else 1
  {
    var c := Clamp(ticks);
    ElapsedBetween(start, c, e);
    if e < c {
      assert (e - c) % 256 == e - c + 256;
    } else {
      assert (e - c) % 256 == e - c;
    }
  }

  /** A deadline of 0 ticks is expired at once. */
  lemma ZeroDeadlineExpiredAtOnce(start: uint8)
    ensures Expired(start, Deadline(start, 0)) == 1
  {
    assert Clamp(0) == 0;
    assert Deadline(start, 0) == start;
    assert Elapsed(start, start) == 0;
  }

  /** A requested deadline of more than 128 ticks expires after 128 ticks. */
  lemma LongDeadlineClamped(start: uint8, ticks: uint8, e: nat)
    requires ticks >= MAX_TIMER_TICKS && e <= 255
    ensures Expired((start + e) % 256, Deadline(start, ticks)) == if e < 128 then 0 else 1
  {
    DeadlineExpiry(start, ticks, e);
  }

  /** The window is finite: a deadline that is not polled within 128 ticks after it is
      reached reads as not expired again. */
  lemma ExpiryForgottenAfterWrap(start: uint8, ticks: uint8)
    ensures Expired((start + Clamp(ticks) + 128) % 256, Deadline(start, ticks)) == 0
  {
    var c: nat := Clamp(ticks);
    ElapsedBetween(start, c, c + 128);
  }

  /** A millisecond timeout of at most 2133 ms is set without clamping and so expires
      exactly after TIMER_MILLIS(ms) ticks. */
  lemma MillisDeadlineExpiry(start: uint8, ms: uint32, e: nat)
    requires ms <= 2133 && e <= Millis(ms) + 127
    ensures Expired((start + e) % 256, Deadline(start, Millis(ms) as uint8)) == if e < Millis(ms) then 0 else 1
  {
    MillisFitsTimer(ms);
    DeadlineExpiry(start, Millis(ms) as uint8, e);
  }

  /** The CIA time-of-day counter: `reading(k)` is the value the k-th read returns. */
  class Clock {
    const reading: nat -> uint8
    var readCount: nat

    constructor (reading: nat -> uint8)
      ensures this.reading == reading && readCount == 0
    {
      this.reading := reading;
      readCount := 0;
    }

    /** timer_get: one read of the counter. */
    method Get() returns (t: uint8)
      modifies this
      ensures readCount == old(readCount) + 1
      ensures t == reading(old(readCount))
    {
      t := reading(readCount);
      readCount := readCount + 1;
    }
  }

  /** timer_set: reads the counter once and returns the deadline `ticks` (at most 128) ahead. */
  method TimerSet(clock: Clock, ticks: uint8) returns (t: Timer)
    modifies clock
    ensures clock.readCount == old(clock.readCount) + 1
    ensures t == Deadline(clock.reading(old(clock.readCount)), ticks)
  {
    var clamped := ticks;
    if clamped > 128 {
      clamped := 128;
    }
    var now := clock.Get();
    t := (now as int + clamped) % 256;
  }

  /** timer_check: reads the counter once and reports whether `timer` has expired. */
  method TimerCheck(clock: Clock, timer: Timer) returns (r: uint8)
    modifies clock
    ensures clock.readCount == old(clock.readCount) + 1
    ensures r == Expired(clock.reading(old(clock.readCount)), timer)
  {
    var now := clock.Get();
    r := if (now - timer) % 256 > 127 then 0 else 1;
  }

  /** timer_wait: reads a start value, then polls the counter until a reading lies at
      least `ticks` after it.  It returns at the first such reading; `ticks == 0` returns
      after a single check.  The source spins forever on a counter that never advances,
      so the model requires that a later reading does advance far enough. */
  method TimerWait(clock: Clock, ticks: uint8)
    requires exists k :: clock.readCount < k && Elapsed(clock.reading(k), clock.reading(clock.readCount)) >= ticks
    modifies clock
    ensures clock.readCount >= old(clock.readCount) + 2
    ensures Elapsed(clock.reading(clock.readCount - 1), clock.reading(old(clock.readCount))) >= ticks
    ensures forall j :: old(clock.readCount) < j < clock.readCount - 1 ==>
              Elapsed(clock.reading(j), clock.reading(old(clock.readCount))) < ticks
    ensures ticks == 0 ==> clock.readCount == old(clock.readCount) + 2
  {
    ghost var first := clock.readCount;
    ghost var k :| first < k && Elapsed(clock.reading(k), clock.reading(first)) >= ticks;
    var start := clock.Get();
    var now := clock.Get();
    while Elapsed(now, start) < ticks
      invariant first + 2 <= clock.readCount <= k + 1
      invariant start == clock.reading(first) && now == clock.reading(clock.readCount - 1)
      invariant forall j :: first < j < clock.readCount - 1 ==> Elapsed(clock.reading(j), start) < ticks
      decreases k + 1 - clock.readCount
    {
      now := clock.Get();
    }
  }
}
