/** The tick-timer configuration header: tick frequency, the TIMER type and the
    milliseconds-to-ticks conversion macro. */
module TimerConfig {
  import opened Ints

  /** Default tick frequency in Hz; a build may override it at compile time. */
  const TIMER_TICK_FREQ: uint32 := 60

  /** A timer value is an 8-bit tick count. */
  type Timer = uint8

  /** The largest millisecond count for which `ms * 60 + 999` still fits in 32 bits. */
  const MAX_EXACT_MILLIS: uint32 := 71582771

  /** TIMER_MILLIS(ms) at tick frequency `freq`: `((uint32_t)ms * freq + 999ul) / 1000ul`,
      with both the product and the sum wrapping modulo 2^32 as C unsigned arithmetic does.
      When nothing wraps, the result is the number of ticks in `ms` milliseconds rounded up. */
  function MillisAt(freq: uint32, ms: uint32): (r: uint32)
    ensures ms * freq + 999 < UINT32_MODULUS ==>
              r * 1000 >= ms * freq && (r > 0 ==> (r - 1) * 1000 < ms * freq)
  {
    var product := (ms * freq) % UINT32_MODULUS;
    var sum := (product + 999) % UINT32_MODULUS;
    sum / 1000
  }

  /** TIMER_MILLIS(ms) at the default tick frequency. */
  function Millis(ms: uint32): uint32 {
    MillisAt(TIMER_TICK_FREQ, ms)
  }

  /** Below the overflow bound, TIMER_MILLIS is the ceiling of ms * 60 / 1000. */
  lemma MillisIsCeiling(ms: uint32)
    requires ms <= MAX_EXACT_MILLIS
    ensures Millis(ms) * 1000 >= ms * 60
    ensures Millis(ms) > 0 ==> (Millis(ms) - 1) * 1000 < ms * 60
  {
    assert ms * 60 + 999 <= MAX_EXACT_MILLIS * 60 + 999 < UINT32_MODULUS;
  }

  /** Zero milliseconds is zero ticks; the values the SD driver uses as timeouts. */
  lemma MillisValues()
    ensures Millis(0) == 0
    ensures Millis(20) == 2
    ensures Millis(500) == 30
    ensures Millis(1000) == 60
  {
  }

  /** TIMER_MILLIS never decreases as the duration grows, as long as nothing wraps. */
  lemma MillisMonotone(a: uint32, b: uint32)
    requires a <= b <= MAX_EXACT_MILLIS
    ensures Millis(a) <= Millis(b)
  {
    assert a * 60 <= b * 60 < UINT32_MODULUS;
    assert b * 60 + 999 < UINT32_MODULUS;
  }

  /** Durations up to 2133 ms convert to at most 128 ticks, the largest deadline timer_set accepts
      without clamping; 2134 ms is the first duration that does not. */
  lemma MillisFitsTimer(ms: uint32)
    requires ms <= 2133
    ensures Millis(ms) <= 128
    ensures Millis(2134) == 129
  {
    MillisMonotone(ms, 2133);
  }

  /** One millisecond past the overflow bound the product still fits in 32 bits, but adding 999
      wraps the sum to 23, and the macro yields 0 ticks. */
  lemma MillisWrapsPastBound()
    ensures (MAX_EXACT_MILLIS + 1) * 60 < UINT32_MODULUS
    ensures ((MAX_EXACT_MILLIS + 1) * 60 + 999) % UINT32_MODULUS == 23
    ensures Millis(MAX_EXACT_MILLIS + 1) == 0
  {
  }
}
