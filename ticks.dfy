/** FreeRTOS tick arithmetic as the flicker task uses it.

    `TickType_t` is a 32-bit unsigned counter: it wraps to 0 after 2^32 - 1,
    and the difference of two tick values is taken modulo 2^32. */
module Ticks {

  const TickModulus: int := 0x1_0000_0000

  /** A value of `TickType_t`. */
  type Tick = x: int | 0 <= x < TickModulus

  /** `configTICK_RATE_HZ` of the target (1 kHz, one tick per millisecond). */
  const TickRateHz: nat := 1000

  /** `pdMS_TO_TICKS(ms)`: the product is formed in `TickType_t`, then divided by 1000. */
  function MsToTicks(ms: Tick): (r: Tick)
    // at a 1 kHz tick rate one tick is one millisecond, while the product does not wrap
    ensures ms <= TickModulus / TickRateHz ==> r == ms
    // past that the product wraps and the result falls short
    ensures ms > TickModulus / TickRateHz ==> r < ms
  {
    (ms * TickRateHz) % TickModulus / 1000
  }

  /** `flickerDuration`, that is `pdMS_TO_TICKS(1000)`: one second of ticks. */
  const FlickerDuration: Tick := MsToTicks(1000)

  /** `currentTime - startTime` in unsigned 32-bit arithmetic: the unique tick
      count that, added to `start` on the wrapping counter, gives `now`. */
  function Elapsed(now: Tick, start: Tick): (r: Tick)
    ensures (start + r) % TickModulus == now
    ensures start <= now ==> r == now - start
    ensures now < start ==> r == TickModulus - start + now
  {
    (now - start) % TickModulus
  }

  /** A counter that has advanced `d` ticks past `start`, wrapping or not,
      shows an elapsed time of exactly `d`. */
  lemma ElapsedAfterAdvance(start: Tick, d: Tick)
    ensures Elapsed((start + d) % TickModulus, start) == d
  {
    if start + d >= TickModulus {
      assert (start + d) % TickModulus == start + d - TickModulus;
    }
  }

  /** One second is a positive number of ticks, so the flicker alert takes time. */
  lemma FlickerDurationIsOneSecond()
    ensures FlickerDuration == TickRateHz && FlickerDuration > 0
  {
  }
}
