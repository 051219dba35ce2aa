/**
 * The C integer types the example programs use, and the wrapping `uint32_t`
 * arithmetic of their millisecond clocks, interval timers and counters.
 */
module CTypes {

  /** 2^32: arithmetic on `uint32_t` is taken modulo this number. */
  const Modulus: int := 0x1_0000_0000

  newtype u8 = x: int | 0 <= x < 0x100
  newtype u32 = x: int | 0 <= x < 0x1_0000_0000
  newtype i32 = x: int | -0x8000_0000 <= x < 0x8000_0000

  /** `a - b` on `uint32_t`: the difference modulo 2^32 (it borrows when b > a). */
  function Sub(a: u32, b: u32): (r: u32)
    ensures b <= a ==> r as int == a as int - b as int
    ensures a < b ==> r as int == a as int - b as int + Modulus
  {
    ((a as int - b as int) % Modulus) as u32
  }

  /** `++x` / `x++` on `uint32_t`: wraps from 2^32 - 1 back to 0. */
  function Inc(a: u32): (r: u32)
    ensures a as int < Modulus - 1 ==> r as int == a as int + 1
    ensures a as int == Modulus - 1 ==> r == 0
  {
    ((a as int + 1) % Modulus) as u32
  }

  /**
   * The `uint32_t` that holds `n` modulo 2^32: a counter bumped `n` times from
   * 0, or what `to_ms_since_boot` yields `n` milliseconds after boot.
   */
  function Wrap(n: int): (r: u32)
    ensures 0 <= n < Modulus ==> r as int == n
  {
    (n % Modulus) as u32
  }

  /**
   * The gate every polled example puts in front of a periodic action:
   * `(now - last) > period`, evaluated on `uint32_t`. It never opens twice
   * on the same clock reading.
   */
  predicate IntervalGate(now: u32, last: u32, period: u32): (open: bool)
    ensures open ==> now != last
  {
    Sub(now, last) > period
  }

  /** Bumping a counter that holds `n` modulo 2^32 makes it hold `n + 1` modulo 2^32. */
  lemma IncWrap(n: int)
    ensures Inc(Wrap(n)) == Wrap(n + 1)
  {
    if n % Modulus == Modulus - 1 {
      assert (n + 1) % Modulus == 0;
    } else {
      assert (n + 1) % Modulus == n % Modulus + 1;
    }
  }

  /**
   * The wrapping subtraction of two clock readings is the true elapsed time
   * whenever less than 2^32 ms (about 49.7 days) separate them, even when the
   * 32-bit clock wrapped around in between.
   */
  lemma ElapsedAcrossWrap(t0: nat, t1: nat)
    requires t0 <= t1 < t0 + Modulus
    ensures Sub(Wrap(t1), Wrap(t0)) as int == t1 - t0
  {
    var q0, r0 := t0 / Modulus, t0 % Modulus;
    var q1, r1 := t1 / Modulus, t1 % Modulus;
    assert t0 == q0 * Modulus + r0;
    assert t1 == q1 * Modulus + r1;
    if r0 <= r1 {
      assert q1 == q0;
    } else {
      assert q1 == q0 + 1;
    }
  }

  /** Hence the gate opens exactly when more than `period` ms really elapsed. */
  lemma GateMeasuresElapsed(t0: nat, t1: nat, period: u32)
    requires t0 <= t1 < t0 + Modulus
    ensures IntervalGate(Wrap(t1), Wrap(t0), period) <==> t1 - t0 > period as int
  {
    ElapsedAcrossWrap(t0, t1);
  }

  /** With `last` still at its initial 0, the gate stays shut for the first `period` ms after boot. */
  lemma GateClosedAfterBoot(t: nat, period: u32)
    requires t <= period as int
    ensures !IntervalGate(Wrap(t), 0, period)
  {
  }
}
