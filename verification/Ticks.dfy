/** Timer ticks (src/core/timer_ticks.h): 32-bit counters compared by the sign
    of their difference, so that comparison survives the wrap-around. */
module Ticks {

  const MODULUS := 0x1_0000_0000
  const HZ := 16

  type ticks = t: int | 0 <= t < MODULUS

  /** (s_ticks_t)(now - t) >= 0 */
  predicate Reached(now: ticks, t: ticks)
  {
    (now - t) % MODULUS < MODULUS / 2
  }

  /** now + delta, in 32 bits. */
  function After(now: ticks, delta: nat): (t: ticks)
  {
    (now + delta) % MODULUS
  }

  function SecondsToTicks(s: nat): (t: nat)
  {
    s * HZ
  }

  // ----- what the comparison means -----

  /** `t` is `d` ticks ahead of `now`: 1 to 2^31 of them. */
  ghost predicate AheadBy(now: ticks, t: ticks, d: nat)
  {
    0 < d <= 0x8000_0000 && t == (now + d) % 0x1_0000_0000
  }

  ghost predicate Ahead(now: ticks, t: ticks)
  {
    exists d :: AheadBy(now, t, d)
  }

  /** `t` is `d` ticks behind `now`: fewer than 2^31 of them. */
  ghost predicate BehindBy(now: ticks, t: ticks, d: nat)
  {
    d < 0x8000_0000 && now == (t + d) % 0x1_0000_0000
  }

  ghost predicate Behind(now: ticks, t: ticks)
  {
    exists d :: BehindBy(now, t, d)
  }

  /** A time is reached if and only if it lies behind, and otherwise, only otherwise, it lies ahead. */
  lemma ReachedExactly(now: ticks, t: ticks)
    ensures Reached(now, t) <==> Behind(now, t)
    ensures Reached(now, t) <==> !Ahead(now, t)
  {
    var d := (now - t) % MODULUS;
    if Reached(now, t) {
      assert BehindBy(now, t, d);
    } else {
      assert AheadBy(now, t, MODULUS - d);
    }
    forall d | AheadBy(now, t, d) ensures !Reached(now, t) {
    }
    forall d | BehindBy(now, t, d) ensures Reached(now, t) {
    }
  }
}
