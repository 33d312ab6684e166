/** The jittered exponential delay between attempts, in the program's 64-bit arithmetic. */
module Backoff {
  import opened Numbers
  import opened Results

  function Pow2(n: nat): (r: nat)
    ensures r >= 1
  {
    if n == 0 then 1 else 2 * Pow2(n - 1)
  }

  /** base * 2^attempt, both factors and product wrapping as in a release build. */
  function Exponential(base: u64, attempt: nat): u64 {
    Wrap64(base * Wrap64(Pow2(attempt)))
  }

  function Low(base: u64, attempt: nat): u64 {
    Exponential(base, attempt) - Exponential(base, attempt) / 4
  }

  function High(base: u64, attempt: nat): u64 {
    Wrap64(Exponential(base, attempt) + Exponential(base, attempt) / 4)
  }

  /** A uniform draw from the range; an empty range panics. `draw` stands for the generator. */
  function Delay(base: u64, attempt: nat, draw: nat): (r: Option<u64>)
    ensures r.Some? <==> Low(base, attempt) <= High(base, attempt)
    ensures r.Some? ==> Low(base, attempt) <= r.value <= High(base, attempt)
  {
    var lo, hi := Low(base, attempt), High(base, attempt);
    if lo <= hi then Some(lo + draw % (hi - lo + 1)) else None
  }

  /** The largest delay of this attempt fits in 64 bits. */
  predicate Representable(base: u64, attempt: nat) {
    base * Pow2(attempt) + base * Pow2(attempt) / 4 < TWO64
  }

  lemma {:induction false} Pow2Monotone(m: nat, n: nat)
    requires m <= n
    ensures Pow2(m) <= Pow2(n)
    decreases n - m
  {
    if m < n {
      Pow2Monotone(m, n - 1);
    }
  }

  lemma ScaleMonotone(base: nat, x: nat, y: nat)
    requires x <= y
    ensures base * x <= base * y
  {
  }

  lemma RepresentableEarlier(base: u64, attempt: nat, later: nat)
    requires Representable(base, later) && attempt <= later
    ensures Representable(base, attempt)
  {
    Pow2Monotone(attempt, later);
    ScaleMonotone(base, Pow2(attempt), Pow2(later));
  }

  /** Without overflow the exponential is exact. */
  lemma ExponentialExact(base: u64, attempt: nat)
    requires Representable(base, attempt)
    ensures Exponential(base, attempt) == base * Pow2(attempt)
  {
    if base == 0 {
      assert base * Wrap64(Pow2(attempt)) == 0;
    } else {
      ScaleAtLeast(base, Pow2(attempt));
      assert Wrap64(Pow2(attempt)) == Pow2(attempt);
    }
  }

  lemma ScaleAtLeast(base: nat, x: nat)
    requires base >= 1
    ensures base * x >= x
  {
  }

  /**
   Absent overflow, a delay can be any value within a quarter (rounded down) of
   base * 2^attempt, and no other.
   */
  lemma DelayRange(base: u64, attempt: nat, d: nat)
    requires Representable(base, attempt)
    ensures
      var e := base * Pow2(attempt);
      (exists draw: nat :: Delay(base, attempt, draw) == Some(d)) <==> e - e / 4 <= d <= e + e / 4
  {
    var e := base * Pow2(attempt);
    hide Exponential, Pow2, Wrap64;
    ExponentialExact(base, attempt);
    WrapSum(e + e / 4);
    var lo, hi := Low(base, attempt), High(base, attempt);
    if lo <= d <= hi {
      var draw := d - lo;
      SmallRemainder(draw, hi - lo + 1);
      assert Delay(base, attempt, draw) == Some(d);
    }
  }

  /**
   For all bases and attempts: with e the product base * 2^attempt modulo 2^64, a delay can be
   any value within a quarter of e, unless e plus its quarter overflows, and then none.
   */
  lemma DelayRangeWrapped(base: u64, attempt: nat, d: nat)
    ensures
      var e := base * Pow2(attempt) % 0x1_0000_0000_0000_0000;
      (exists draw: nat :: Delay(base, attempt, draw) == Some(d))
        <==> e + e / 4 < 0x1_0000_0000_0000_0000 && e - e / 4 <= d <= e + e / 4
  {
    hide Pow2, Wrap64;
    var e := base * Pow2(attempt) % 0x1_0000_0000_0000_0000;
    WrapFactor(base, Pow2(attempt));
    IsWrap64(base * Pow2(attempt));
    assert e == Exponential(base, attempt);
    WrapSum(e + e / 4);
    var lo, hi := Low(base, attempt), High(base, attempt);
    if lo <= d <= hi {
      var draw := d - lo;
      SmallRemainder(draw, hi - lo + 1);
      assert Delay(base, attempt, draw) == Some(d);
    }
  }

  lemma IsWrap64(x: int)
    ensures Wrap64(x) == x % 0x1_0000_0000_0000_0000
  {
  }

  lemma SmallRemainder(x: nat, m: nat)
    requires x < m
    ensures x % m == x
  {
  }

  /** Jitter never reorders the backoff: every delay of the next attempt is at least every delay of this one. */
  lemma DelaysNeverShrink(base: u64, attempt: nat, draw: nat, draw': nat)
    requires Representable(base, attempt + 1)
    ensures Delay(base, attempt, draw).Some? && Delay(base, attempt + 1, draw').Some?
    ensures Delay(base, attempt, draw).value <= Delay(base, attempt + 1, draw').value
  {
    RepresentableEarlier(base, attempt, attempt + 1);
    DelayBounds(base, attempt, draw);
    DelayBounds(base, attempt + 1, draw');
    DoublePower(base, attempt);
    DoubledRange(base * Pow2(attempt));
  }

  lemma DoublePower(base: nat, n: nat)
    ensures base * Pow2(n + 1) == 2 * (base * Pow2(n))
  {
  }

  lemma DoubledRange(e: nat)
    ensures e + e / 4 <= 2 * e - (2 * e) / 4
  {
  }

  /** Absent overflow every draw yields a delay within a quarter of the exponential. */
  lemma DelayBounds(base: u64, attempt: nat, draw: nat)
    requires Representable(base, attempt)
    ensures Delay(base, attempt, draw).Some?
    ensures
      var e, d := base * Pow2(attempt), Delay(base, attempt, draw).value;
      e - e / 4 <= d <= e + e / 4 && 3 * e <= 4 * d <= 5 * e
  {
    hide Delay, Exponential, Pow2, Wrap64;
    ExponentialExact(base, attempt);
    Quarter(base * Pow2(attempt));
    WrapSum(base * Pow2(attempt) + base * Pow2(attempt) / 4);
  }

  lemma Quarter(e: nat)
    ensures 0 <= e / 4 <= e && 4 * (e / 4) <= e
  {
  }

  /** The exact condition for the draw to panic: the widened exponential overflows 64 bits. */
  lemma PanicsIff(base: u64, attempt: nat, draw: nat)
    ensures Delay(base, attempt, draw).None? <==> Exponential(base, attempt) + Exponential(base, attempt) / 4 >= TWO64
  {
    hide Delay, Exponential, Wrap64;
    WrapSum(Exponential(base, attempt) + Exponential(base, attempt) / 4);
  }

  /** A sum of two machine words wraps at most once. */
  lemma WrapSum(x: nat)
    requires x < 2 * TWO64
    ensures Wrap64(x) == if x < TWO64 then x else x - TWO64
  {
  }

  /** A base in the top fifth of the 64-bit range panics at once. */
  lemma HugeBasePanics(draw: nat)
    ensures Delay(0xFFFF_FFFF_FFFF_FFFF, 0, draw).None?
  {
    PanicsIff(0xFFFF_FFFF_FFFF_FFFF, 0, draw);
  }

  /** The largest integer a TOML file can hold, and so the largest base a configuration can give. */
  const CONFIGURABLE: int := 0x7FFF_FFFF_FFFF_FFFF

  /** Five times 10^18 milliseconds: more than 150 million years. */
  const AGES: int := 5_000_000_000_000_000_000

  /** Each exponential is the wrapped double of the one before. */
  lemma ExponentialDoubles(base: u64, attempt: nat)
    ensures Exponential(base, attempt + 1) == Wrap64(2 * Exponential(base, attempt))
  {
    var p := Pow2(attempt);
    WrapFactor(base, p);
    WrapFactor(base, 2 * p);
    WrapFactor(2, base * p);
    assert base * (2 * p) == 2 * (base * p);
  }

  /** Wrapping a factor first does not change a wrapped product. */
  lemma WrapFactor(base: int, x: int)
    ensures Wrap64(base * Wrap64(x)) == Wrap64(base * x)
  {
    var q := x / TWO64;
    assert base * x == base * (TWO64 * q + Wrap64(x)) == TWO64 * (base * q) + base * Wrap64(x);
    WrapMultiple(base * Wrap64(x), base * q);
  }

  lemma WrapMultiple(x: int, k: int)
    ensures Wrap64(TWO64 * k + x) == Wrap64(x)
  {
    var q, r := x / TWO64, x % TWO64;
    assert TWO64 * k + x == TWO64 * (k + q) + r;
  }

  /**
   The first delay of a base that a TOML file can hold is always drawn, and a later one that
   cannot be drawn follows one that cannot be drawn either, or that lasts for ages.
   */
  lemma PanicNeedsAges(base: u64, attempt: nat, draws: nat -> nat)
    requires base <= CONFIGURABLE && Delay(base, attempt, draws(attempt)).None?
    ensures attempt > 0
    ensures Delay(base, attempt - 1, draws(attempt - 1)).None? || Delay(base, attempt - 1, draws(attempt - 1)).value >= AGES
  {
    hide Delay, Exponential;
    PanicsIff(base, attempt, draws(attempt));
    if attempt == 0 {
      FirstExponential(base);
    } else {
      PanicsIff(base, attempt - 1, draws(attempt - 1));
      ExponentialDoubles(base, attempt - 1);
    }
  }

  lemma FirstExponential(base: u64)
    ensures Exponential(base, 0) == base
  {
  }

  /** From attempt 64 on the power of two wraps to zero, and with it every delay. */
  lemma {:induction false} LateDelaysVanish(base: u64, attempt: nat, draw: nat)
    requires attempt >= 64
    ensures Delay(base, attempt, draw) == Some(0)
  {
    LatePowers(attempt);
    assert base * Wrap64(Pow2(attempt)) == 0;
  }

  lemma {:induction false} LatePowers(n: nat)
    requires n >= 64
    ensures Wrap64(Pow2(n)) == 0
  {
    if n == 64 {
      Pow2Of64();
    } else {
      LatePowers(n - 1);
      DoubleOfMultiple(Pow2(n - 1));
    }
  }

  lemma DoubleOfMultiple(x: nat)
    requires Wrap64(x) == 0
    ensures Wrap64(2 * x) == 0
  {
  }

  lemma Pow2Of64()
    ensures Pow2(64) == TWO64
  {
    Pow2Of8();
    hide Pow2;
    Pow2Adds(8, 8);
    Pow2Adds(16, 16);
    Pow2Adds(32, 32);
  }

  lemma Pow2Of8()
    ensures Pow2(8) == 256
  {
    assert Pow2(4) == 16;
  }

  lemma {:induction false} Pow2Adds(m: nat, n: nat)
    ensures Pow2(m + n) == Pow2(m) * Pow2(n)
  {
    if n > 0 {
      Pow2Adds(m, n - 1);
      assert m + n - 1 == m + (n - 1);
      assert Pow2(m) * (2 * Pow2(n - 1)) == 2 * (Pow2(m) * Pow2(n - 1));
    }
  }

  /** Sum of the delays of attempts 0, ..., n - 1. */
  function Slept(base: u64, draws: nat -> nat, n: nat): nat {
    if n == 0 then 0
    else Slept(base, draws, n - 1) + match Delay(base, n - 1, draws(n - 1)) case None => 0 case Some(d) => d
  }

  /** Total sleep over n retries lies within [3/4, 5/4] of base * (2^n - 1). */
  lemma {:induction false} TotalSleep(base: u64, draws: nat -> nat, n: nat)
    requires n == 0 || Representable(base, n - 1)
    ensures 3 * (base * (Pow2(n) - 1)) <= 4 * Slept(base, draws, n) <= 5 * (base * (Pow2(n) - 1))
  {
    if n > 0 {
      if n > 1 {
        RepresentableEarlier(base, n - 2, n - 1);
      }
      TotalSleep(base, draws, n - 1);
      hide Delay, Representable;
      DelayBounds(base, n - 1, draws(n - 1));
      DoubleScale(base, Pow2(n - 1));
    }
  }

  lemma DoubleScale(base: nat, x: nat)
    ensures base * (2 * x - 1) == base * (x - 1) + base * x
  {
  }
}
