/** Which times a 64-bit clock that advances by a fixed tick ever shows, wrap
    around included. */
module ClockReach {
  import opened Words
  import opened Powers

  /** The clock after `k` advances from zero. */
  function Wrapped(k: nat, tickNs: u64): u64 {
    (k * tickNs) % MODULUS
  }

  ghost predicate Reaches(last: u64, tickNs: u64) {
    exists k: nat :: k >= 1 && Wrapped(k, tickNs) >= last
  }

  /** Exponent of the lowest set bit. */
  function LowExp(x: nat): nat
    requires x > 0
  {
    if x % 2 == 1 then 0 else 1 + LowExp(x / 2)
  }

  function LowBit(x: nat): nat
    requires x > 0
  {
    Pow2(LowExp(x))
  }

  lemma {:induction false} LowBitDivides(x: nat) returns (odd: nat)
    requires x > 0
    ensures odd % 2 == 1 && x == LowBit(x) * odd
    decreases x
  {
    if x % 2 == 1 {
      odd := x;
    } else {
      odd := LowBitDivides(x / 2);
      assert LowBit(x) == 2 * LowBit(x / 2);
      assert 2 * (LowBit(x / 2) * odd) == 2 * LowBit(x / 2) * odd;
    }
  }

  lemma {:induction false} Pow2Monotone(a: nat, b: nat)
    requires a <= b
    ensures Pow2(a) <= Pow2(b)
    decreases b
  {
    if a < b { Pow2Monotone(a, b - 1); }
  }

  /** The lowest set bit of a 64-bit number divides 2^64. */
  lemma LowBitDividesModulus(x: u64) returns (p: nat, e: nat)
    requires x > 0
    ensures p == Pow2(e) && LowBit(x) * p == MODULUS
  {
    var odd := LowBitDivides(x);
    Pow2Of64();
    assert LowBit(x) <= x by { MulAtLeast(LowBit(x), odd); }
    if LowExp(x) > 64 { Pow2Monotone(64, LowExp(x)); }
    e := 64 - LowExp(x);
    p := Pow2(e);
    Pow2Add(LowExp(x), e);
  }

  lemma MulAtLeast(a: nat, b: nat)
    requires b >= 1
    ensures a <= a * b
  {}

  /** Odd numbers are invertible modulo every power of two. */
  lemma {:induction false} OddInverse(a: nat, j: nat) returns (x: nat, m: int)
    requires a % 2 == 1
    ensures a * x == 1 + m * Pow2(j)
    decreases j
  {
    if j == 0 {
      x, m := 1, a - 1;
    } else {
      var y, n := OddInverse(a, j - 1);
      x, m := LiftInverse(a, y, n, Pow2(j - 1));
    }
  }

  lemma LiftInverse(a: nat, y: nat, n: int, half: nat) returns (x: nat, m: int)
    requires a % 2 == 1 && a * y == 1 + n * half
    ensures a * x == 1 + m * (2 * half)
  {
    if n % 2 == 0 {
      x, m := y, n / 2;
      Halve(n, m, half);
    } else {
      x, m := y + half, (n + a) / 2;
      Distribute(a, y, half);
      Distribute(half, n, a);
      Halve(n + a, m, half);
    }
  }

  lemma Halve(n: int, m: int, h: int)
    requires n == 2 * m
    ensures n * h == m * (2 * h)
  {}

  lemma Distribute(a: int, b: int, c: int)
    ensures a * (b + c) == a * b + a * c
  {}

  lemma Rotate(a: int, b: int, c: int)
    ensures a * (b * c) == b * (a * c)
  {}

  /** The highest time shown is 2^64 less the lowest set bit of the tick. */
  lemma ShownAtMost(k: nat, tickNs: u64)
    requires tickNs > 0
    ensures Wrapped(k, tickNs) <= MODULUS - LowBit(tickNs)
  {
    var low := LowBit(tickNs);
    var odd := LowBitDivides(tickNs);
    var p, e := LowBitDividesModulus(tickNs);
    var r, q := Wrapped(k, tickNs), (k * tickNs) / MODULUS;
    RemainderIsMultiple(k, low, odd, q, p, MODULUS, tickNs, r);
    MultipleBelow(low, k * odd - q * p, p);
  }

  lemma RemainderIsMultiple(k: int, low: int, odd: int, q: int, p: int, m: int, tick: int, r: int)
    requires tick == low * odd && low * p == m && k * tick == q * m + r
    ensures r == low * (k * odd - q * p)
  {
    Rotate(k, low, odd);
    Rotate(q, low, p);
    Distribute(low, k * odd, -(q * p));
  }

  lemma MultipleBelow(low: int, t: int, p: int)
    requires low > 0 && low * t < low * p
    ensures low * t <= low * p - low
  {
    Distribute(low, p, -t);
    AtLeastOnce(low, p - t);
  }

  lemma AtLeastOnce(a: int, d: int)
    requires a > 0 && a * d > 0
    ensures a * d >= a
  {}

  lemma HighestIsShown(tickNs: u64) returns (k: nat)
    requires tickNs > 0
    ensures k >= 1 && Wrapped(k, tickNs) == MODULUS - LowBit(tickNs)
  {
    var low := LowBit(tickNs);
    var odd := LowBitDivides(tickNs);
    var p, e := LowBitDividesModulus(tickNs);
    var x, m := OddInverse(odd, e);
    k := (x + 1) * p - x;
    assert k >= 1 by { MulAtLeast(x + 1, p); }
    assert low <= MODULUS by { MulAtLeast(low, p); }
    var wraps := odd * (x + 1) - m;
    OneBeforeWrap(k, low, odd, p, x, m, MODULUS, tickNs);
    Residue(k * tickNs, wraps - 1, MODULUS - low);
  }

  lemma OneBeforeWrap(k: int, low: int, odd: int, p: int, x: int, m: int, modulus: int, tick: int)
    requires tick == low * odd && low * p == modulus && odd * x == 1 + m * p && k == (x + 1) * p - x
    ensures k * tick == (odd * (x + 1) - m) * modulus - low
  {
    var wraps := odd * (x + 1) - m;
    calc {
      odd * k;
      { Distribute(odd, (x + 1) * p, -x); }
      odd * ((x + 1) * p) - odd * x;
      { Rotate(odd, p, x + 1); }
      p * (odd * (x + 1)) - m * p - 1;
      { Distribute(p, odd * (x + 1), -m); }
      p * wraps - 1;
    }
    calc {
      k * tick;
      { Rotate(k, low, odd); }
      low * (odd * k);
      { Distribute(low, p * wraps, -1); }
      low * (p * wraps) - low;
      { Rotate(low, wraps, p); }
      wraps * modulus - low;
    }
  }

  /** The clock shows a time at or past `last` exactly when `last` is zero, or
      the tick is not and `last` is at most 2^64 less its lowest set bit. */
  lemma ReachesIff(last: u64, tickNs: u64)
    ensures Reaches(last, tickNs) <==> last == 0 || (tickNs > 0 && last <= MODULUS - LowBit(tickNs))
  {
    if last == 0 {
      assert Wrapped(1, tickNs) >= last;
    } else if tickNs == 0 {
      assert forall k: nat :: Wrapped(k, tickNs) == 0;
    } else {
      var k := HighestIsShown(tickNs);
      forall j: nat ensures Wrapped(j, tickNs) <= MODULUS - LowBit(tickNs) {
        ShownAtMost(j, tickNs);
      }
    }
  }
}
