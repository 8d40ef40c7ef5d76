/** Shifts and exclusive or on natural numbers, defined bit by bit. */
module Bits {
  import opened Words
  import opened Powers

  function Shr(x: nat, s: nat): (r: nat)
    ensures r <= x
    ensures 0 < x && 0 < s ==> r < x
    decreases s
  {
    if s == 0 then x else Shr(x / 2, s - 1)
  }

  function Xor(a: nat, b: nat): nat
    decreases a + b
  {
    if a == 0 && b == 0 then 0
    else (if a % 2 == b % 2 then 0 else 1) + 2 * Xor(a / 2, b / 2)
  }

  lemma XorZero(a: nat)
    ensures Xor(a, 0) == a
    decreases a
  {
    if a != 0 { XorZero(a / 2); }
  }

  lemma {:induction false} XorHalves(a: nat, b: nat)
    ensures Xor(a, b) / 2 == Xor(a / 2, b / 2)
    ensures Xor(a, b) % 2 == (if a % 2 == b % 2 then 0 else 1)
  {}

  lemma {:induction false} XorCancels(a: nat, b: nat)
    ensures Xor(Xor(a, b), b) == a
    decreases a + b
  {
    if a != 0 || b != 0 {
      XorHalves(a, b);
      XorHalves(Xor(a, b), b);
      XorCancels(a / 2, b / 2);
    }
  }

  lemma {:induction false} ShrOfXor(a: nat, b: nat, s: nat)
    ensures Shr(Xor(a, b), s) == Xor(Shr(a, s), Shr(b, s))
    decreases s
  {
    if s != 0 {
      XorHalves(a, b);
      ShrOfXor(a / 2, b / 2, s - 1);
    }
  }

  lemma {:induction false} FitsIffShiftedOut(x: nat, k: nat)
    ensures x < Pow2(k) <==> Shr(x, k) == 0
    decreases k
  {
    if k != 0 { FitsIffShiftedOut(x / 2, k - 1); }
  }

  lemma XorFits(a: nat, b: nat, k: nat)
    requires a < Pow2(k) && b < Pow2(k)
    ensures Xor(a, b) < Pow2(k)
  {
    FitsIffShiftedOut(a, k);
    FitsIffShiftedOut(b, k);
    FitsIffShiftedOut(Xor(a, b), k);
    ShrOfXor(a, b, k);
  }

  lemma {:induction false} XorCommutes(a: nat, b: nat)
    ensures Xor(a, b) == Xor(b, a)
    decreases a + b
  {
    if a != 0 || b != 0 { XorCommutes(a / 2, b / 2); }
  }

  /** A right shift is a division. */
  lemma {:induction false} ShrIsDivision(x: nat, s: nat)
    ensures Shr(x, s) == x / Pow2(s)
    decreases s
  {
    if s != 0 {
      ShrIsDivision(x / 2, s - 1);
      DivTwice(x, Pow2(s - 1));
    }
  }

  lemma DivTwice(x: nat, m: nat)
    requires m > 0
    ensures x / 2 / m == x / (2 * m)
  {
    var q, r := x / 2 / m, x / 2 % m;
    assert x / 2 == q * m + r && x == 2 * (x / 2) + x % 2;
    assert x == q * (2 * m) + (2 * r + x % 2);
    QuotientIs(x, 2 * m, q, 2 * r + x % 2);
  }

  function BitXor(x: nat, y: nat): nat {
    if x % 2 == y % 2 then 0 else 1
  }

  /** Exclusive or of two nibbles, bit by bit. */
  function NibbleXor(x: nat, y: nat): nat {
    8 * BitXor(x / 8, y / 8) + 4 * BitXor(x / 4, y / 4) + 2 * BitXor(x / 2, y / 2) + BitXor(x, y)
  }

  lemma XorNibble(a: nat, b: nat)
    ensures Xor(a, b) == 16 * Xor(a / 16, b / 16) + NibbleXor(a, b)
  {
    hide Xor, BitXor;
    XorPair(a, b);
    XorPair(a / 4, b / 4);
    assert a / 4 / 4 == a / 16 && b / 4 / 4 == b / 16 && a / 4 / 2 == a / 8 && b / 4 / 2 == b / 8;
  }

  lemma XorPair(a: nat, b: nat)
    ensures Xor(a, b) == 4 * Xor(a / 4, b / 4) + 2 * BitXor(a / 2, b / 2) + BitXor(a, b)
  {
    hide Xor;
    XorHalves(a, b);
    XorHalves(a / 2, b / 2);
    assert a / 2 / 2 == a / 4 && b / 2 / 2 == b / 4;
  }

  lemma XorByte(a: nat, b: nat, high: nat)
    requires Xor(a / 256, b / 256) == high
    ensures Xor(a, b) == 256 * high + 16 * NibbleXor(a / 16, b / 16) + NibbleXor(a, b)
  {
    hide Xor, NibbleXor;
    XorNibble(a, b);
    XorNibble(a / 16, b / 16);
  }

  /** The bit of weight 2^j. */
  function Bit(x: nat, j: nat): nat {
    Shr(x, j) % 2
  }

  /** Exclusive or, bit by bit. */
  lemma {:induction false} XorBits(a: nat, b: nat, j: nat)
    ensures Bit(Xor(a, b), j) == BitXor(Bit(a, j), Bit(b, j))
  {
    hide Xor, Shr;
    ShrOfXor(a, b, j);
    XorHalves(Shr(a, j), Shr(b, j));
  }

  /** Only a zero mask changes nothing. */
  lemma {:induction false} XorChangesIff(a: nat, m: nat)
    ensures Xor(a, m) == a <==> m == 0
  {
    hide Xor;
    XorZero(a);
    XorCommutes(m, a);
    XorCancels(m, a);
    XorCommutes(0, a);
    XorCancels(0, a);
  }

  /** Truncating to k bits keeps those bits. */
  lemma {:induction false} LowBits(x: nat, k: nat, j: nat)
    requires j < k
    ensures Bit(x % Pow2(k), j) == Bit(x, j)
    decreases j
  {
    HalveResidue(x, Pow2(k - 1));
    if j > 0 { LowBits(x / 2, k - 1, j - 1); }
  }

  lemma HalveResidue(x: nat, m: nat)
    requires m > 0
    ensures x % (2 * m) / 2 == x / 2 % m && x % (2 * m) % 2 == x % 2
  {
    var q, r := x / 2 / m, x / 2 % m;
    assert x / 2 == q * m + r && x == 2 * (x / 2) + x % 2;
    assert x == q * (2 * m) + (2 * r + x % 2);
    QuotientIs(x, 2 * m, q, 2 * r + x % 2);
  }
}
