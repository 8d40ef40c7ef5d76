/** The seeded generator of the replay crate: SplitMix64 over explicit 64-bit
    wrap-around arithmetic. */
module SplitMix64 {
  import opened Words
  import opened Powers
  import opened Bits

  const GAMMA: nat := 0x9E37_79B9_7F4A_7C15
  const MULTIPLIER1: nat := 0xBF58_476D_1CE4_E5B9
  const MULTIPLIER2: nat := 0x94D0_49BB_1331_11EB

  // Multiplicative inverses of the three odd constants modulo 2^64.
  const GAMMA_INVERSE: nat := 0xF1DE_83E1_9937_733D
  const MULTIPLIER1_INVERSE: nat := 0x96DE_1B17_3F11_9089
  const MULTIPLIER2_INVERSE: nat := 0x3196_42B2_D24D_8EC3

  // ---------------------------------------------------------------------
  // The xorshift and multiply rounds, each with its inverse
  // ---------------------------------------------------------------------

  function XorShift(x: nat, s: nat): nat {
    Xor(x, Shr(x, s))
  }

  function Unshift(y: nat, s: nat): nat
    requires 0 < s
    decreases y
  {
    if y == 0 then 0 else Xor(y, Unshift(Shr(y, s), s))
  }

  lemma {:induction false} UnshiftInvertsXorShift(x: nat, s: nat)
    requires 0 < s
    ensures Unshift(XorShift(x, s), s) == x
    decreases x
  {
    var y, high := XorShift(x, s), Shr(x, s);
    if x != 0 {
      UnshiftInvertsXorShift(high, s);
      ShrOfXor(x, high, s);
      XorCancels(x, high);
      XorCommutes(0, high);
      XorZero(high);
      assert y != 0;
    }
  }

  lemma {:induction false} XorShiftInvertsUnshift(y: nat, s: nat)
    requires 0 < s
    ensures XorShift(Unshift(y, s), s) == y
    decreases y
  {
    if y != 0 {
      var high := Unshift(Shr(y, s), s);
      XorShiftInvertsUnshift(Shr(y, s), s);
      ShrOfXor(y, high, s);
      XorCancels(high, Shr(high, s));
      XorCancels(y, high);
    }
  }

  lemma UnshiftFits(y: u64, s: nat)
    requires 0 < s
    ensures Unshift(y, s) < MODULUS
    decreases y
  {
    if y != 0 {
      UnshiftFits(Shr(y, s), s);
      Pow2Of64();
      XorFits(y, Unshift(Shr(y, s), s), 64);
    }
  }

  function WrappingAdd(x: u64, y: u64): u64 {
    (x + y) % MODULUS
  }

  function WrappingMul(x: u64, y: u64): u64 {
    (x * y) % MODULUS
  }

  lemma MulCancels(x: u64, c: u64, d: u64)
    requires (c * d) % MODULUS == 1
    ensures WrappingMul(WrappingMul(x, c), d) == x
  {
    var a, r := (x * c) / MODULUS, (x * c) % MODULUS;
    var q := (c * d) / MODULUS;
    assert x * c == r + a * MODULUS;
    assert c * d == 1 + q * MODULUS;
    calc {
      r * d;
      (x * c - a * MODULUS) * d;
      x * c * d - a * d * MODULUS;
      { assert x * c * d == x * (c * d); }
      x * (1 + q * MODULUS) - a * d * MODULUS;
      x + (x * q - a * d) * MODULUS;
    }
    Residue(r * d, x * q - a * d, x);
  }

  function XorShift64(x: u64, s: nat): u64 {
    Pow2Of64();
    XorFits(x, Shr(x, s), 64);
    XorShift(x, s)
  }

  function Unshift64(y: u64, s: nat): u64
    requires 0 < s
  {
    UnshiftFits(y, s);
    Unshift(y, s)
  }

  /** The output mixer: two xorshift-multiply rounds and a last xorshift. */
  function Mix(state: u64): u64 {
    XorShift64(Round(Round(state, 30, MULTIPLIER1), 27, MULTIPLIER2), 31)
  }

  function Unmix(output: u64): u64 {
    Unround(Unround(Unshift64(output, 31), 27, MULTIPLIER2_INVERSE), 30, MULTIPLIER1_INVERSE)
  }

  /** The mixer is a bijection on 64-bit words. */
  lemma MixIsBijective(x: u64)
    ensures Unmix(Mix(x)) == x
    ensures Mix(Unmix(x)) == x
  {
    UnmixInvertsMix(x);
    MixInvertsUnmix(x);
  }

  lemma InverseConstants()
    ensures (MULTIPLIER1 * MULTIPLIER1_INVERSE) % MODULUS == 1
    ensures (MULTIPLIER2 * MULTIPLIER2_INVERSE) % MODULUS == 1
    ensures (GAMMA * GAMMA_INVERSE) % MODULUS == 1
  {}

  function Round(x: u64, s: nat, c: u64): u64 {
    WrappingMul(XorShift64(x, s), c)
  }

  function Unround(y: u64, s: nat, d: u64): u64
    requires 0 < s
  {
    Unshift64(WrappingMul(y, d), s)
  }

  lemma RoundsCancel(x: u64, s: nat, c: u64, d: u64)
    requires 0 < s
    requires (c * d) % MODULUS == 1
    ensures Unround(Round(x, s, c), s, d) == x
    ensures Round(Unround(x, s, d), s, c) == x
  {
    MulCancels(XorShift64(x, s), c, d);
    UnshiftInvertsXorShift(x, s);
    XorShiftInvertsUnshift(WrappingMul(x, d), s);
    assert d * c == c * d;
    MulCancels(x, d, c);
  }

  lemma UnmixInvertsMix(x: u64)
    ensures Unmix(Mix(x)) == x
  {
    InverseConstants();
    var a := Round(x, 30, MULTIPLIER1);
    RoundsCancel(x, 30, MULTIPLIER1, MULTIPLIER1_INVERSE);
    RoundsCancel(a, 27, MULTIPLIER2, MULTIPLIER2_INVERSE);
    UnshiftInvertsXorShift(Round(a, 27, MULTIPLIER2), 31);
  }

  lemma MixInvertsUnmix(x: u64)
    ensures Mix(Unmix(x)) == x
  {
    InverseConstants();
    var a := Unround(Unshift64(x, 31), 27, MULTIPLIER2_INVERSE);
    RoundsCancel(a, 30, MULTIPLIER1, MULTIPLIER1_INVERSE);
    RoundsCancel(Unshift64(x, 31), 27, MULTIPLIER2, MULTIPLIER2_INVERSE);
    XorShiftInvertsUnshift(x, 31);
  }

  lemma MixIsInjective(x: u64, y: u64)
    requires x != y
    ensures Mix(x) != Mix(y)
  {
    UnmixInvertsMix(x);
    UnmixInvertsMix(y);
  }

  // ---------------------------------------------------------------------
  // The generator
  // ---------------------------------------------------------------------

  class DeterministicRng {
    var state: u64

    constructor FromSeed(seed: u64)
      ensures state == seed
    {
      state := seed;
    }

    method NextU64() returns (z: u64)
      modifies this
      ensures state == WrappingAdd(old(state), GAMMA)
      ensures z == Mix(state)
    {
      state := WrappingAdd(state, GAMMA);
      z := state;
      z := WrappingMul(XorShift64(z, 30), MULTIPLIER1);
      z := WrappingMul(XorShift64(z, 27), MULTIPLIER2);
      z := XorShift64(z, 31);
    }

    /** The modulus is taken of the raw draw, so the result stays inside the
        range without ever overflowing. */
    method GenRangeU64(low: u64, high: u64) returns (r: u64)
      requires low < high
      modifies this
      ensures low <= r < high
      ensures state == WrappingAdd(old(state), GAMMA)
      ensures (r - low) % (high - low) == Mix(state) % (high - low)
    {
      var z := NextU64();
      r := low + z % (high - low);
      SmallMod(z % (high - low), high - low);
    }
  }

  lemma SmallMod(x: nat, m: nat)
    requires x < m
    ensures x % m == x
  {}

  /** State after `k` draws, by stepping the generator. */
  function StateAfter(seed: u64, k: nat): u64 {
    if k == 0 then seed else WrappingAdd(StateAfter(seed, k - 1), GAMMA)
  }

  /** The `k`-th output, counting from zero. */
  function Output(seed: u64, k: nat): u64 {
    Mix(StateAfter(seed, k + 1))
  }

  lemma {:induction false} StateClosedForm(seed: u64, k: nat)
    ensures StateAfter(seed, k) == (seed + k * GAMMA) % MODULUS
  {
    if k != 0 {
      StateClosedForm(seed, k - 1);
      var before := seed + (k - 1) * GAMMA;
      var wraps := before / MODULUS;
      var sum := before % MODULUS + GAMMA;
      Residue(seed + k * GAMMA, wraps + sum / MODULUS, sum % MODULUS);
    }
  }

  /** An odd increment visits a residue again only after 2^64 steps. */
  lemma GammaIsCancellable(d: nat, m: int)
    requires d * GAMMA == m * MODULUS
    ensures d % MODULUS == 0
  {
    var q := (GAMMA * GAMMA_INVERSE) / MODULUS;
    assert GAMMA * GAMMA_INVERSE == 1 + q * MODULUS;
    assert d * (1 + q * MODULUS) == m * GAMMA_INVERSE * MODULUS;
    Residue(d, m * GAMMA_INVERSE - d * q, 0);
  }

  lemma SameResidue(x: nat, y: nat) returns (k: int)
    requires x % MODULUS == y % MODULUS
    ensures y - x == k * MODULUS
  {
    k := y / MODULUS - x / MODULUS;
  }

  lemma StatesDiffer(seed: u64, i: nat, j: nat)
    requires i < j < i + MODULUS
    ensures StateAfter(seed, i) != StateAfter(seed, j)
  {
    hide StateAfter;
    StateClosedForm(seed, i);
    StateClosedForm(seed, j);
    if StateAfter(seed, i) == StateAfter(seed, j) {
      var x, y := seed + i * GAMMA, seed + j * GAMMA;
      var wraps := SameResidue(x, y);
      assert (j - i) * GAMMA == y - x;
      GammaIsCancellable(j - i, wraps);
    }
  }

  /** Any 2^64 consecutive outputs are pairwise distinct ... */
  lemma FullPeriod(seed: u64, i: nat, j: nat)
    requires i < j < i + MODULUS
    ensures Output(seed, i) != Output(seed, j)
  {
    StatesDiffer(seed, i + 1, j + 1);
    MixIsInjective(StateAfter(seed, i + 1), StateAfter(seed, j + 1));
  }

  /** ... every 64-bit word occurs among the first 2^64 of them ... */
  lemma EveryWordIsDrawn(seed: u64, word: u64)
    ensures exists k: nat :: k < MODULUS && Output(seed, k) == word
  {
    var k := IndexReaching(seed, Unmix(word));
    OutputAt(seed, k, Unmix(word));
    MixInvertsUnmix(word);
  }

  lemma {:induction false} OutputAt(seed: u64, k: nat, state: u64)
    requires (seed + (k + 1) * GAMMA) % MODULUS == state
    ensures Output(seed, k) == Mix(state)
  {
    StateClosedForm(seed, k + 1);
  }

  lemma IndexReaching(seed: u64, target: u64) returns (k: nat)
    ensures k < MODULUS
    ensures (seed + (k + 1) * GAMMA) % MODULUS == target
  {
    var distance := (target - seed) % MODULUS;
    var t := WrappingMul(distance, GAMMA_INVERSE);
    InverseConstants();
    MulCancels(distance, GAMMA_INVERSE, GAMMA);
    k := if t == 0 then MODULUS - 1 else t - 1;
    var wraps := (t * GAMMA) / MODULUS + (if t == 0 then GAMMA else 0);
    assert (k + 1) * GAMMA == distance + wraps * MODULUS;
    Residue(seed + (k + 1) * GAMMA, wraps + (seed + distance) / MODULUS, target);
  }

  /** ... and then the sequence repeats exactly. */
  lemma {:induction false} SequenceRepeats(seed: u64, k: nat)
    ensures Output(seed, k + MODULUS) == Output(seed, k)
  {
    StateClosedForm(seed, k + 1);
    StateClosedForm(seed, k + MODULUS + 1);
    Residue(seed + (k + MODULUS + 1) * GAMMA,
            (seed + (k + 1) * GAMMA) / MODULUS + GAMMA,
            (seed + (k + 1) * GAMMA) % MODULUS);
  }

  /** Different seeds always give different first outputs. */
  lemma SeedsDiffer(a: u64, b: u64)
    requires a != b
    ensures Output(a, 0) != Output(b, 0)
  {
    assert StateAfter(a, 0) == a && StateAfter(b, 0) == b;
    MixIsInjective(StateAfter(a, 1), StateAfter(b, 1));
  }

  // ---------------------------------------------------------------------
  // The reference vector
  // ---------------------------------------------------------------------

  lemma ShiftDivisors()
    ensures Pow2(27) == 0x800_0000 && Pow2(30) == 0x4000_0000 && Pow2(31) == 0x8000_0000
  {
    hide Pow2;
    Pow2Of4();
    Pow2Of3();
    Pow2Add(4, 4);
    Pow2Add(8, 8);
    Pow2Add(16, 8);
    Pow2Add(24, 3);
    Pow2Add(27, 3);
    Pow2Add(27, 4);
  }

  lemma Pow2Of3()
    ensures Pow2(3) == 8
  {
    assert Pow2(1) == 2;
  }

  lemma {:induction false} FirstXorShift()
    ensures XorShift(0x9E37_79B9_7F5D_529C, 30) == 0x9E37_79BB_0780_B479
  {
    hide Xor, Shr, Pow2;
    ShrIsDivision(0x9E37_79B9_7F5D_529C, 30);
    ShiftDivisors();
    XorZero(0x9E_3779);
    XorByte(0x9E37_79B9, 0x2, 0x9E_3779);
    XorByte(0x9E_3779_B97F, 0x278, 0x9E37_79BB);
    XorByte(0x9E37_79B9_7F5D, 0x2_78DD, 0x9E_3779_BB07);
    XorByte(0x9E_3779_B97F_5D52, 0x278_DDE6, 0x9E37_79BB_0780);
    XorByte(0x9E37_79B9_7F5D_529C, 0x2_78DD_E6E5, 0x9E_3779_BB07_80B4);
  }

  lemma {:induction false} SecondXorShift()
    ensures XorShift(0x9D2_6EC1_8536_A871, 27) == 0x9D2_6EC0_BF7B_7041
  {
    hide Xor, Shr, Pow2;
    ShrIsDivision(0x9D2_6EC1_8536_A871, 27);
    ShiftDivisors();
    XorZero(0x9_D26E);
    XorByte(0x9D2_6EC1, 0x1, 0x9_D26E);
    XorByte(0x9_D26E_C185, 0x13A, 0x9D2_6EC0);
    XorByte(0x9D2_6EC1_8536, 0x1_3A4D, 0x9_D26E_C0BF);
    XorByte(0x9_D26E_C185_36A8, 0x13A_4DD8, 0x9D2_6EC0_BF7B);
    XorByte(0x9D2_6EC1_8536_A871, 0x1_3A4D_D830, 0x9_D26E_C0BF_7B70);
  }

  lemma {:induction false} ThirdXorShift()
    ensures XorShift(0x599E_D017_4835_5CAB, 31) == 0x599E_D017_FB08_FC85
  {
    hide Xor, Shr, Pow2;
    ShrIsDivision(0x599E_D017_4835_5CAB, 31);
    ShiftDivisors();
    XorZero(0x599E_D017);
    XorByte(0x59_9ED0_1748, 0xB3, 0x599E_D017);
    XorByte(0x599E_D017_4835, 0xB33D, 0x59_9ED0_17FB);
    XorByte(0x59_9ED0_1748_355C, 0xB3_3DA0, 0x599E_D017_FB08);
    XorByte(0x599E_D017_4835_5CAB, 0xB33D_A02E, 0x59_9ED0_17FB_08FC);
  }

  /** The first draw for seed 1234567 is that of the published generator. */
  lemma ReferenceVector()
    ensures Output(1234567, 0) == 6457827717110365317
  {
    hide XorShift;
    assert StateAfter(1234567, 0) == 1234567;
    assert StateAfter(1234567, 1) == 0x9E37_79B9_7F5D_529C;
    FirstXorShift();
    SecondXorShift();
    ThirdXorShift();
  }
}
