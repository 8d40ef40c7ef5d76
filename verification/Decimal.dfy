/** Decimal integers on the wire: canonical printing and Rust's unsigned
    `from_str`, which takes an optional leading `+` and leading zeros and
    rejects the empty string, any other byte and overflow. */
module Decimal {
  import opened Bytes

  predicate IsDigit(b: byte) {
    ZERO <= b < ZERO + 10
  }

  predicate AllDigits(s: bytes) {
    forall i :: 0 <= i < |s| ==> IsDigit(s[i])
  }

  function Value(s: bytes): nat
    requires AllDigits(s)
  {
    if s == [] then 0 else Value(s[..|s| - 1]) * 10 + (s[|s| - 1] - ZERO)
  }

  function ParseUint(s: bytes, max: nat): (r: Option<nat>)
    ensures r.Some? ==> r.value <= max
  {
    var digits := if |s| > 1 && s[0] == PLUS then s[1..] else s;
    if digits == [] || !AllDigits(digits) || Value(digits) > max then None
    else Some(Value(digits))
  }

  function Print(n: nat): (s: bytes)
    ensures s != [] && AllDigits(s)
    ensures Value(s) == n
    ensures n != 0 ==> s[0] != ZERO
  {
    if n < 10 then [ZERO + n]
    else
      var s := Print(n / 10) + [ZERO + n % 10];
      assert s[..|s| - 1] == Print(n / 10);
      s
  }

  function PrintThree(n: nat): (s: bytes)
    requires n < 1000
    ensures |s| == 3 && AllDigits(s)
    ensures Value(s) == n
  {
    var s := [ZERO + n / 100, ZERO + n / 10 % 10, ZERO + n % 10];
    assert s[..1][..0] == [] && Value(s[..1]) == n / 100;
    assert s[..2][..1] == s[..1] && Value(s[..2]) == n / 10;
    s
  }

  lemma DigitsAvoid(s: bytes, b: byte)
    requires AllDigits(s) && !IsDigit(b)
    ensures b !in s
  {}

  /** Reading after printing is the identity exactly up to the width limit. */
  lemma PrintRoundTrip(n: nat, max: nat)
    ensures ParseUint(Print(n), max) == (if n <= max then Some(n) else None)
  {
    assert Print(n)[0] != PLUS;
  }

  // ---------------------------------------------------------------------
  // Exactly which strings read as a given number
  // ---------------------------------------------------------------------

  function Zeros(k: nat): (s: bytes)
    ensures |s| == k && AllDigits(s)
    ensures forall i :: 0 <= i < k ==> s[i] == ZERO
  {
    seq(k, i => ZERO)
  }

  lemma {:induction false} ValueOfPadded(k: nat, s: bytes)
    requires AllDigits(s)
    ensures AllDigits(Zeros(k) + s) && Value(Zeros(k) + s) == Value(s)
    decreases |s|, k
  {
    var padded := Zeros(k) + s;
    if s != [] {
      assert padded[..|padded| - 1] == Zeros(k) + s[..|s| - 1];
      ValueOfPadded(k, s[..|s| - 1]);
    } else if k > 0 {
      assert padded[..|padded| - 1] == Zeros(k - 1) + s;
      ValueOfPadded(k - 1, s);
    }
  }

  lemma PrintDigit(d: nat)
    requires d < 10
    ensures Print(d) == [ZERO + d]
  {}

  lemma PrintAppend(v: nat, d: nat)
    requires v > 0 && d < 10
    ensures Print(v * 10 + d) == Print(v) + [ZERO + d]
  {
    assert (v * 10 + d) / 10 == v && (v * 10 + d) % 10 == d;
  }

  lemma ValueAppend(s: bytes, d: nat)
    requires AllDigits(s) && d < 10
    ensures AllDigits(s + [ZERO + d]) && Value(s + [ZERO + d]) == Value(s) * 10 + d
  {
    assert (s + [ZERO + d])[..|s|] == s;
  }

  lemma {:induction false} PaddingOf(s: bytes) returns (k: nat)
    requires s != [] && AllDigits(s)
    ensures s == Zeros(k) + Print(Value(s))
    decreases |s|
  {
    hide Print, Value;
    var front, last := s[..|s| - 1], s[|s| - 1] - ZERO;
    assert s == front + [ZERO + last];
    ValueAppend(front, last);
    if front == [] {
      k := 0;
      NoValue();
      PrintDigit(last);
    } else {
      k := PaddingOf(front);
      if Value(front) == 0 {
        PrintDigit(0);
        PrintDigit(last);
        k := k + 1;
      } else {
        PrintAppend(Value(front), last);
      }
    }
  }

  lemma NoValue()
    ensures Value([]) == 0
  {}

  predicate Spells(s: bytes, plus: bool, k: nat, n: nat) {
    s == (if plus then [PLUS] else []) + Zeros(k) + Print(n)
  }

  /** A string reads as `n` exactly when it is the canonical decimal of `n`
      after any number of zeros and at most one `+`, and `n` fits. */
  lemma ParseUintIff(s: bytes, max: nat, n: nat)
    ensures ParseUint(s, max) == Some(n) <==> n <= max && exists plus, k :: Spells(s, plus, k, n)
  {
    hide ParseUint, Spells;
    if ParseUint(s, max) == Some(n) {
      var plus, k := SpellingOf(s, max);
    }
    forall plus, k | n <= max && Spells(s, plus, k, n)
      ensures ParseUint(s, max) == Some(n)
    {
      ParseSpelling(s, max, plus, k, n);
    }
  }

  lemma SpellingOf(s: bytes, max: nat) returns (plus: bool, k: nat)
    requires ParseUint(s, max).Some?
    ensures Spells(s, plus, k, ParseUint(s, max).value)
  {
    hide Print, Value;
    plus := |s| > 1 && s[0] == PLUS;
    var digits := if plus then s[1..] else s;
    k := PaddingOf(digits);
  }

  lemma ParseSpelling(s: bytes, max: nat, plus: bool, k: nat, n: nat)
    requires n <= max && Spells(s, plus, k, n)
    ensures ParseUint(s, max) == Some(n)
  {
    hide Print, Value;
    var digits := Zeros(k) + Print(n);
    ValueOfPadded(k, Print(n));
    assert digits[0] != PLUS;
    assert s == (if plus then [PLUS] + digits else digits);
    if plus { assert s[1..] == digits; }
  }
}
