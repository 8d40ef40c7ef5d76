/** Powers of two. */
module Powers {
  import opened Words

  function Pow2(k: nat): (p: nat)
    ensures 0 < p
  {
    if k == 0 then 1 else 2 * Pow2(k - 1)
  }

  lemma {:induction false} Pow2Add(a: nat, b: nat)
    ensures Pow2(a + b) == Pow2(a) * Pow2(b)
    decreases b
  {
    if b != 0 {
      Pow2Add(a, b - 1);
      assert Pow2(a) * Pow2(b) == 2 * (Pow2(a) * Pow2(b - 1));
    }
  }

  lemma Pow2Of4()
    ensures Pow2(4) == 0x10
  {
    assert Pow2(2) == 4;
  }

  lemma Pow2Of8()
    ensures Pow2(8) == 0x100
  {
    hide Pow2;
    Pow2Of4();
    Pow2Add(4, 4);
  }

  lemma Pow2Of64()
    ensures Pow2(64) == MODULUS
  {
    hide Pow2;
    Pow2Of4();
    Pow2Add(4, 4);
    Pow2Add(8, 8);
    Pow2Add(16, 16);
    Pow2Add(32, 32);
  }
}
