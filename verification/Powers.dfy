/** Powers of two. */
module Powers {

  ghost function Pow2(n: nat): nat { if n == 0 then 1 else 2 * Pow2(n - 1) }

  lemma {:induction false} Pow2Plus(a: nat, b: nat)
    ensures Pow2(a + b) == Pow2(a) * Pow2(b)
  {
    if a == 0 {
      assert Pow2(a + b) == 1 * Pow2(b);
    } else {
      Pow2Plus(a - 1, b);
      assert Pow2(a + b) == 2 * Pow2(a - 1 + b);
      assert Pow2(a) * Pow2(b) == 2 * (Pow2(a - 1) * Pow2(b));
    }
  }

  lemma {:induction false} Pow2Monotone(a: nat, b: nat)
    requires a <= b
    ensures 0 < Pow2(a) <= Pow2(b)
  {
    if b > 0 { Pow2Monotone(if a < b then a else a - 1, b - 1); }
  }

  lemma Pow2Of21()
    ensures Pow2(21) == 0x20_0000
  {
    assert Pow2(3) == 8;
    Pow2Plus(3, 4);
    Pow2Plus(7, 7);
    Pow2Plus(14, 7);
  }
}
