/** Bitwise operations on unsigned machine words, read as natural numbers. */
module Bits {

  const WORD: nat := 0x1_0000_0000_0000_0000

  function Pow2(j: nat): (r: nat)
    ensures r > 0
  {
    if j == 0 then 1 else 2 * Pow2(j - 1)
  }

  /** Bit j of w. */
  predicate Bit(w: nat, j: nat) {
    if j == 0 then w % 2 == 1 else Bit(w / 2, j - 1)
  }

  function And(a: nat, b: nat): nat {
    if a == 0 || b == 0 then 0
    else 2 * And(a / 2, b / 2) + if a % 2 == 1 && b % 2 == 1 then 1 else 0
  }

  function Or(a: nat, b: nat): nat
    decreases a + b
  {
    if a == 0 && b == 0 then 0
    else 2 * Or(a / 2, b / 2) + if a % 2 == 1 || b % 2 == 1 then 1 else 0
  }

  lemma {:induction false} ZeroHasNoBits(j: nat)
    ensures !Bit(0, j)
  {
    if j > 0 {
      ZeroHasNoBits(j - 1);
    }
  }

  lemma {:induction false} OnlyBitOfPow2(j: nat, i: nat)
    ensures Bit(Pow2(j), i) <==> i == j
  {
    if j == 0 {
      if i > 0 {
        ZeroHasNoBits(i - 1);
      }
    } else if i > 0 {
      OnlyBitOfPow2(j - 1, i - 1);
    }
  }

  /** Masking with one shifted bit tests that bit. */
  lemma {:induction false} MaskTestsBit(w: nat, j: nat)
    ensures And(w, Pow2(j)) != 0 <==> Bit(w, j)
  {
    if w == 0 {
      ZeroHasNoBits(j);
    } else if j > 0 {
      MaskTestsBit(w / 2, j - 1);
      assert Pow2(j) % 2 == 0;
    }
  }

  lemma {:induction false} OrSetsBits(a: nat, b: nat, i: nat)
    ensures Bit(Or(a, b), i) <==> Bit(a, i) || Bit(b, i)
    decreases i
  {
    if a == 0 && b == 0 {
      ZeroHasNoBits(i);
    } else if i > 0 {
      OrSetsBits(a / 2, b / 2, i - 1);
    }
  }

  lemma {:induction false} OrStaysBelow(a: nat, b: nat, n: nat)
    requires a < Pow2(n) && b < Pow2(n)
    ensures Or(a, b) < Pow2(n)
    decreases n
  {
    if n > 0 && (a != 0 || b != 0) {
      OrStaysBelow(a / 2, b / 2, n - 1);
    }
  }

  lemma {:induction false} Pow2Grows(j: nat, n: nat)
    requires j < n
    ensures Pow2(j) < Pow2(n)
    decreases n
  {
    if j < n - 1 {
      Pow2Grows(j, n - 1);
    }
  }

  predicate IsPow2(v: int) {
    v == 1 || (v > 1 && v % 2 == 0 && IsPow2(v / 2))
  }

  /** The bit trick recognises exactly the powers of two. */
  lemma {:induction false} PowerTrick(v: nat)
    requires v > 0
    ensures And(v, v - 1) == 0 <==> IsPow2(v)
  {
    if v % 2 == 0 {
      PowerTrick(v / 2);
      assert (v - 1) / 2 == v / 2 - 1;
    } else if v > 1 {
      assert v / 2 == (v - 1) / 2;
      AndSelf(v / 2);
    }
  }

  lemma {:induction false} AndSelf(v: nat)
    ensures And(v, v) == v
  {
    if v > 0 {
      AndSelf(v / 2);
    }
  }
}
