/**
 The machine words of src/bitvec.rs: a `u32` is a natural number below 2^32, and
 the operators `|`, `&` and `1 << i` act on its binary expansion.
 */
module Words {
  /** A sequence of bits, first bit first. */
  type Bits = seq<bool>

  const WORD_BITS := 32
  const WORD_LIMIT := 0x1_0000_0000

  type u32 = x: nat | x < WORD_LIMIT

  /** Binary digit i of w. */
  predicate Bit(w: nat, i: nat) {
    if i == 0 then w % 2 == 1 else Bit(w / 2, i - 1)
  }

  /** 1 << i, without the 32-bit bound. */
  function Pow2(i: nat): (p: nat)
    ensures p > 0
  {
    if i == 0 then 1 else 2 * Pow2(i - 1)
  }

  /** v | w */
  function Or(v: nat, w: nat): (r: nat)
    decreases v + w
  {
    if v == 0 && w == 0 then 0
    else 2 * Or(v / 2, w / 2) + if v % 2 == 1 || w % 2 == 1 then 1 else 0
  }

  /** v & w */
  function And(v: nat, w: nat): (r: nat)
    decreases v
  {
    if v == 0 then 0
    else 2 * And(v / 2, w / 2) + if v % 2 == 1 && w % 2 == 1 then 1 else 0
  }

  /** u32::checked_shl(1, i).unwrap() */
  function ShiftOne(i: nat): (m: u32)
    requires i < WORD_BITS
    ensures forall k: nat :: Bit(m, k) <==> k == i
  {
    Pow2Grows(i, 31);
    assert Pow2(31) == 0x8000_0000 by { Pow2At31(); }
    forall k: nat
      ensures Bit(Pow2(i), k) <==> k == i
    {
      BitOfPow2(i, k);
    }
    Pow2(i)
  }

  lemma Pow2At31()
    ensures Pow2(31) == 0x8000_0000
    ensures Pow2(32) == WORD_LIMIT
  {
    assert Pow2(4) == 0x10;
    assert Pow2(8) == 0x100;
    assert Pow2(12) == 0x1000;
    assert Pow2(16) == 0x1_0000;
    assert Pow2(20) == 0x10_0000;
    assert Pow2(24) == 0x100_0000;
    assert Pow2(28) == 0x1000_0000;
  }

  lemma Pow2Grows(i: nat, k: nat)
    requires i <= k
    ensures Pow2(i) <= Pow2(k)
    decreases k - i
  {
    if i == k {
    } else {
      Pow2Grows(i + 1, k);
    }
  }

  lemma {:induction false} BitOfZero(i: nat)
    ensures !Bit(0, i)
  {
    if i == 0 {
    } else {
      BitOfZero(i - 1);
    }
  }

  lemma {:induction false} BitOfPow2(k: nat, i: nat)
    ensures Bit(Pow2(k), i) <==> i == k
  {
    if k == 0 && i > 0 {
      BitOfZero(i - 1);
    } else if k > 0 && i > 0 {
      BitOfPow2(k - 1, i - 1);
    }
  }

  lemma {:induction false} BitOfOr(v: nat, w: nat, i: nat)
    ensures Bit(Or(v, w), i) <==> Bit(v, i) || Bit(w, i)
  {
    if v == 0 && w == 0 {
      BitOfZero(i);
    } else if i > 0 {
      assert Or(v, w) / 2 == Or(v / 2, w / 2);
      BitOfOr(v / 2, w / 2, i - 1);
    }
  }

  /** Masking with `1 << i` is nonzero exactly when digit i is set. */
  lemma {:induction false} MaskTestsBit(w: nat, i: nat)
    ensures And(w, Pow2(i)) != 0 <==> Bit(w, i)
  {
    if w == 0 {
      BitOfZero(i);
    } else if i == 0 {
      AndZero(w / 2);
    } else {
      MaskTestsBit(w / 2, i - 1);
    }
  }

  lemma {:induction false} AndZero(w: nat)
    ensures And(w, 0) == 0
  {
    if w != 0 {
      AndZero(w / 2);
    }
  }

  /** Setting a digit above every used one stays within the next power of two. */
  lemma {:induction false} OrBound(v: nat, w: nat, n: nat)
    requires v < Pow2(n) && w < Pow2(n)
    ensures Or(v, w) < Pow2(n)
  {
    if n == 0 || (v == 0 && w == 0) {
    } else {
      OrBound(v / 2, w / 2, n - 1);
    }
  }

  lemma {:induction false} BitAboveBound(w: nat, n: nat, i: nat)
    requires w < Pow2(n) && n <= i
    ensures !Bit(w, i)
  {
    if n == 0 {
      BitOfZero(i);
    } else {
      BitAboveBound(w / 2, n - 1, i - 1);
    }
  }

  /** Two words below 2^n with the same low n digits are the same number. */
  lemma {:induction false} WordsEqual(v: nat, w: nat, n: nat)
    requires v < Pow2(n) && w < Pow2(n)
    requires forall i: nat :: i < n ==> (Bit(v, i) <==> Bit(w, i))
    ensures v == w
  {
    if n == 0 {
    } else {
      assert Bit(v, 0) <==> Bit(w, 0);
      forall i: nat | i < n - 1
        ensures Bit(v / 2, i) <==> Bit(w / 2, i)
      {
        assert Bit(v, i + 1) <==> Bit(w, i + 1);
      }
      WordsEqual(v / 2, w / 2, n - 1);
    }
  }
}
