/** The bits of an unsigned word, by arithmetic: bit j of w is the lowest bit of w after j halvings. */
module Bits {
  import opened Words

  const ALL_ONES: Word := 0xFFFF_FFFF

  /** `w & (1 << j)` is not zero. */
  predicate Bit(w: nat, j: nat)
  {
    if j == 0 then w % 2 == 1 else Bit(w / 2, j - 1)
  }

  /** `w | (1 << j)` */
  function SetBit(w: nat, j: nat): nat
  {
    if j == 0 then w / 2 * 2 + 1 else SetBit(w / 2, j - 1) * 2 + w % 2
  }

  /** `w & ~(1 << j)` */
  function ClearBit(w: nat, j: nat): nat
  {
    if j == 0 then w / 2 * 2 else ClearBit(w / 2, j - 1) * 2 + w % 2
  }

  /** `a | b` */
  function Or(a: nat, b: nat): nat
  {
    if a == 0 then b
    else Or(a / 2, b / 2) * 2 + (if a % 2 == 1 then 1 else b % 2)
  }

  function Pow2(n: nat): nat
  {
    if n == 0 then 1 else 2 * Pow2(n - 1)
  }

  lemma {:induction false} SetBitSetsOneBit(w: nat, j: nat, k: nat)
    ensures Bit(SetBit(w, j), k) <==> Bit(w, k) || k == j
  {
    if j > 0 && k > 0 {
      SetBitSetsOneBit(w / 2, j - 1, k - 1);
    }
  }

  lemma {:induction false} ClearBitClearsOneBit(w: nat, j: nat, k: nat)
    ensures Bit(ClearBit(w, j), k) <==> Bit(w, k) && k != j
  {
    if j > 0 && k > 0 {
      ClearBitClearsOneBit(w / 2, j - 1, k - 1);
    }
  }

  /** Updating a bit below n keeps an n-bit word within n bits. */
  lemma {:induction false} UpdateFits(w: nat, j: nat, n: nat)
    requires w < Pow2(n) && j < n
    ensures SetBit(w, j) < Pow2(n) && ClearBit(w, j) < Pow2(n)
  {
    if j > 0 {
      UpdateFits(w / 2, j - 1, n - 1);
    }
  }

  lemma {:induction false} OnesHaveEveryBit(n: nat, k: nat)
    requires k < n
    ensures Pow2(n) >= 1 && Bit(Pow2(n) - 1, k)
  {
    Pow2Positive(n - 1);
    assert (Pow2(n) - 1) / 2 == Pow2(n - 1) - 1;
    if k > 0 {
      OnesHaveEveryBit(n - 1, k - 1);
    }
  }

  lemma Pow2Positive(n: nat)
    ensures Pow2(n) >= 1
  {}

  lemma WordHas32Bits()
    ensures Pow2(32) == WORD_LIMIT
  {
    assert Pow2(8) == 0x100;
    assert Pow2(16) == 0x1_0000;
    assert Pow2(24) == 0x100_0000;
  }

  /** A 32-bit word stays one, and exactly one bit changes. */
  lemma WordUpdates(w: Word, j: nat)
    requires j < 32
    ensures SetBit(w, j) < WORD_LIMIT && ClearBit(w, j) < WORD_LIMIT
    ensures forall k: nat :: Bit(SetBit(w, j), k) <==> Bit(w, k) || k == j
    ensures forall k: nat :: Bit(ClearBit(w, j), k) <==> Bit(w, k) && k != j
  {
    WordHas32Bits();
    UpdateFits(w, j, 32);
    forall k: nat
      ensures Bit(SetBit(w, j), k) <==> Bit(w, k) || k == j
      ensures Bit(ClearBit(w, j), k) <==> Bit(w, k) && k != j
    {
      SetBitSetsOneBit(w, j, k);
      ClearBitClearsOneBit(w, j, k);
    }
  }

  /** Every bit of the word that the allocator skips is set. */
  lemma FullWord(k: nat)
    requires k < 32
    ensures Bit(ALL_ONES, k)
  {
    WordHas32Bits();
    OnesHaveEveryBit(32, k);
  }

  lemma {:induction false} OrJoinsBits(a: nat, b: nat, k: nat)
    ensures Bit(Or(a, b), k) <==> Bit(a, k) || Bit(b, k)
  {
    if a == 0 {
      ZeroHasNoBit(k);
    } else if k > 0 {
      OrJoinsBits(a / 2, b / 2, k - 1);
    }
  }

  lemma {:induction false} ZeroHasNoBit(k: nat)
    ensures !Bit(0, k)
  {
    if k > 0 {
      ZeroHasNoBit(k - 1);
    }
  }

  lemma {:induction false} OrFits(a: nat, b: nat, n: nat)
    requires a < Pow2(n) && b < Pow2(n)
    ensures Or(a, b) < Pow2(n)
  {
    if a != 0 {
      OrFits(a / 2, b / 2, n - 1);
    }
  }

  lemma {:induction false} OrWithZero(a: nat)
    ensures Or(a, 0) == a && Or(0, a) == a
  {
    if a != 0 {
      OrWithZero(a / 2);
    }
  }

  /** `w >> n << n` */
  function Masked(w: nat, n: nat): nat
  {
    if n == 0 then w else Masked(w / 2, n - 1) * 2
  }

  lemma {:induction false} MaskedIsMultiple(q: nat, r: nat, n: nat)
    requires r < Pow2(n)
    ensures Masked(Pow2(n) * q + r, n) == Pow2(n) * q
  {
    if n > 0 {
      var w := Pow2(n) * q + r;
      assert w == 2 * (Pow2(n - 1) * q) + r;
      assert w / 2 == Pow2(n - 1) * q + r / 2;
      MaskedIsMultiple(q, r / 2, n - 1);
    }
  }

  /** With a multiple of 2^n, `|` of less than 2^n is a sum. */
  lemma {:induction false} OrIsSum(q: nat, r: nat, n: nat)
    requires r < Pow2(n)
    ensures Or(Pow2(n) * q, r) == Pow2(n) * q + r
  {
    if n == 0 {
      OrWithZero(q);
    } else {
      var a := Pow2(n) * q;
      assert a == 2 * (Pow2(n - 1) * q);
      if a != 0 {
        OrIsSum(q, r / 2, n - 1);
      }
    }
  }

  /** Clearing low bits distributes over `|`. */
  lemma {:induction false} OrOfMasked(a: nat, b: nat, n: nat)
    ensures Masked(Or(a, b), n) == Or(Masked(a, n), Masked(b, n))
  {
    if n > 0 {
      OrOfMasked(a / 2, b / 2, n - 1);
      OrHalves(a, b);
      OrHalves(Masked(a, n), Masked(b, n));
    }
  }

  lemma OrHalves(a: nat, b: nat)
    ensures Or(a, b) / 2 == Or(a / 2, b / 2)
    ensures a % 2 == 0 && b % 2 == 0 ==> Or(a, b) == Or(a / 2, b / 2) * 2
  {}

  lemma {:induction false} MaskedHasNoLowBit(w: nat, n: nat, k: nat)
    requires k < n
    ensures !Bit(Masked(w, n), k)
  {
    if k > 0 {
      MaskedHasNoLowBit(w / 2, n - 1, k - 1);
    }
  }
}
