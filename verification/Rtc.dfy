/**
 The compare value of the real-time counter (metal/src/drivers/sifive_rtc0.c). A 64-bit value is
 stored as a 32-bit compare value and a 4-bit scale.

 The scaling loop shifts by 1, then by 2, then by 3 and so on, so after k rounds the value is
 shifted by k(k+1)/2 bits while the scale is only k. The model keeps that.
 */
module Rtc {
  import opened Bits
  import opened Words

  const COMPARE_MAX: nat := 0xFFFF_FFFF

  /** 1 + 2 + ... + k */
  function Triangle(k: nat): nat {
    if k == 0 then 0 else Triangle(k - 1) + k
  }

  lemma {:induction false} TriangleIs(k: nat)
    ensures 2 * Triangle(k) == k * (k + 1)
  {
    if k > 0 {
      TriangleIs(k - 1);
      assert k * (k + 1) == (k - 1) * k + 2 * k;
    }
  }

  /** k is the number of rounds for c: the value fits after k rounds and not before. */
  ghost predicate Rounds(c: nat, k: nat) {
    && Shr(c, Triangle(k)) <= COMPARE_MAX
    && forall j: nat :: j < k ==> Shr(c, Triangle(j)) > COMPARE_MAX
  }

  lemma {:induction false} ShrShr(w: nat, a: nat, b: nat)
    ensures Shr(Shr(w, a), b) == Shr(w, a + b)
  {
    if a > 0 {
      ShrShr(w / 2, a - 1, b);
    }
  }

  lemma Powers()
    ensures Pow2(16) == 0x1_0000 && Pow2(32) == 0x1_0000_0000 && Pow2(36) == 0x10_0000_0000
    ensures Pow2(64) == 0x1_0000_0000_0000_0000
  {
    assert Pow2(4) == 16;
    PowAdds(4, 4);
    PowAdds(8, 8);
    PowAdds(16, 16);
    PowAdds(32, 4);
    PowAdds(32, 32);
  }

  lemma {:induction false} PowAdds(m: nat, n: nat)
    ensures Pow2(m + n) == Pow2(m) * Pow2(n)
  {
    if n > 0 {
      PowAdds(m, n - 1);
      DoubleOut(Pow2(m), Pow2(n - 1));
    }
  }

  /** Eight rounds shift by 36 bits, which is enough for every 64-bit value. */
  lemma EightRoundsSuffice(c: U64)
    ensures Shr(c, Triangle(8)) <= COMPARE_MAX
  {
    assert Triangle(4) == 10 && Triangle(6) == 21 && Triangle(8) == 36;
    Powers();
    ShrIsQuotient(c, 36);
  }

  class Counter {
    var cfg: nat
    var cmp: nat

    /** `get_compare` */
    method GetCompare() returns (compare: nat)
      ensures compare == Shl(cmp, Field(cfg, 0, 4))
    {
      ScaleField(cfg);
      var shift := And(cfg, 0xF);
      compare := Shl(cmp, shift);
    }

    /**
     `set_compare`: the loop ends within eight rounds for every 64-bit request, so the 4-bit scale
     holds the round count exactly, the compare value fits its register, and the rest of the
     configuration is untouched.
     */
    method SetCompare(compare: U64) returns (stored: nat, ghost k: nat)
      modifies this
      ensures k <= 8 && Rounds(compare, k)
      ensures Field(cfg, 0, 4) == k && Shr(cfg, 4) == Shr(old(cfg), 4)
      ensures cmp == Shr(compare, Triangle(k)) <= COMPARE_MAX
      ensures stored == ReadBack(compare, k)
    {
      var shift: nat, shifted: nat := 0, compare;
      while shifted > COMPARE_MAX
        invariant shift <= 8 && shifted == Shr(compare, Triangle(shift))
        invariant forall j: nat :: j < shift ==> Shr(compare, Triangle(j)) > COMPARE_MAX
        invariant cfg == old(cfg)
        decreases 8 - shift
      {
        EightRoundsSuffice(compare);
        ShrShr(compare, Triangle(shift), shift + 1);
        shift := shift + 1;
        shifted := Shr(shifted, shift);
      }
      k := shift;
      WriteScale(cfg, shift);
      cfg := Or(AndNot(cfg, 0xF), And(shift, 0xF));
      cmp := shifted;
      stored := GetCompare();
    }
  }

  lemma ScaleField(w: nat)
    ensures And(w, 0xF) == Field(w, 0, 4)
  {
    assert Ones(1) == 1 && Ones(2) == 3 && Ones(3) == 7 && Ones(4) == 0xF;
    MaskOps(w, 4);
  }

  lemma WriteScale(w: nat, k: nat)
    requires k < 16
    ensures var w' := Or(AndNot(w, 0xF), And(k, 0xF)); Field(w', 0, 4) == k && Shr(w', 4) == Shr(w, 4)
  {
    assert Ones(1) == 1 && Ones(2) == 3 && Ones(3) == 7 && Ones(4) == 0xF;
    assert Pow2(1) == 2 && Pow2(2) == 4 && Pow2(3) == 8 && Pow2(4) == 16;
    MaskOps(k, 4);
    assert Mask(0, 4) == 0xF && Shl(k, 0) == k;
    ClearThenOr(w, 0, 4, k);
    var w' := WriteField(w, 0, 4, k);
    WriteThenRead(w, 0, 4, k);
    forall i: nat ensures Bit(Shr(w', 4), i) == Bit(Shr(w, 4), i) {
      BitOfShr(w', 4, i);
      BitOfShr(w, 4, i);
      WriteFieldBit(w, 0, 4, k, 4 + i);
    }
    Extensional(Shr(w', 4), Shr(w, 4));
  }

  /** What is read back after k rounds: the value shifted right by k(k+1)/2 and left by k. */
  function ReadBack(c: nat, k: nat): nat {
    Shl(Shr(c, Triangle(k)), k)
  }

  /** Read back, in arithmetic: floor(c / 2^(k(k+1)/2)) * 2^k. */
  lemma ReadBackIs(c: nat, k: nat)
    ensures Triangle(k) == k * (k + 1) / 2
    ensures ReadBack(c, k) == c / Pow2(Triangle(k)) * Pow2(k)
  {
    TriangleIs(k);
    ShrIsQuotient(c, Triangle(k));
    ShlIsProduct(Shr(c, Triangle(k)), k);
  }

  /** Beyond the first round the value is scaled down by more than the scale says: what is read back is at most half. */
  lemma ReadBackBound(c: nat, k: nat)
    ensures ReadBack(c, k) <= c
    ensures k >= 2 ==> 2 * ReadBack(c, k) <= c
  {
    if k > 0 {
      var high := Shr(c, Triangle(k - 1));
      ShrShr(c, Triangle(k - 1), k);
      SplitAt(high, k);
      assert ReadBack(c, k) <= high;
      SplitAt(c, Triangle(k - 1));
      if k >= 2 {
        assert Triangle(k - 1) >= 1;
        ShlIsProduct(high, Triangle(k - 1));
        Pow2Grows(1, Triangle(k - 1));
        assert Pow2(1) == 2;
        TwiceAtMost(high, Pow2(Triangle(k - 1)));
      } else {
        assert Triangle(0) == 0;
      }
    }
  }

  lemma TwiceAtMost(a: nat, b: nat)
    requires b >= 2
    ensures 2 * a <= a * b
  {
    assert a * b == a * (b - 2) + 2 * a;
    assert a * (b - 2) >= 0;
  }

  /**
   The value read back is never above the request, and it is within one unit of the scale exactly
   when the request is below 2^33. From there on it is off by more than the scale can explain.
   */
  lemma AccurateIff(c: U64, k: nat)
    requires Rounds(c, k)
    ensures k <= 8 && ReadBack(c, k) <= c
    ensures c - ReadBack(c, k) < Pow2(k) <==> c < 0x2_0000_0000
  {
    EightRoundsSuffice(c);
    ReadBackBound(c, k);
    assert Shr(c, Triangle(0)) == c;
    OneRound(c);
    if k <= 1 {
      assert k == 1 ==> Triangle(1) == 1;
      SplitAt(c, k);
      LowFixesIffFits(c, k);
      assert k == 1 ==> Shr(c, 1) <= COMPARE_MAX;
    } else {
      assert Shr(c, Triangle(1)) > COMPARE_MAX;
      Pow2Grows(k, 8);
      assert Pow2(4) == 16 && Pow2(8) == 16 * Pow2(4);
    }
  }

  lemma OneRound(c: nat)
    ensures Triangle(1) == 1 && Shr(c, 1) == c / 2
  {
  }
}
