/**
 Bitwise arithmetic on unsigned words, as the C drivers and the Python generator use it.

 A word is a natural number. `Bit` reads one bit of it, and the operators are defined on the
 binary expansion, so one set of laws serves 8-bit, 32-bit and 64-bit registers as well as
 Python's unbounded integers. Most proofs about registers go through `Extensional`: two words
 with the same bits are the same word.
 */
module Bits {

  function Pow2(n: nat): (r: nat)
    ensures r > 0
  {
    if n == 0 then 1 else 2 * Pow2(n - 1)
  }

  predicate Bit(w: nat, i: nat) {
    if i == 0 then w % 2 == 1 else Bit(w / 2, i - 1)
  }

  /** `a | b` */
  function Or(a: nat, b: nat): nat {
    if a == 0 then b
    else 2 * Or(a / 2, b / 2) + (if a % 2 == 1 || b % 2 == 1 then 1 else 0)
  }

  /** `a & b` */
  function And(a: nat, b: nat): nat {
    if a == 0 then 0
    else 2 * And(a / 2, b / 2) + (if a % 2 == 1 && b % 2 == 1 then 1 else 0)
  }

  /** `a & ~b` */
  function AndNot(a: nat, b: nat): nat {
    if a == 0 then 0
    else 2 * AndNot(a / 2, b / 2) + (if a % 2 == 1 && b % 2 == 0 then 1 else 0)
  }

  /** `w << s`, without truncation */
  function Shl(w: nat, s: nat): nat {
    if s == 0 then w else 2 * Shl(w, s - 1)
  }

  /** `w >> s` */
  function Shr(w: nat, s: nat): nat {
    if s == 0 then w else Shr(w / 2, s - 1)
  }

  /** The low n bits of w: truncation to an n-bit register. */
  function Low(w: nat, n: nat): nat {
    if n == 0 then 0 else 2 * Low(w / 2, n - 1) + w % 2
  }

  /** A word of n ones. */
  function Ones(n: nat): nat {
    if n == 0 then 0 else 2 * Ones(n - 1) + 1
  }

  /** The mask of the `width` bits that start at bit `low`. */
  function Mask(low: nat, width: nat): nat {
    Shl(Ones(width), low)
  }

  /** The value of the `width` bits of `w` that start at bit `low`. */
  function Field(w: nat, low: nat, width: nat): nat {
    Low(Shr(w, low), width)
  }

  /** The drivers' read-modify-write: clear the field's mask, then or the shifted value in. */
  function WriteField(w: nat, low: nat, width: nat, v: nat): nat {
    Or(AndNot(w, Mask(low, width)), And(Shl(v, low), Mask(low, width)))
  }

  /** `mask & ~(mask << 1)`: on a contiguous mask, its lowest bit. */
  function LowestBit(mask: nat): nat {
    AndNot(mask, Shl(mask, 1))
  }

  function Quotient(a: nat, b: nat): nat
    requires b > 0
  {
    a / b
  }

  /** `__METAL_GET_FIELD`: mask the register, then divide by the lowest bit of the mask. */
  function GetField(reg: nat, mask: nat): nat
    requires LowestBit(mask) > 0
  {
    Quotient(And(reg, mask), LowestBit(mask))
  }

  /** `__METAL_SET_FIELD`: clear the mask, then or in the value scaled by the mask's lowest bit. */
  function SetField(reg: nat, mask: nat, val: nat): nat {
    Or(AndNot(reg, mask), And(val * LowestBit(mask), mask))
  }

  // ---- single bits ----

  lemma {:induction false} BitOfZero(i: nat)
    ensures !Bit(0, i)
  {
    if i > 0 {
      BitOfZero(i - 1);
    }
  }

  lemma {:induction false} BitOfOr(a: nat, b: nat, i: nat)
    ensures Bit(Or(a, b), i) <==> Bit(a, i) || Bit(b, i)
  {
    if a == 0 {
      BitOfZero(i);
    } else if i > 0 {
      assert Or(a, b) / 2 == Or(a / 2, b / 2);
      BitOfOr(a / 2, b / 2, i - 1);
    }
  }

  lemma {:induction false} BitOfAnd(a: nat, b: nat, i: nat)
    ensures Bit(And(a, b), i) <==> Bit(a, i) && Bit(b, i)
  {
    if a == 0 {
      BitOfZero(i);
    } else if i > 0 {
      assert And(a, b) / 2 == And(a / 2, b / 2);
      BitOfAnd(a / 2, b / 2, i - 1);
    }
  }

  lemma {:induction false} BitOfAndNot(a: nat, b: nat, i: nat)
    ensures Bit(AndNot(a, b), i) <==> Bit(a, i) && !Bit(b, i)
  {
    if a == 0 {
      BitOfZero(i);
    } else if i > 0 {
      assert AndNot(a, b) / 2 == AndNot(a / 2, b / 2);
      BitOfAndNot(a / 2, b / 2, i - 1);
    }
  }

  lemma {:induction false} Extensional(a: nat, b: nat)
    requires forall i: nat :: Bit(a, i) == Bit(b, i)
    ensures a == b
    decreases a + b
  {
    assert Bit(a, 0) == Bit(b, 0);
    if a + b > 0 {
      forall i: nat ensures Bit(a / 2, i) == Bit(b / 2, i) {
        assert Bit(a, i + 1) == Bit(b, i + 1);
      }
      Extensional(a / 2, b / 2);
    }
  }

  lemma {:induction false} BitOfShr(w: nat, s: nat, i: nat)
    ensures Bit(Shr(w, s), i) == Bit(w, s + i)
  {
    if s > 0 {
      BitOfShr(w / 2, s - 1, i);
    }
  }

  lemma {:induction false} BitOfShl(w: nat, s: nat, i: nat)
    ensures Bit(Shl(w, s), i) <==> i >= s && Bit(w, i - s)
  {
    if s > 0 && i > 0 {
      assert Shl(w, s) / 2 == Shl(w, s - 1);
      BitOfShl(w, s - 1, i - 1);
    }
  }

  lemma {:induction false} BitOfLow(w: nat, n: nat, i: nat)
    ensures Bit(Low(w, n), i) <==> i < n && Bit(w, i)
  {
    if n == 0 {
      BitOfZero(i);
    } else if i > 0 {
      assert Low(w, n) / 2 == Low(w / 2, n - 1);
      BitOfLow(w / 2, n - 1, i - 1);
    }
  }

  lemma {:induction false} BitOfPow2(k: nat, i: nat)
    ensures Bit(Pow2(k), i) <==> i == k
  {
    if k == 0 {
      if i > 0 {
        BitOfZero(i - 1);
      }
    } else if i > 0 {
      assert Pow2(k) / 2 == Pow2(k - 1);
      BitOfPow2(k - 1, i - 1);
    }
  }

  lemma {:induction false} BitOfOnes(n: nat, i: nat)
    ensures Bit(Ones(n), i) <==> i < n
  {
    if n == 0 {
      BitOfZero(i);
    } else if i > 0 {
      assert Ones(n) / 2 == Ones(n - 1);
      BitOfOnes(n - 1, i - 1);
    }
  }

  lemma BitOfMask(low: nat, width: nat, i: nat)
    ensures Bit(Mask(low, width), i) <==> low <= i < low + width
  {
    BitOfShl(Ones(width), low, i);
    if i >= low {
      BitOfOnes(width, i - low);
    }
  }

  lemma BitOfField(w: nat, low: nat, width: nat, i: nat)
    ensures Bit(Field(w, low, width), i) <==> i < width && Bit(w, low + i)
  {
    BitOfLow(Shr(w, low), width, i);
    BitOfShr(w, low, i);
  }

  // ---- words of a given width ----

  /** A word fits in n bits exactly when truncating it to n bits changes nothing. */
  lemma {:induction false} LowFixesIffFits(w: nat, n: nat)
    ensures Low(w, n) < Pow2(n)
    ensures w < Pow2(n) <==> Low(w, n) == w
  {
    if n > 0 {
      LowFixesIffFits(w / 2, n - 1);
    }
  }

  lemma HighBitsClear(w: nat, n: nat, i: nat)
    requires w < Pow2(n) && i >= n
    ensures !Bit(w, i)
  {
    LowFixesIffFits(w, n);
    BitOfLow(w, n, i);
  }

  lemma FitsWhenHighBitsClear(w: nat, n: nat)
    requires forall i: nat :: i >= n ==> !Bit(w, i)
    ensures w < Pow2(n)
  {
    LowFixesIffFits(w, n);
    forall i: nat ensures Bit(Low(w, n), i) == Bit(w, i) {
      BitOfLow(w, n, i);
    }
    Extensional(Low(w, n), w);
  }

  lemma OrFits(a: nat, b: nat, n: nat)
    requires a < Pow2(n) && b < Pow2(n)
    ensures Or(a, b) < Pow2(n)
  {
    forall i: nat | i >= n ensures !Bit(Or(a, b), i) {
      HighBitsClear(a, n, i);
      HighBitsClear(b, n, i);
      BitOfOr(a, b, i);
    }
    FitsWhenHighBitsClear(Or(a, b), n);
  }

  lemma {:induction false} AndNotLeq(a: nat, b: nat)
    ensures AndNot(a, b) <= a
  {
    if a > 0 {
      AndNotLeq(a / 2, b / 2);
    }
  }

  lemma {:induction false} Pow2Grows(m: nat, n: nat)
    requires m <= n
    ensures Pow2(m) <= Pow2(n)
    decreases n
  {
    if m < n {
      Pow2Grows(m, n - 1);
    }
  }

  /** Or-ing a value in above the bits already used is addition. */
  lemma {:induction false} OrAbove(lo: nat, hi: nat, n: nat)
    requires lo < Pow2(n)
    ensures Or(lo, Shl(hi, n)) == lo + Shl(hi, n)
  {
    if lo > 0 && n > 0 {
      OrAbove(lo / 2, hi, n - 1);
    }
  }

  /** Splitting a word at bit n and adding the two halves back. */
  lemma {:induction false} SplitAt(w: nat, n: nat)
    ensures w == Low(w, n) + Shl(Shr(w, n), n)
  {
    if n > 0 {
      SplitAt(w / 2, n - 1);
      ShlEven(Shr(w / 2, n - 1), n);
    }
  }

  lemma ShlEven(w: nat, n: nat)
    requires n > 0
    ensures Shl(w, n) == 2 * Shl(w, n - 1)
  {
  }

  lemma {:induction false} ShlIsProduct(w: nat, s: nat)
    ensures Shl(w, s) == w * Pow2(s)
  {
    if s > 0 {
      ShlIsProduct(w, s - 1);
      DoubleOut(w, Pow2(s - 1));
    }
  }

  lemma DoubleOut(a: nat, b: nat)
    ensures a * (2 * b) == 2 * (a * b)
  {
  }

  // ---- fields ----

  lemma WriteFieldBit(w: nat, low: nat, width: nat, v: nat, i: nat)
    ensures Bit(WriteField(w, low, width, v), i)
         == if low <= i < low + width then Bit(v, i - low) else Bit(w, i)
  {
    var m := Mask(low, width);
    BitOfOr(AndNot(w, m), And(Shl(v, low), m), i);
    BitOfAndNot(w, m, i);
    BitOfAnd(Shl(v, low), m, i);
    BitOfMask(low, width, i);
    BitOfShl(v, low, i);
  }

  /** Clearing a field and or-ing in a value that fits is a write of that value. */
  lemma ClearThenOr(w: nat, low: nat, width: nat, v: nat)
    requires v < Pow2(width)
    ensures Or(AndNot(w, Mask(low, width)), Shl(v, low)) == WriteField(w, low, width, v)
  {
    var x, m := Shl(v, low), Mask(low, width);
    forall i: nat ensures Bit(And(x, m), i) == Bit(x, i) {
      BitOfAnd(x, m, i);
      BitOfShl(v, low, i);
      BitOfMask(low, width, i);
      if i >= low + width {
        HighBitsClear(v, width, i - low);
      }
    }
    Extensional(And(x, m), x);
  }

  /** A written field reads back the value, truncated to the field. */
  lemma WriteThenRead(w: nat, low: nat, width: nat, v: nat)
    ensures Field(WriteField(w, low, width, v), low, width) == Low(v, width)
  {
    var w' := WriteField(w, low, width, v);
    forall i: nat ensures Bit(Field(w', low, width), i) == Bit(Low(v, width), i) {
      BitOfField(w', low, width, i);
      BitOfLow(v, width, i);
      WriteFieldBit(w, low, width, v, low + i);
    }
    Extensional(Field(w', low, width), Low(v, width));
  }

  /** Writing one field leaves every disjoint field as it was. */
  lemma WriteKeepsOthers(w: nat, low: nat, width: nat, v: nat, low': nat, width': nat)
    requires low + width <= low' || low' + width' <= low
    ensures Field(WriteField(w, low, width, v), low', width') == Field(w, low', width')
  {
    var w' := WriteField(w, low, width, v);
    forall i: nat ensures Bit(Field(w', low', width'), i) == Bit(Field(w, low', width'), i) {
      BitOfField(w', low', width', i);
      BitOfField(w, low', width', i);
      WriteFieldBit(w, low, width, v, low' + i);
    }
    Extensional(Field(w', low', width'), Field(w, low', width'));
  }

  /** `|= mask` fills a field with ones, and `&= ~mask` empties it. */
  lemma SetAndClear(w: nat, low: nat, width: nat)
    ensures Field(Or(w, Mask(low, width)), low, width) == Ones(width)
    ensures Field(AndNot(w, Mask(low, width)), low, width) == 0
  {
    var m := Mask(low, width);
    forall i: nat ensures Bit(Field(Or(w, m), low, width), i) == Bit(Ones(width), i) {
      BitOfField(Or(w, m), low, width, i);
      BitOfOr(w, m, low + i);
      BitOfMask(low, width, low + i);
      BitOfOnes(width, i);
    }
    Extensional(Field(Or(w, m), low, width), Ones(width));
    forall i: nat ensures Bit(Field(AndNot(w, m), low, width), i) == Bit(0, i) {
      BitOfField(AndNot(w, m), low, width, i);
      BitOfAndNot(w, m, low + i);
      BitOfMask(low, width, low + i);
      BitOfZero(i);
    }
    Extensional(Field(AndNot(w, m), low, width), 0);
  }

  lemma SetAndClearKeepOthers(w: nat, low: nat, width: nat, low': nat, width': nat)
    requires low + width <= low' || low' + width' <= low
    ensures Field(Or(w, Mask(low, width)), low', width') == Field(w, low', width')
    ensures Field(AndNot(w, Mask(low, width)), low', width') == Field(w, low', width')
  {
    var m := Mask(low, width);
    forall i: nat
      ensures Bit(Field(Or(w, m), low', width'), i) == Bit(Field(w, low', width'), i)
           == Bit(Field(AndNot(w, m), low', width'), i)
    {
      BitOfField(Or(w, m), low', width', i);
      BitOfField(AndNot(w, m), low', width', i);
      BitOfField(w, low', width', i);
      BitOfOr(w, m, low' + i);
      BitOfAndNot(w, m, low' + i);
      BitOfMask(low, width, low' + i);
    }
    Extensional(Field(Or(w, m), low', width'), Field(w, low', width'));
    Extensional(Field(AndNot(w, m), low', width'), Field(w, low', width'));
  }

  lemma MaskLowestBit(low: nat, width: nat)
    requires width > 0
    ensures LowestBit(Mask(low, width)) == Pow2(low)
  {
    var m := Mask(low, width);
    forall i: nat ensures Bit(LowestBit(m), i) == Bit(Pow2(low), i) {
      BitOfAndNot(m, Shl(m, 1), i);
      BitOfMask(low, width, i);
      BitOfPow2(low, i);
      BitOfShl(m, 1, i);
      if i > 0 {
        BitOfMask(low, width, i - 1);
      }
    }
    Extensional(LowestBit(m), Pow2(low));
  }

  /** On a contiguous mask, `__METAL_GET_FIELD` reads exactly the masked field. */
  lemma GetFieldReads(reg: nat, low: nat, width: nat)
    requires width > 0
    ensures LowestBit(Mask(low, width)) > 0
    ensures GetField(reg, Mask(low, width)) == Field(reg, low, width)
  {
    MaskLowestBit(low, width);
    var m := Mask(low, width);
    var f := Field(reg, low, width);
    forall i: nat ensures Bit(And(reg, m), i) == Bit(Shl(f, low), i) {
      BitOfAnd(reg, m, i);
      BitOfMask(low, width, i);
      BitOfShl(f, low, i);
      if i >= low {
        BitOfField(reg, low, width, i - low);
      }
    }
    Extensional(And(reg, m), Shl(f, low));
    ShlIsProduct(f, low);
    QuotientUnique(And(reg, m), Pow2(low), f, 0);
  }

  /** `__METAL_SET_FIELD` then `__METAL_GET_FIELD` is the value cut to the mask's width. */
  lemma SetThenGet(reg: nat, low: nat, width: nat, val: nat)
    requires width > 0
    ensures LowestBit(Mask(low, width)) > 0
    ensures GetField(SetField(reg, Mask(low, width), val), Mask(low, width)) == Low(val, width)
  {
    MaskLowestBit(low, width);
    ShlIsProduct(val, low);
    GetFieldReads(SetField(reg, Mask(low, width), val), low, width);
    WriteThenRead(reg, low, width, val);
  }

  // ---- shifts and truncation as division ----

  lemma QuotientUnique(w: int, d: int, q: int, r: int)
    requires 0 <= r < d && w == q * d + r
    ensures w / d == q && w % d == r
  {
    var e := w / d - q;
    assert w == (w / d) * d + w % d;
    assert e * d == r - w % d by {
      assert e * d == (w / d) * d - q * d;
    }
    ProductSize(e, d);
  }

  lemma ProductSize(e: int, d: int)
    requires d > 0
    ensures e >= 1 ==> e * d >= d
    ensures e <= -1 ==> e * d <= -d
  {
    if e >= 1 {
      assert e * d == (e - 1) * d + d;
    } else if e <= -1 {
      assert e * d == (e + 1) * d - d;
    }
  }

  /** Shifting right divides and truncating takes the remainder. */
  lemma ShrIsQuotient(w: nat, s: nat)
    ensures Shr(w, s) == w / Pow2(s)
    ensures Low(w, s) == w % Pow2(s)
  {
    SplitAt(w, s);
    LowFixesIffFits(w, s);
    ShlIsProduct(Shr(w, s), s);
    QuotientUnique(w, Pow2(s), Shr(w, s), Low(w, s));
  }

  // ---- masks of low bits ----

  lemma {:induction false} OnesIsPow2(k: nat)
    ensures Ones(k) == Pow2(k) - 1
  {
    if k > 0 {
      OnesIsPow2(k - 1);
    }
  }

  /** `x & (2^k - 1)` is the remainder, and `x & ~(2^k - 1)` rounds down to a multiple of 2^k. */
  lemma MaskOps(x: nat, k: nat)
    ensures And(x, Ones(k)) == Low(x, k) == x % Pow2(k)
    ensures AndNot(x, Ones(k)) == x - x % Pow2(k)
  {
    forall i: nat
      ensures Bit(And(x, Ones(k)), i) == Bit(Low(x, k), i)
      ensures Bit(AndNot(x, Ones(k)), i) == Bit(Shl(Shr(x, k), k), i)
    {
      BitOfAnd(x, Ones(k), i);
      BitOfAndNot(x, Ones(k), i);
      BitOfOnes(k, i);
      BitOfLow(x, k, i);
      BitOfShl(Shr(x, k), k, i);
      if i >= k {
        BitOfShr(x, k, i - k);
      }
    }
    Extensional(And(x, Ones(k)), Low(x, k));
    Extensional(AndNot(x, Ones(k)), Shl(Shr(x, k), k));
    SplitAt(x, k);
    ShrIsQuotient(x, k);
  }
}
