/** Bytes and the little-endian words they make. */
module Bytes {
  import opened Bits
  import opened Words

  /** The little-endian value of the bytes. */
  function Value(bytes: seq<Byte>): nat {
    if bytes == [] then 0 else bytes[0] + 0x100 * Value(bytes[1..])
  }

  /** The n low bytes of a value, lowest first. */
  function BytesOf(v: nat, n: nat): (r: seq<Byte>)
    ensures |r| == n
  {
    if n == 0 then [] else [v % 0x100] + BytesOf(v / 0x100, n - 1)
  }

  /** A value loaded from memory and taken apart again is the bytes it was loaded from. */
  lemma {:induction false} LoadThenStore(bytes: seq<Byte>)
    ensures BytesOf(Value(bytes), |bytes|) == bytes
  {
    if bytes != [] {
      var v, rest := Value(bytes), Value(bytes[1..]);
      assert v == bytes[0] + 0x100 * rest;
      assert v % 0x100 == bytes[0] && v / 0x100 == rest;
      LoadThenStore(bytes[1..]);
    }
  }

  lemma {:induction false} ValueFits(bytes: seq<Byte>)
    ensures Value(bytes) < Pow2(8 * |bytes|)
  {
    if bytes != [] {
      ValueFits(bytes[1..]);
      EightBits(8 * (|bytes| - 1));
    }
  }

  lemma EightBits(n: nat)
    ensures Pow2(n + 8) == 0x100 * Pow2(n)
  {
    assert Pow2(n + 2) == 4 * Pow2(n) && Pow2(n + 4) == 4 * Pow2(n + 2);
    assert Pow2(n + 6) == 4 * Pow2(n + 4) && Pow2(n + 8) == 4 * Pow2(n + 6);
  }

  lemma ScaleOut(x: nat, p: nat)
    ensures x * (0x100 * p) == 0x100 * (x * p)
  {
  }

  lemma {:induction false} ValueConcat(a: seq<Byte>, b: seq<Byte>)
    ensures Value(a + b) == Value(a) + Value(b) * Pow2(8 * |a|)
  {
    if a != [] {
      ValueConcat(a[1..], b);
      assert (a + b)[1..] == a[1..] + b;
      EightBits(8 * (|a| - 1));
      ScaleOut(Value(b), Pow2(8 * (|a| - 1)));
    } else {
      assert a + b == b;
    }
  }

  /** Or-ing a byte in above the bytes already packed appends it. */
  lemma PackAppends(bytes: seq<Byte>, c: Byte)
    ensures Or(Value(bytes), Shl(c, 8 * |bytes|)) == Value(bytes + [c])
  {
    ValueFits(bytes);
    OrAbove(Value(bytes), c, 8 * |bytes|);
    ShlIsProduct(c, 8 * |bytes|);
    ValueConcat(bytes, [c]);
    assert Value([c]) == c;
  }

  /** Truncating a packed value keeps its first bytes, and shifting it keeps the others. */
  lemma SplitValue(bytes: seq<Byte>, n: nat)
    requires n <= |bytes|
    ensures Low(Value(bytes), 8 * n) == Value(bytes[..n])
    ensures Shr(Value(bytes), 8 * n) == Value(bytes[n..])
  {
    var a, b := bytes[..n], bytes[n..];
    assert a + b == bytes;
    ValueConcat(a, b);
    ValueFits(a);
    ShrIsQuotient(Value(bytes), 8 * n);
    QuotientUnique(Value(bytes), Pow2(8 * n), Value(b), Value(a));
  }
}
