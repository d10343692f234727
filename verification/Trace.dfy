/**
 Packing characters for the trace port (metal/src/drivers/sifive_trace.c): characters gather in a
 32-bit accumulator and leave through one stimulus register in 32-, 16- and 8-bit writes.
 */
module Trace {
  import opened Bits
  import opened Bytes
  import opened Words

  const NEWLINE: Byte := 10
  const RETURN: Byte := 13

  /** A write to the stimulus register, at a byte offset within it. */
  datatype Store = Store(offset: nat, width: nat, data: nat)

  /** A write is 32, 16 or 8 bits wide and ends at the top of the register; its data fit. */
  predicate WellFormed(w: Store) {
    (w.width == 4 || w.width == 2 || w.width == 1) && w.offset + w.width == 4 && w.data < Pow2(8 * w.width)
  }

  predicate AllWellFormed(writes: seq<Store>) {
    forall i :: 0 <= i < |writes| ==> WellFormed(writes[i])
  }

  /** The characters the writes carry, lowest byte first. */
  function Carried(writes: seq<Store>): seq<Byte> {
    if writes == [] then []
    else Carried(writes[..|writes| - 1]) + BytesOf(writes[|writes| - 1].data, writes[|writes| - 1].width)
  }

  lemma CarriedNext(writes: seq<Store>, w: Store)
    ensures Carried(writes + [w]) == Carried(writes) + BytesOf(w.data, w.width)
  {
    assert (writes + [w])[..|writes|] == writes;
  }

  /** What is still in the accumulator after the next character. */
  function PendingNext(pending: seq<Byte>, c: Byte): seq<Byte> {
    if |pending| >= 3 || c == NEWLINE || c == RETURN then [] else pending + [c]
  }

  /** Where the n-th character of a word leaves: at the fourth, or at a newline or carriage return, and how. */
  predicate LeavesAs(sent: seq<Store>, n: nat, c: Byte) {
    if n == 4 then |sent| == 1 && sent[0].offset == 0 && sent[0].width == 4
    else if c != 10 && c != 13 then sent == []
    else if n == 1 then |sent| == 1 && sent[0].offset == 3 && sent[0].width == 1
    else if n == 2 then |sent| == 1 && sent[0].offset == 2 && sent[0].width == 2
    else |sent| == 2 && sent[0].offset == 2 && sent[0].width == 2 && sent[1].offset == 3 && sent[1].width == 1
  }

  /** The truncated low part of a packed value carries its first bytes. */
  lemma LowPart(all: seq<Byte>, n: nat)
    requires n <= |all|
    ensures Low(Value(all), 8 * n) < Pow2(8 * n) && BytesOf(Low(Value(all), 8 * n), n) == all[..n]
  {
    SplitValue(all, n);
    ValueFits(all[..n]);
    LoadThenStore(all[..n]);
  }

  /** So does the part above it. */
  lemma HighPart(all: seq<Byte>, n: nat, m: nat)
    requires n + m == |all|
    ensures Low(Shr(Value(all), 8 * n), 8 * m) < Pow2(8 * m)
    ensures BytesOf(Low(Shr(Value(all), 8 * n), 8 * m), m) == all[n..]
  {
    SplitValue(all, n);
    LowPart(all[n..], m);
    assert all[n..][..m] == all[n..];
  }

  lemma Concat3(before: seq<Byte>, all: seq<Byte>)
    requires |all| == 3
    ensures before + all[..2] + all[2..] == before + all
  {
  }

  lemma Snoc(before: seq<Byte>, text: seq<Byte>, i: nat)
    requires i < |text|
    ensures before + text[..i] + [text[i]] == before + text[..i + 1]
  {
  }

  /**
   What the accumulator does with an int that is not a character. Its bits above the eighth are or-ed
   into the bytes that follow, so packing is right for a 32-bit value exactly when those that reach
   the accumulator are zero. With three characters pending none do.
   */
  lemma PackIff(pending: seq<Byte>, c: nat)
    requires |pending| <= 3
    ensures var n := 8 * |pending|;
            Low(Or(Value(pending), Shl(c, n)), 32) == Or(Value(pending), Shl(Low(c, 8), n))
            <==> Low(c, 32 - n) == Low(c, 8)
  {
    var v, n := Value(pending), 8 * |pending|;
    var a, b := Low(Or(v, Shl(c, n)), 32), Or(v, Shl(Low(c, 8), n));
    forall i: nat
      ensures Bit(a, n + i) == (n + i < 32 && Bit(c, i)) == Bit(Low(c, 32 - n), i)
      ensures Bit(b, n + i) == (i < 8 && Bit(c, i)) == Bit(Low(c, 8), i)
    {
      PackBits(pending, c, n + i);
      BitOfLow(c, 32 - n, i);
      BitOfLow(c, 8, i);
    }
    if a == b {
      Extensional(Low(c, 32 - n), Low(c, 8));
    }
    if Low(c, 32 - n) == Low(c, 8) {
      forall i: nat ensures Bit(a, i) == Bit(b, i) {
        PackBits(pending, c, i);
        if i >= n {
          BitOfLow(c, 32 - n, i - n);
          BitOfLow(c, 8, i - n);
        }
      }
      Extensional(a, b);
    }
  }

  lemma PackBits(pending: seq<Byte>, c: nat, i: nat)
    requires |pending| <= 3
    ensures var v, n := Value(pending), 8 * |pending|;
            && Bit(Low(Or(v, Shl(c, n)), 32), i) == (i < 32 && if i < n then Bit(v, i) else Bit(c, i - n))
            && Bit(Or(v, Shl(Low(c, 8), n)), i) == if i < n then Bit(v, i) else i - n < 8 && Bit(c, i - n)
  {
    var v, n := Value(pending), 8 * |pending|;
    BitOfLow(Or(v, Shl(c, n)), 32, i);
    BitOfOr(v, Shl(c, n), i);
    BitOfOr(v, Shl(Low(c, 8), n), i);
    BitOfShl(c, n, i);
    BitOfShl(Low(c, 8), n, i);
    ValueFits(pending);
    if i >= n {
      HighBitsClear(v, n, i);
      BitOfLow(c, 8, i - n);
    }
  }

  class Port {
    var buffer: nat
    var bytesInBuffer: nat
    /** Every write so far, and the characters still in the accumulator. */
    ghost var writes: seq<Store>
    ghost var pending: seq<Byte>

    ghost predicate Valid()
      reads this
    {
      && bytesInBuffer == |pending| <= 3 && buffer == Value(pending)
      && AllWellFormed(writes)
    }

    constructor ()
      ensures Valid() && writes == [] && pending == []
    {
      buffer, bytesInBuffer, writes, pending := 0, 0, [], [];
    }

    method Emit(offset: nat, width: nat, data: nat)
      requires WellFormed(Store(offset, width, data)) && AllWellFormed(writes)
      modifies `writes
      ensures writes == old(writes) + [Store(offset, width, data)] && AllWellFormed(writes)
      ensures Carried(writes) == Carried(old(writes)) + BytesOf(data, width)
    {
      CarriedNext(writes, Store(offset, width, data));
      writes := writes + [Store(offset, width, data)];
    }

    /** The characters given so far: those the writes carry, then those still in the accumulator. */
    ghost function Given(): seq<Byte>
      reads this
    {
      Carried(writes) + pending
    }

    /** `buffer |= c << (bytes_in_buffer * 8)` */
    method Pack(c: Byte)
      requires Valid()
      modifies `buffer, `bytesInBuffer
      ensures buffer == Value(pending + [c]) && bytesInBuffer == |pending| + 1
    {
      PackAppends(pending, c);
      buffer := Or(buffer, Shl(c, bytesInBuffer * 8));
      bytesInBuffer := bytesInBuffer + 1;
    }

    /**
     `putc` for a character 0 to 255. Nothing is lost or reordered: the characters carried by the
     writes, followed by those still in the accumulator, are the characters given, in order. The
     accumulator holds at most three, and is empty after a newline or a carriage return.
     */
    method Putc(c: Byte)
      requires Valid()
      modifies this
      ensures Valid() && Given() == old(Given()) + [c]
      ensures pending == PendingNext(old(pending), c)
      ensures old(writes) <= writes && LeavesAs(writes[|old(writes)|..], |old(pending)| + 1, c)
    {
      Pack(c);
      ghost var all := pending + [c];
      if bytesInBuffer >= 4 {
        ValueFits(all);
        LoadThenStore(all);
        Emit(0, 4, buffer);
        buffer, bytesInBuffer, pending := 0, 0, [];
      } else if c == NEWLINE || c == RETURN {
        Flush(all);
        pending := [];
      } else {
        pending := all;
      }
      assert Given() == Carried(old(writes)) + all;
    }

    /** The partial write of one to three characters. */
    method Flush(ghost all: seq<Byte>)
      requires 1 <= bytesInBuffer == |all| <= 3 && buffer == Value(all) && AllWellFormed(writes)
      modifies `buffer, `bytesInBuffer, `writes
      ensures buffer == 0 && bytesInBuffer == 0 && Carried(writes) == Carried(old(writes)) + all
      ensures AllWellFormed(writes)
      ensures old(writes) <= writes && LeavesAs(writes[|old(writes)|..], |all|, 10)
    {
      match bytesInBuffer {
        case 3 => FlushThree(all);
        case 2 =>
          LowPart(all, 2);
          Emit(2, 2, Low(buffer, 16));
          assert all[..2] == all;
        case _ =>
          LowPart(all, 1);
          Emit(3, 1, Low(buffer, 8));
          assert all[..1] == all;
      }
      buffer, bytesInBuffer := 0, 0;
    }

    /** Three characters take two writes: the low half word, then the byte above it. */
    method FlushThree(ghost all: seq<Byte>)
      requires |all| == 3 && buffer == Value(all) && AllWellFormed(writes)
      modifies `writes
      ensures Carried(writes) == Carried(old(writes)) + all && AllWellFormed(writes)
      ensures old(writes) <= writes && LeavesAs(writes[|old(writes)|..], 3, 10)
    {
      LowPart(all, 2);
      HighPart(all, 2, 1);
      Emit(2, 2, Low(buffer, 16));
      Emit(3, 1, Low(Shr(buffer, 16), 8));
      Concat3(Carried(old(writes)), all);
    }

    /** A whole run of characters, from any state. */
    method PutAll(text: seq<Byte>)
      requires Valid()
      modifies this
      ensures Valid() && Given() == old(Given()) + text
      ensures text != [] && (text[|text| - 1] == NEWLINE || text[|text| - 1] == RETURN) ==>
                Carried(writes) == old(Given()) + text
    {
      ghost var before := Given();
      for i := 0 to |text|
        invariant Valid() && Given() == before + text[..i]
        invariant i > 0 && (text[i - 1] == NEWLINE || text[i - 1] == RETURN) ==> pending == []
      {
        Putc(text[i]);
        Snoc(before, text, i);
      }
      assert text[..|text|] == text;
      assert pending == [] ==> Given() == Carried(writes);
    }
  }
}
