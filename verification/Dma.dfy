/**
 Feeding a buffer of any alignment through the crypto engine (tests/qemu/src/dma_aes_gcm.c).

 A buffer is cut into a part before the first DMA boundary, whole DMA blocks, and a rest. The first
 and the last go through the FIFO register in naturally aligned accesses of one to eight bytes; the
 blocks go by DMA. Memory is a sequence of bytes, and an address is an index into it.
 */
module Dma {
  import opened Bits
  import opened Bytes
  import opened Words

  const DMA_ALIGNMENT: nat := 32
  const DMA_BLOCK_SIZE: nat := 16

  /** A buffer part. The length of the main part counts blocks; base 0 is the null pointer. */
  datatype Part = Part(base: nat, len: nat)

  datatype Desc = Desc(prolog: Part, main: Part, epilog: Part)

  /** The bytes from `src` to the next DMA boundary. */
  function PrologLength(src: nat): nat {
    if src % DMA_ALIGNMENT == 0 then 0 else DMA_ALIGNMENT - src % DMA_ALIGNMENT
  }

  /** The three parts follow one another, without gap or overlap, from `src` on for `length` bytes. */
  predicate Covers(d: Desc, src: nat, length: nat) {
    && d.prolog.len + DMA_BLOCK_SIZE * d.main.len + d.epilog.len == length
    && d.main.base == src + d.prolog.len
    && (d.prolog.len > 0 ==> d.prolog.base == src)
    && (d.epilog.len > 0 ==> d.epilog.base == d.main.base + DMA_BLOCK_SIZE * d.main.len)
  }

  lemma DmaAlignment(a: nat)
    ensures And(a, DMA_ALIGNMENT - 1) == a % DMA_ALIGNMENT
  {
    assert Ones(3) == 7 && Ones(4) == 15 && Ones(5) == 31;
    assert Pow2(3) == 8 && Pow2(4) == 16 && Pow2(5) == 32;
    MaskOps(a, 5);
  }

  lemma Alignments(a: nat)
    ensures And(a, 7) == a % 8 && And(a, 3) == a % 4 && And(a, 1) == a % 2
  {
    assert Ones(1) == 1 && Ones(2) == 3 && Ones(3) == 7;
    assert Pow2(1) == 2 && Pow2(2) == 4 && Pow2(3) == 8;
    MaskOps(a, 1);
    MaskOps(a, 2);
    MaskOps(a, 3);
  }

  /**
   `_build_aes_desc`, with `size_t` counting modulo `modulus`. The blocks always start on a DMA
   boundary. The parts cover the buffer exactly when it reaches that boundary: the subtraction is
   unsigned, and a shorter buffer makes it wrap.
   */
  method BuildDesc(src: nat, length: nat, modulus: nat) returns (d: Desc)
    requires 0 < src && length < modulus && DMA_ALIGNMENT <= modulus
    ensures d.prolog.len == PrologLength(src) && d.main.base == src + d.prolog.len
    ensures d.main.base % DMA_ALIGNMENT == 0 && d.epilog.len < DMA_BLOCK_SIZE
    ensures d.epilog.base == 0 <==> d.epilog.len == 0
    ensures Covers(d, src, length) <==> length >= PrologLength(src)
    ensures length < PrologLength(src) ==> d.main.len == (modulus - (PrologLength(src) - length)) / DMA_BLOCK_SIZE
  {
    var prolog, rest := BuildProlog(src, length, modulus);
    var at := src + prolog.len;
    var main := Part(at, rest / DMA_BLOCK_SIZE);
    var mainLength := main.len * DMA_BLOCK_SIZE;
    at, rest := at + mainLength, rest - mainLength;
    d := Desc(prolog, main, if rest != 0 then Part(at, rest) else Part(0, 0));
  }

  /** The part before the first DMA boundary, and what is left of the length: the subtraction wraps. */
  method BuildProlog(src: nat, length: nat, modulus: nat) returns (prolog: Part, rest: nat)
    requires length < modulus && DMA_ALIGNMENT <= modulus
    ensures prolog == if PrologLength(src) == 0 then Part(0, 0) else Part(src, PrologLength(src))
    ensures rest == if length >= prolog.len then length - prolog.len else length + modulus - prolog.len
    ensures (src + prolog.len) % DMA_ALIGNMENT == 0
  {
    DmaAlignment(src);
    var unaligned := And(src, DMA_ALIGNMENT - 1);
    prolog, rest := Part(0, 0), length;
    if unaligned != 0 {
      prolog := Part(src, DMA_ALIGNMENT - unaligned);
      rest := if rest >= prolog.len then rest - prolog.len else rest + modulus - prolog.len;
    }
  }

  /**
   The rebalancing of the cipher descriptor: blocks the payload does not send by DMA move to the
   epilog. The parts still cover the same buffer.
   */
  method Rebalance(ciph: Desc, pld: Desc, dst: nat, length: nat) returns (d: Desc)
    requires 0 < dst && Covers(ciph, dst, length) && (ciph.epilog.base == 0 <==> ciph.epilog.len == 0)
    ensures Covers(d, dst, length) && d.prolog == ciph.prolog
    ensures d.main.len == if ciph.main.len > pld.main.len then pld.main.len else ciph.main.len
  {
    d := ciph;
    if ciph.main.len > pld.main.len {
      var count := ciph.main.len - pld.main.len;
      d := d.(main := Part(ciph.main.base, ciph.main.len - count));
      var length := count * DMA_BLOCK_SIZE;
      var base := if ciph.epilog.base == 0 then d.main.base + d.main.len * DMA_BLOCK_SIZE
                  else ciph.epilog.base - length;
      d := d.(epilog := Part(base, ciph.epilog.len + length));
    }
  }

  // ---- wide accesses ----

  datatype Access = Access(addr: nat, width: nat)

  /** The widths of the machine's loads; only a 64-bit machine has eight-byte ones. */
  predicate Natural(a: Access, wide: bool) {
    && (a.width == 1 || a.width == 2 || a.width == 4 || (a.width == 8 && wide))
    && a.addr % a.width == 0
  }

  /** No wider natural access at that address ends by `stop`. */
  ghost predicate Widest(a: Access, wide: bool, stop: nat) {
    && Natural(a, wide) && a.addr + a.width <= stop
    && forall w: nat :: Natural(Access(a.addr, w), wide) && a.addr + w <= stop ==> w <= a.width
  }

  /** Accesses that follow one another from `first` up to `end`, each the widest that ends by `stop`. */
  ghost predicate Sweep(accesses: seq<Access>, wide: bool, first: nat, end: nat, stop: nat)
    decreases |accesses|
  {
    if accesses == [] then first == end
    else
      var n := |accesses| - 1;
      var last := accesses[n];
      Widest(last, wide, stop) && last.addr + last.width == end && Sweep(accesses[..n], wide, first, last.addr, stop)
  }

  /** The memory accesses made so far, the widths of the accesses to the FIFO registers, and the DMA transfers. */
  datatype Traffic = Traffic(accesses: seq<Access>, ports: seq<nat>, transfers: seq<Part>) {
    /** Each of these accesses paired with one FIFO access of the same width. */
    ghost function After(made: seq<Access>): Traffic {
      this.(accesses := accesses + made, ports := ports + seq(|made|, i requires 0 <= i < |made| => made[i].width))
    }

    /** One access to memory, and one of the same width to a FIFO. */
    ghost function Next(a: Access): Traffic {
      this.(accesses := accesses + [a], ports := ports + [a.width])
    }
  }

  lemma SweepNext(t: Traffic, accesses: seq<Access>, wide: bool, first: nat, end: nat, width: nat, stop: nat)
    requires Sweep(accesses, wide, first, end, stop) && Widest(Access(end, width), wide, stop)
    ensures Sweep(accesses + [Access(end, width)], wide, first, end + width, stop)
    ensures t.After(accesses + [Access(end, width)]) == t.After(accesses).Next(Access(end, width))
  {
    assert (accesses + [Access(end, width)])[..|accesses|] == accesses;
  }

  /** Memory with the bytes written at address a. */
  function Write(mem: seq<Byte>, a: nat, bytes: seq<Byte>): (r: seq<Byte>)
    requires a + |bytes| <= |mem|
    ensures |r| == |mem|
  {
    mem[..a] + bytes + mem[a + |bytes|..]
  }

  lemma AppendSlices(t: seq<Byte>, mem: seq<Byte>, a: nat, b: nat, c: nat)
    requires a <= b <= c <= |mem|
    ensures (t + mem[a..b]) + mem[b..c] == t + mem[a..c]
  {
  }

  lemma WriteWrite(mem: seq<Byte>, a: nat, x: seq<Byte>, y: seq<Byte>)
    requires a + |x| + |y| <= |mem|
    ensures Write(Write(mem, a, x), a + |x|, y) == Write(mem, a, x + y)
  {
  }

  lemma PopNext(mem: seq<Byte>, dst: nat, output: seq<Byte>, done: nat, width: nat)
    requires dst + done + width <= |mem| && done + width <= |output|
    ensures Write(Write(mem, dst, output[..done]), dst + done, output[done..][..width])
         == Write(mem, dst, output[..done + width])
    ensures output[done..][width..] == output[done + width..]
  {
    WriteWrite(mem, dst, output[..done], output[done..][..width]);
    assert output[..done] + output[done..][..width] == output[..done + width];
  }

  /** The width of the next access at `a`, with `left` bytes to go. */
  method PickWidth(a: nat, left: nat, wide: bool) returns (width: nat)
    requires left > 0
    ensures Widest(Access(a, width), wide, a + left)
    ensures width == if wide && a % 8 == 0 && left >= 8 then 8
                     else if a % 4 == 0 && left >= 4 then 4 else if a % 2 == 0 && left >= 2 then 2 else 1
  {
    Alignments(a);
    if wide && And(a, 7) == 0 && left >= 8 {
      return 8;
    }
    if And(a, 3) == 0 && left >= 4 {
      return 4;
    }
    if And(a, 1) == 0 && left >= 2 {
      return 2;
    }
    width := 1;
  }

  /** Memory and output when `done` bytes have been popped to `dst`. */
  predicate Popped(mem': seq<Byte>, output': seq<Byte>, mem: seq<Byte>, output: seq<Byte>, dst: nat, done: nat)
    requires done <= |output| && dst + done <= |mem|
  {
    mem' == Write(mem, dst, output[..done]) && output' == output[done..]
  }

  lemma PoppedNext(mem: seq<Byte>, output: seq<Byte>, dst: nat, done: nat, width: nat)
    requires done + width <= |output| && dst + done + width <= |mem|
    ensures var (mem', output') := (Write(mem, dst, output[..done]), output[done..]);
            Popped(Write(mem', dst + done, output'[..width]), output'[width..], mem, output, dst, done + width)
  {
    PopNext(mem, dst, output, done, width);
  }

  /** The blocks of a described buffer start at its first boundary and are as many as fit after it. */
  lemma MainPart(d: Desc, src: nat, length: nat)
    requires Covers(d, src, length) && d.prolog.len == PrologLength(src) && d.epilog.len < 16
    ensures var first := (32 - src % 32) % 32;
            first == PrologLength(src) && d.main == Part(src + first, (length - first) / 16)
  {
    var r := src % 32;
    assert r == 0 ==> (32 - r) % 32 == 0;
  }

  class Engine {
    var mem: seq<Byte>
    /** The bytes the engine has taken in, and the bytes it has yet to hand out. */
    var taken: seq<Byte>
    var output: seq<Byte>
    ghost var traffic: Traffic

    /** One load from memory. */
    method Load(at: nat, width: nat) returns (value: nat)
      requires at + width <= |mem|
      modifies `traffic
      ensures value == Value(mem[at..at + width])
      ensures traffic == old(traffic).(accesses := old(traffic).accesses + [Access(at, width)])
    {
      value := Value(mem[at..at + width]);
      traffic := traffic.(accesses := traffic.accesses + [Access(at, width)]);
    }

    /** One store to memory. */
    method Store(at: nat, width: nat, value: nat)
      requires at + width <= |mem|
      modifies `mem, `traffic
      ensures mem == Write(old(mem), at, BytesOf(value, width))
      ensures traffic == old(traffic).(accesses := old(traffic).accesses + [Access(at, width)])
    {
      mem := Write(mem, at, BytesOf(value, width));
      traffic := traffic.(accesses := traffic.accesses + [Access(at, width)]);
    }

    /** One store to the input FIFO register: the engine takes the value's bytes, lowest first. */
    method FifoWrite(value: nat, width: nat)
      modifies `taken, `traffic
      ensures taken == old(taken) + BytesOf(value, width)
      ensures traffic == old(traffic).(ports := old(traffic).ports + [width])
    {
      taken := taken + BytesOf(value, width);
      traffic := traffic.(ports := traffic.ports + [width]);
    }

    /** One load from the output FIFO register. */
    method FifoRead(width: nat) returns (value: nat)
      requires width <= |output|
      modifies `output, `traffic
      ensures value == Value(old(output)[..width]) && output == old(output)[width..]
      ensures traffic == old(traffic).(ports := old(traffic).ports + [width])
    {
      value := Value(output[..width]);
      output := output[width..];
      traffic := traffic.(ports := traffic.ports + [width]);
    }

    /** One load from memory, fed to the input FIFO. */
    method PushAWord(at: nat, width: nat)
      requires at + width <= |mem|
      modifies `taken, `traffic
      ensures taken == old(taken) + mem[at..at + width]
      ensures traffic == old(traffic).Next(Access(at, width))
    {
      LoadThenStore(mem[at..at + width]);
      var value := Load(at, width);
      FifoWrite(value, width);
    }

    /**
     `_fifo_in_push`: the engine takes exactly the bytes of the buffer, in order. Each access to
     memory is the widest naturally aligned one that stays in the buffer, and the FIFO is written
     in the same widths. `wide` is a 64-bit machine.
     */
    method Push(src: nat, length: nat, wide: bool) returns (ghost made: seq<Access>)
      requires src + length <= |mem|
      modifies `taken, `traffic
      ensures taken == old(taken) + mem[src..src + length]
      ensures traffic == old(traffic).After(made)
      ensures Sweep(made, wide, src, src + length, src + length)
    {
      var at, left := src, length;
      made := [];
      while at < src + length
        invariant src <= at && at + left == src + length
        invariant taken == old(taken) + mem[src..at]
        invariant traffic == old(traffic).After(made)
        invariant Sweep(made, wide, src, at, src + length)
      {
        var width := PickWidth(at, left, wide);
        PushAWord(at, width);
        AppendSlices(old(taken), mem, src, at, at + width);
        SweepNext(old(traffic), made, wide, src, at, width, src + length);
        made := made + [Access(at, width)];
        at, left := at + width, left - width;
      }
    }

    /** One load from the output FIFO, stored at `at`. */
    method PopAWord(at: nat, width: nat)
      requires at + width <= |mem| && width <= |output|
      modifies `mem, `output, `traffic
      ensures mem == Write(old(mem), at, old(output)[..width]) && output == old(output)[width..]
      ensures traffic == old(traffic).Next(Access(at, width))
    {
      LoadThenStore(output[..width]);
      var value := FifoRead(width);
      Store(at, width, value);
    }

    /** One round of the loop below: the widest access. */
    method PopNextWord(at: nat, left: nat, wide: bool, ghost mem0: seq<Byte>, ghost output0: seq<Byte>, ghost dst: nat)
      returns (width: nat)
      requires dst <= at && 0 < left && at + left <= |mem0| && at - dst + left <= |output0|
      requires Popped(mem, output, mem0, output0, dst, at - dst)
      modifies `mem, `output, `traffic
      ensures width <= left && Widest(Access(at, width), wide, at + left)
      ensures Popped(mem, output, mem0, output0, dst, at + width - dst)
      ensures traffic == old(traffic).Next(Access(at, width))
    {
      width := PickWidth(at, left, wide);
      ghost var done := at - dst;
      PoppedNext(mem0, output0, dst, done, width);
      PopAWord(at, width);
    }

    /** `_fifo_out_pop`: the same, from the output FIFO into memory. */
    method Pop(dst: nat, length: nat, wide: bool) returns (ghost made: seq<Access>)
      requires dst + length <= |mem| && length <= |output|
      modifies `mem, `output, `traffic
      ensures mem == Write(old(mem), dst, old(output)[..length]) && output == old(output)[length..]
      ensures traffic == old(traffic).After(made)
      ensures Sweep(made, wide, dst, dst + length, dst + length)
    {
      var at, left := dst, length;
      made := [];
      assert Write(mem, dst, output[..0]) == mem;
      while at < dst + length
        invariant dst <= at && at + left == dst + length
        invariant Popped(mem, output, old(mem), old(output), dst, at - dst)
        invariant traffic == old(traffic).After(made)
        invariant Sweep(made, wide, dst, at, dst + length)
      {
        var width := PopNextWord(at, left, wide, old(mem), old(output), dst);
        SweepNext(old(traffic), made, wide, dst, at, width, dst + length);
        made := made + [Access(at, width)];
        at, left := at + width, left - width;
      }
    }

    /** One DMA transfer of whole blocks into the engine. */
    method TransferIn(base: nat, blocks: nat)
      requires base % 32 == 0 && base + 16 * blocks <= |mem|
      modifies `taken, `traffic
      ensures taken == old(taken) + mem[base..base + 16 * blocks]
      ensures traffic == old(traffic).(transfers := old(traffic).transfers + [Part(base, blocks)])
    {
      taken := taken + mem[base..base + 16 * blocks];
      traffic := traffic.(transfers := traffic.transfers + [Part(base, blocks)]);
    }

    /** One DMA transfer of whole blocks out of the engine. */
    method TransferOut(base: nat, blocks: nat)
      requires base % 32 == 0 && base + 16 * blocks <= |mem| && 16 * blocks <= |output|
      modifies `mem, `output, `traffic
      ensures mem == Write(old(mem), base, old(output)[..16 * blocks]) && output == old(output)[16 * blocks..]
      ensures traffic == old(traffic).(transfers := old(traffic).transfers + [Part(base, blocks)])
    {
      mem := Write(mem, base, output[..16 * blocks]);
      output := output[16 * blocks..];
      traffic := traffic.(transfers := traffic.transfers + [Part(base, blocks)]);
    }

    /** Feed a described buffer: prolog by FIFO, blocks by DMA, epilog by FIFO. */
    method Feed(d: Desc, wide: bool, ghost src: nat, ghost length: nat)
      requires Covers(d, src, length) && src + length <= |mem| && d.main.base % 32 == 0
      modifies `taken, `traffic
      ensures taken == old(taken) + mem[src..src + length]
      ensures traffic.transfers == old(traffic).transfers + [d.main]
    {
      ghost var a, b, c := d.main.base, d.main.base + DMA_BLOCK_SIZE * d.main.len, src + length;
      if d.prolog.len != 0 {
        ghost var _ := Push(d.prolog.base, d.prolog.len, wide);
      }
      assert taken == old(taken) + mem[src..a];
      AppendSlices(old(taken), mem, src, a, b);
      AppendSlices(old(taken), mem, src, b, c);
      TransferIn(d.main.base, d.main.len);
      assert taken == old(taken) + mem[src..b];
      if d.epilog.len != 0 {
        ghost var _ := Push(d.epilog.base, d.epilog.len, wide);
      }
    }

    /** The engine's output: the first blocks by DMA, the rest through the FIFO. */
    method Drain(d: Desc, blocks: nat, wide: bool, ghost dst: nat, ghost length: nat)
      requires Covers(d, dst, length) && d.prolog.len == 0 && blocks == d.main.len
      requires dst + length <= |mem| && |output| == length && dst % 32 == 0
      modifies `mem, `output, `traffic
      ensures mem == Write(old(mem), dst, old(output)) && output == []
      ensures traffic.transfers == old(traffic).transfers + [Part(dst, blocks)]
    {
      ghost var n := DMA_BLOCK_SIZE * blocks;
      TransferOut(d.main.base, blocks);
      ghost var rest := output;
      WriteWrite(old(mem), dst, old(output)[..n], rest);
      assert old(output)[..n] + rest == old(output);
      if d.epilog.len != 0 {
        assert rest[..d.epilog.len] == rest;
        ghost var _ := Pop(d.epilog.base, d.epilog.len, wide);
      } else {
        assert rest == [];
      }
    }

    /**
     The payload of one encryption, for a destination on a DMA boundary and a length in whole blocks,
     as the function asserts: the engine takes the payload in order, and its output lands in the
     destination in order, wherever the source starts. The source buffer must reach its first DMA
     boundary, which the function does not check.
     */
    method Process(src: nat, dst: nat, length: nat, modulus: nat, wide: bool, cipher: seq<Byte>)
      requires 0 < src && 0 < dst && length < modulus && DMA_ALIGNMENT <= modulus
      requires dst % DMA_ALIGNMENT == 0 && length % DMA_BLOCK_SIZE == 0 && length >= PrologLength(src)
      requires src + length <= |mem| && dst + length <= |mem| && |cipher| == length
      modifies this
      ensures taken == old(taken) + old(mem)[src..src + length]
      ensures mem == Write(old(mem), dst, cipher) && output == []
      ensures var first := (32 - src % 32) % 32;
              var blocks := (length - first) / 16;
              traffic.transfers == old(traffic).transfers + [Part(src + first, blocks), Part(dst, blocks)]
    {
      var pld := BuildDesc(src, length, modulus);
      var ciph := BuildDesc(dst, length, modulus);
      MainPart(pld, src, length);
      MainPart(ciph, dst, length);
      ciph := Rebalance(ciph, pld, dst, length);
      Feed(pld, wide, src, length);
      output := cipher;
      Drain(ciph, pld.main.len, wide, dst, length);
    }
  }

  /** The subtraction wraps for a one-byte buffer just past a boundary: the blocks run far past its end. */
  method ShortBufferOverruns() returns (d: Desc)
    ensures !Covers(d, 33, 1) && d.main.len == 0x0FFF_FFFE
  {
    d := BuildDesc(33, 1, 0x1_0000_0000);
    assert PrologLength(33) == 31;
  }
}
