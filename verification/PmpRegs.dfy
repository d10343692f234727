/**
 The PMP registers of a 32-bit hart, as section 3.6.1 of the RISC-V Privileged Architecture (version
 1.10) gives them.

 Four 8-bit region configurations share one pmpcfg word. A write keeps only what the hart supports,
 and registers of unimplemented regions read as zero. The address of a region cannot be written
 while the region, or the next one in TOR mode, is locked. The low bits of an address read as the
 grain of the hart and the mode of the region make them, whatever is stored.
 */
module PmpRegs {
  import opened Bits
  import opened Bytes
  import opened Words

  const OFF: nat := 0
  const TOR: nat := 1
  const NA4: nat := 2
  const NAPOT: nat := 3

  datatype Config = Config(R: nat, W: nat, X: nat, A: nat, pad: nat, L: nat) {
    predicate Valid() {
      R < 2 && W < 2 && X < 2 && A < 4 && pad < 4 && L < 2
    }

    /** The bit-field's byte, lowest member first. */
    function ToByte(): nat {
      R + 2 * W + 4 * X + 8 * A + 32 * pad + 128 * L
    }

    predicate Locked() {
      L == 1
    }
  }

  const ZERO_CONFIG := Config(0, 0, 0, OFF, 0, 0)

  function FromByte(b: nat): Config {
    var w := b / 2;
    var x := w / 2;
    var a := x / 2;
    var pad := a / 4;
    var l := pad / 4;
    Config(b % 2, w % 2, x % 2, a % 4, pad % 4, l % 2)
  }

  /** Configurations and bytes correspond one to one. */
  lemma ByteOfConfig(c: Config)
    requires c.Valid()
    ensures c.ToByte() < 256 && FromByte(c.ToByte()) == c
  {
    var a := c.A + 4 * (c.pad + 4 * c.L);
    Halve(c.R, c.W + 2 * (c.X + 2 * a));
    Halve(c.W, c.X + 2 * a);
    Halve(c.X, a);
    Quarter(c.A, c.pad + 4 * c.L);
    Quarter(c.pad, c.L);
  }

  lemma Halve(bit: nat, rest: nat)
    requires bit < 2
    ensures (bit + 2 * rest) % 2 == bit && (bit + 2 * rest) / 2 == rest
  {
  }

  lemma Quarter(bits: nat, rest: nat)
    requires bits < 4
    ensures (bits + 4 * rest) % 4 == bits && (bits + 4 * rest) / 4 == rest
  {
  }

  lemma ConfigOfByte(b: nat)
    requires b < 256
    ensures FromByte(b).Valid() && FromByte(b).ToByte() == b
  {
    var w := b / 2;
    var x := w / 2;
    var a := x / 2;
    var pad := a / 4;
    var l := pad / 4;
    assert b == 2 * w + b % 2;
    assert w == 2 * x + w % 2;
    assert x == 2 * a + x % 2;
    assert a == 4 * pad + a % 4;
    assert pad == 4 * l + pad % 4;
    assert l % 2 == l;
  }

  /** The members of the bit-field: R, W, X in bits 0 to 2, A in bits 3 and 4, padding, and L in bit 7. */
  lemma ByteMembers(b: nat)
    requires b < 256
    ensures FromByte(b) == Config(b % 2, b / 2 % 2, b / 4 % 2, b / 8 % 4, b / 32 % 4, b / 128)
  {
    Quotients(b, 2, 2);
    Quotients(b, 4, 2);
    Quotients(b, 8, 4);
    Quotients(b, 32, 4);
  }

  lemma Quotients(b: nat, m: nat, n: nat)
    requires (m == 2 || m == 4 || m == 8 || m == 32) && (n == 2 || n == 4)
    ensures b / m / n == b / (m * n)
  {
  }

  // ---- what a hart supports ----

  /**
   `grain` is the G of the architecture: regions are at least 2^(G + 2) bytes. `width` counts the
   implemented address bits. `na4` is the mode that a write of NA4 leaves when G >= 1 rules NA4 out,
   and `writeOnly` says whether the reserved combination of W without R is kept.
   */
  datatype Hart = Hart(regions: nat, grain: nat, width: nat, na4: nat, writeOnly: bool) {
    predicate Valid() {
      regions <= 16 && grain <= width <= 32 && (na4 == OFF || na4 == TOR || na4 == NAPOT)
    }

    /** The smallest region, in bytes. */
    function Granularity(): nat {
      Pow2(grain + 2)
    }

    /** What a configuration register keeps of a value written to it. */
    function Legal(c: Config): Config {
      c.(pad := 0, A := if c.A == NA4 && grain >= 1 then na4 else c.A, W := if c.R == 1 || writeOnly then c.W else 0)
    }

    /** The configurations that are kept as they are written. */
    predicate Supports(c: Config) {
      c.pad == 0 && (c.A == NA4 ==> grain == 0) && (c.W == 1 && c.R == 0 ==> writeOnly)
    }

    /** What reading an address register gives: low bits are ones in NAPOT mode and zeros in OFF and TOR mode. */
    function View(stored: nat, mode: nat): nat {
      if mode < NA4 then AndNot(stored, Ones(grain))
      else if grain >= 2 then Or(stored, Ones(grain - 1))
      else stored
    }

    /** The addresses that some stored value reads as, in the given mode. */
    predicate Readable(a: nat, mode: nat) {
      && a < Pow2(width)
      && (mode < NA4 ==> Low(a, grain) == 0)
      && (mode >= NA4 && grain >= 2 ==> Low(a, grain - 1) == Ones(grain - 1))
    }
  }

  lemma LegalIff(h: Hart, c: Config)
    requires h.Valid() && c.Valid()
    ensures h.Legal(c).Valid() && h.Legal(h.Legal(c)) == h.Legal(c) && h.Legal(c).L == c.L
    ensures h.Legal(c) == c <==> h.Supports(c)
  {
  }

  // ---- reading an address back ----

  lemma OrOnesIff(x: nat, m: nat)
    ensures Or(x, Ones(m)) == x <==> Low(x, m) == Ones(m)
    ensures Low(Or(x, Ones(m)), m) == Ones(m)
  {
    var y := Or(x, Ones(m));
    forall i: nat
      ensures Bit(y, i) == (Bit(x, i) || i < m) && Bit(Low(x, m), i) == (i < m && Bit(x, i))
      ensures Bit(Ones(m), i) == (i < m) == Bit(Low(y, m), i)
    {
      BitOfOr(x, Ones(m), i);
      BitOfOnes(m, i);
      BitOfLow(x, m, i);
      BitOfLow(y, m, i);
    }
    Extensional(Low(y, m), Ones(m));
    if Low(x, m) == Ones(m) {
      Extensional(y, x);
    }
  }

  lemma ClearOnesIff(x: nat, m: nat)
    ensures AndNot(x, Ones(m)) == x <==> Low(x, m) == 0
    ensures Low(AndNot(x, Ones(m)), m) == 0
  {
    MaskOps(x, m);
    var y := AndNot(x, Ones(m));
    forall i: nat ensures Bit(Low(y, m), i) == Bit(0, i) {
      BitOfLow(y, m, i);
      BitOfAndNot(x, Ones(m), i);
      BitOfOnes(m, i);
      BitOfZero(i);
    }
    Extensional(Low(y, m), 0);
  }

  /** What a register reads as is readable, and reads as itself when it is written back. */
  lemma ViewReadable(h: Hart, stored: nat, mode: nat)
    requires h.Valid() && stored < Pow2(h.width)
    ensures h.Readable(h.View(stored, mode), mode)
  {
    if mode < NA4 {
      ClearOnesIff(stored, h.grain);
      AndNotLeq(stored, Ones(h.grain));
    } else if h.grain >= 2 {
      OrOnesIff(stored, h.grain - 1);
      OnesIsPow2(h.grain - 1);
      Pow2Grows(h.grain - 1, h.width);
      OrFits(stored, Ones(h.grain - 1), h.width);
    }
  }

  /** An address that is written reads back exactly when it is readable in the region's mode. */
  lemma WrittenReadsIff(h: Hart, a: nat, mode: nat)
    requires h.Valid()
    ensures h.View(Low(a, h.width), mode) == a <==> h.Readable(a, mode)
  {
    LowFixesIffFits(a, h.width);
    ViewReadable(h, Low(a, h.width), mode);
    if h.Readable(a, mode) {
      if mode < NA4 {
        ClearOnesIff(a, h.grain);
      } else if h.grain >= 2 {
        OrOnesIff(a, h.grain - 1);
      }
    }
  }

  lemma LowBitOf(x: nat, m: nat)
    requires m >= 1
    ensures Low(x, m) % 2 == x % 2 && Ones(m) % 2 == 1
  {
  }

  /**
   An address that was read in one mode, and so is not written, reads back in another exactly when it
   is readable there, with one exception: with grain 1, leaving OFF or TOR mode uncovers a stored low
   bit that did not show before.
   */
  lemma KeptReadsIff(h: Hart, stored: nat, old_: nat, mode: nat)
    requires h.Valid() && stored < Pow2(h.width)
    ensures var a := h.View(stored, old_);
            h.View(stored, mode) == a
            <==> h.Readable(a, mode) && !(h.grain == 1 && old_ < NA4 && mode >= NA4 && stored != a)
  {
    var a := h.View(stored, old_);
    ViewReadable(h, stored, old_);
    if old_ < NA4 && mode >= NA4 {
      if h.grain == 0 {
        ClearOnesIff(stored, 0);
      } else if h.grain >= 2 {
        ReadsDiffer(stored, a, h.grain);
        LowBitOf(a, h.grain);
        LowBitOf(a, h.grain - 1);
      }
    } else if old_ >= NA4 && mode < NA4 {
      ClearOnesIff(stored, h.grain);
      if h.grain >= 2 {
        ReadsDiffer(stored, a, h.grain);
        LowBitOf(a, h.grain);
        LowBitOf(a, h.grain - 1);
      }
    }
  }

  /** With grain 2 or more the two views differ in their lowest bit. */
  lemma ReadsDiffer(stored: nat, a: nat, grain: nat)
    requires grain >= 2
    ensures Or(stored, Ones(grain - 1)) % 2 == 1 && AndNot(stored, Ones(grain)) % 2 == 0
  {
    OrOnesIff(stored, grain - 1);
    ClearOnesIff(stored, grain);
    LowBitOf(Or(stored, Ones(grain - 1)), grain - 1);
    LowBitOf(AndNot(stored, Ones(grain)), grain);
  }

  // ---- the registers ----

  datatype Csrs = Csrs(hart: Hart, config: seq<Config>, addr: seq<nat>) {
    predicate Valid() {
      && hart.Valid() && |config| == 16 && |addr| == 16
      && (forall r :: 0 <= r < 16 ==> config[r].Valid() && hart.Legal(config[r]) == config[r])
      && (forall r :: 0 <= r < 16 ==> addr[r] < Pow2(hart.width))
      && (forall r :: hart.regions <= r < 16 ==> config[r] == ZERO_CONFIG && addr[r] == 0)
    }

    function ByteAt(r: nat): (b: Byte)
      requires Valid() && r < 16
      ensures b == config[r].ToByte()
    {
      ByteOfConfig(config[r]);
      config[r].ToByte()
    }

    /** pmpcfg word i, as `csrr` reads it. */
    function Word(i: nat): nat
      requires Valid() && i < 4
    {
      Value([ByteAt(4 * i), ByteAt(4 * i + 1), ByteAt(4 * i + 2), ByteAt(4 * i + 3)])
    }

    /** `csrw`, `csrc` and `csrs` on a pmpcfg word: every byte of it is written, and keeps what is legal. */
    function WriteWord(i: nat, w: nat): Csrs
      requires Valid() && i < 4
    {
      this.(config := seq(16, r requires 0 <= r < 16 =>
        if r / 4 == i then NewConfig(r, Field(w, 8 * (r % 4), 8)) else config[r]))
    }

    function NewConfig(r: nat, byte: nat): Config {
      if r < hart.regions then hart.Legal(FromByte(byte)) else ZERO_CONFIG
    }

    /** One region's configuration, written alone. */
    function SetConfig(r: nat, c: Config): Csrs
      requires |config| == 16 && r < 16
    {
      if r < hart.regions then this.(config := config[r := hart.Legal(c)]) else this
    }

    predicate AddrLocked(r: nat)
      requires |config| == 16 && r < 16
    {
      config[r].Locked() || BoundsLockedTor(r)
    }

    /** The next region is locked in TOR mode, so this region's address is its fixed lower bound. */
    predicate BoundsLockedTor(r: nat)
      requires |config| == 16 && r < 16
    {
      r + 1 < hart.regions && r < 15 && config[r + 1].Locked() && config[r + 1].A == TOR
    }

    function ReadAddr(r: nat): nat
      requires |config| == 16 && |addr| == 16 && r < 16
    {
      hart.View(addr[r], config[r].A)
    }

    function WriteAddr(r: nat, v: nat): Csrs
      requires |config| == 16 && |addr| == 16 && r < 16
    {
      if r < hart.regions && !AddrLocked(r) then this.(addr := addr[r := Low(v, hart.width)]) else this
    }
  }

  lemma WritesValid(s: Csrs, r: nat, c: Config, v: nat)
    requires s.Valid() && r < 16 && c.Valid()
    ensures s.SetConfig(r, c).Valid() && s.WriteAddr(r, v).Valid()
  {
    LegalIff(s.hart, c);
    LowFixesIffFits(v, s.hart.width);
  }

  lemma UnimplementedReadsZero(s: Csrs, r: nat)
    requires s.Valid() && s.hart.regions <= r < 16
    ensures s.config[r] == ZERO_CONFIG && s.ReadAddr(r) == 0
  {
  }

  // ---- one byte of a packed word ----

  lemma FieldOfValue(b: seq<Byte>, j: nat)
    requires j < |b|
    ensures Field(Value(b), 8 * j, 8) == b[j]
  {
    SplitValue(b, j);
    SplitValue(b[j..], 1);
    assert b[j..][..1] == [b[j]] && Value([b[j]]) == b[j];
  }

  lemma FieldOfWord(s: Csrs, r: nat)
    requires s.Valid() && r < 16
    ensures Field(s.Word(r / 4), 8 * (r % 4), 8) == s.config[r].ToByte()
  {
    var i, j := r / 4, r % 4;
    var b := [s.ByteAt(4 * i), s.ByteAt(4 * i + 1), s.ByteAt(4 * i + 2), s.ByteAt(4 * i + 3)];
    assert b[j] == s.ByteAt(r);
    FieldOfValue(b, j);
  }

  lemma OffFieldIsZero(s: Csrs, r: nat)
    requires s.Valid() && r < 16 && s.config[r] == ZERO_CONFIG
    ensures Field(s.Word(r / 4), 8 * (r % 4), 8) == 0
  {
    FieldOfWord(s, r);
  }

  /** Or-ing a byte into an empty byte field sets that field and no other. */
  lemma OrByte(w: nat, low: nat, byte: nat, low': nat)
    requires byte < 256 && Field(w, low, 8) == 0 && (low' == low || low' + 8 <= low || low + 8 <= low')
    ensures Field(Or(w, Shl(byte, low)), low', 8) == if low' == low then byte else Field(w, low', 8)
  {
    var f := Field(Or(w, Shl(byte, low)), low', 8);
    var want := if low' == low then byte else Field(w, low', 8);
    forall i: nat ensures Bit(f, i) == Bit(want, i) {
      OrByteBit(w, low, byte, low', i);
    }
    Extensional(f, want);
  }

  lemma OrByteBit(w: nat, low: nat, byte: nat, low': nat, i: nat)
    requires byte < 256 && Field(w, low, 8) == 0 && (low' == low || low' + 8 <= low || low + 8 <= low')
    ensures Bit(Field(Or(w, Shl(byte, low)), low', 8), i)
         == if low' == low then Bit(byte, i) else Bit(Field(w, low', 8), i)
  {
    BitOfField(Or(w, Shl(byte, low)), low', 8, i);
    BitOfField(w, low', 8, i);
    BitOfField(w, low, 8, i);
    BitOfZero(i);
    BitOfOr(w, Shl(byte, low), low' + i);
    BitOfShl(byte, low, low' + i);
    EightBits(0);
    if i >= 8 {
      HighBitsClear(byte, 8, i);
    }
    if low' + i >= low + 8 {
      HighBitsClear(byte, 8, low' + i - low);
    }
  }

  lemma ClearField(w: nat, low: nat, low': nat)
    requires low' == low || low' + 8 <= low || low + 8 <= low'
    ensures Field(AndNot(w, Mask(low, 8)), low', 8) == if low' == low then 0 else Field(w, low', 8)
  {
    if low' == low {
      SetAndClear(w, low, 8);
    } else {
      SetAndClearKeepOthers(w, low, 8, low', 8);
    }
  }

  /** The byte of region k in a word, when the byte of region r is cleared, or set over zero. */
  lemma ClearByteAt(w: nat, r: nat, k: nat, own: nat)
    requires k / 4 == r / 4 && Field(w, 8 * (k % 4), 8) == own
    ensures Field(AndNot(w, Mask(8 * (r % 4), 8)), 8 * (k % 4), 8) == if k == r then 0 else own
  {
    ClearField(w, 8 * (r % 4), 8 * (k % 4));
  }

  lemma OrByteAt(w: nat, byte: nat, r: nat, k: nat, own: nat)
    requires k / 4 == r / 4 && byte < 256 && Field(w, 8 * (r % 4), 8) == 0 && Field(w, 8 * (k % 4), 8) == own
    ensures Field(Or(w, Shl(byte, 8 * (r % 4))), 8 * (k % 4), 8) == if k == r then byte else own
  {
    OrByte(w, 8 * (r % 4), byte, 8 * (k % 4));
  }

  /** Writing a region's own byte back leaves its configuration. */
  lemma KeptConfig(s: Csrs, r: nat)
    requires s.Valid() && r < 16
    ensures s.NewConfig(r, s.config[r].ToByte()) == s.config[r]
  {
    ByteOfConfig(s.config[r]);
  }

  /** The bytes of a word after one of them is replaced. */
  predicate Replaces(s: Csrs, r: nat, byte: nat, w: nat)
    requires s.Valid() && r < 16
  {
    forall k :: 0 <= k < 16 && k / 4 == r / 4 ==>
      Field(w, 8 * (k % 4), 8) == if k == r then byte else s.config[k].ToByte()
  }

  /** Writing such a word writes one region's configuration. */
  lemma WriteReplaced(s: Csrs, r: nat, c: Config, w: nat)
    requires s.Valid() && r < 16 && c.Valid() && Replaces(s, r, c.ToByte(), w)
    ensures s.WriteWord(r / 4, w) == s.SetConfig(r, c)
  {
    ByteOfConfig(c);
    var a, b := s.WriteWord(r / 4, w).config, s.SetConfig(r, c).config;
    forall k | 0 <= k < 16 ensures a[k] == b[k] {
      if k / 4 == r / 4 {
        KeptConfig(s, k);
      }
    }
    assert a == b;
  }

  /** `csrc` with the region's byte mask turns that region off and changes no other. */
  lemma ClearByte(s: Csrs, r: nat)
    requires s.Valid() && r < 16
    ensures s.WriteWord(r / 4, AndNot(s.Word(r / 4), Mask(8 * (r % 4), 8))) == s.SetConfig(r, ZERO_CONFIG)
  {
    ClearReplaces(s, r);
    WriteReplaced(s, r, ZERO_CONFIG, AndNot(s.Word(r / 4), Mask(8 * (r % 4), 8)));
  }

  lemma ClearReplaces(s: Csrs, r: nat)
    requires s.Valid() && r < 16
    ensures Replaces(s, r, 0, AndNot(s.Word(r / 4), Mask(8 * (r % 4), 8)))
  {
    var w := s.Word(r / 4);
    forall k | 0 <= k < 16 && k / 4 == r / 4
      ensures Field(AndNot(w, Mask(8 * (r % 4), 8)), 8 * (k % 4), 8) == if k == r then 0 else s.config[k].ToByte()
    {
      FieldOfWord(s, k);
      ClearByteAt(w, r, k, s.config[k].ToByte());
    }
  }

  /** `csrs` with a byte over a region that is off sets that region's configuration and no other. */
  lemma SetByte(s: Csrs, r: nat, c: Config)
    requires s.Valid() && r < 16 && c.Valid() && s.config[r] == ZERO_CONFIG
    ensures s.WriteWord(r / 4, Or(s.Word(r / 4), Shl(c.ToByte(), 8 * (r % 4)))) == s.SetConfig(r, c)
  {
    ByteOfConfig(c);
    OffFieldIsZero(s, r);
    OrReplaces(s, r, c.ToByte(), s.Word(r / 4));
    WriteReplaced(s, r, c, Or(s.Word(r / 4), Shl(c.ToByte(), 8 * (r % 4))));
  }

  lemma OrReplaces(s: Csrs, r: nat, byte: nat, w: nat)
    requires s.Valid() && r < 16 && byte < 256 && w == s.Word(r / 4) && Field(w, 8 * (r % 4), 8) == 0
    ensures Replaces(s, r, byte, Or(w, Shl(byte, 8 * (r % 4))))
  {
    forall k | 0 <= k < 16 && k / 4 == r / 4
      ensures Field(Or(w, Shl(byte, 8 * (r % 4))), 8 * (k % 4), 8) == if k == r then byte else s.config[k].ToByte()
    {
      FieldOfWord(s, k);
      OrByteAt(w, byte, r, k, s.config[k].ToByte());
    }
  }
}
