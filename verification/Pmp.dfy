/**
 The PMP driver for 32-bit harts (metal/src/pmp.c), over the registers of `PmpRegs`.

 The driver keeps a granularity, which `metal_pmp_init` detects. It is a free number here, because
 nothing ties it to the hart before the detection has run.
 */
module Pmp {
  import opened Bits
  import opened PmpRegs
  import opened Wrappers

  // ---- granularity ----

  function TrailingOnes(w: nat): nat {
    if w % 2 == 1 then 1 + TrailingOnes(w / 2) else 0
  }

  function TrailingZeros(w: nat): nat
    requires w > 0
  {
    if w % 2 == 0 then 1 + TrailingZeros(w / 2) else 0
  }

  /** Exactly the lowest k bits are ones, and exactly the lowest k bits are zeros. */
  lemma {:induction false} TrailingOnesMeaning(w: nat)
    ensures Low(w, TrailingOnes(w)) == Ones(TrailingOnes(w)) && !Bit(w, TrailingOnes(w))
  {
    if w % 2 == 1 {
      TrailingOnesMeaning(w / 2);
    }
  }

  lemma {:induction false} TrailingZerosMeaning(w: nat)
    requires w > 0
    ensures Low(w, TrailingZeros(w)) == 0 && Bit(w, TrailingZeros(w))
  {
    if w % 2 == 0 {
      TrailingZerosMeaning(w / 2);
    }
  }

  lemma {:induction false} TrailingOnesAtLeast(w: nat, k: nat)
    ensures TrailingOnes(w) >= k <==> Low(w, k) == Ones(k)
    decreases k
  {
    if k > 0 && w % 2 == 1 {
      TrailingOnesAtLeast(w / 2, k - 1);
    } else if k > 0 {
      assert Low(w, k) % 2 == 0 && Ones(k) % 2 == 1;
    }
  }

  lemma {:induction false} TrailingZerosIs(w: nat, k: nat)
    requires Low(w, k) == 0 && Bit(w, k)
    ensures w > 0 && TrailingZeros(w) == k
    decreases k
  {
    if k > 0 {
      assert w % 2 == 0;
      TrailingZerosIs(w / 2, k - 1);
    }
  }

  /** The most ones an address may end in: with one more, the shift that scales them is 32 or more. */
  const MAX_ONES: nat := 28

  /** The most zeros likewise. */
  const MAX_ZEROS: nat := 29

  /** `_get_pmpaddr_granularity`: k trailing ones ask for 2^(k + 3) bytes, as far as an int can be shifted. */
  method PmpaddrGranularity(address: nat) returns (granularity: Option<nat>)
    ensures granularity
         == if TrailingOnes(address) <= MAX_ONES then Some(Pow2(TrailingOnes(address) + 3)) else None
  {
    var index := 0;
    while And(Shr(address, index), 1) == 1
      invariant TrailingOnes(address) == index + TrailingOnes(Shr(address, index))
      decreases TrailingOnes(address) - index
    {
      AndOne(Shr(address, index));
      ShrStep(address, index);
      index := index + 1;
    }
    AndOne(Shr(address, index));
    granularity := if index + 3 < 32 then Some(Pow2(index + 3)) else None;
  }

  /** `_get_detected_granularity`: the lowest set bit k of the address read back gives 2^(k + 2) bytes. */
  method DetectedGranularity(address: nat) returns (granularity: Option<nat>)
    ensures granularity == Detected(address)
  {
    if address == 0 {
      return Some(0xFFFF_FFFF);
    }
    var index := 0;
    while And(Shr(address, index), 1) == 0
      invariant Shr(address, index) > 0 && TrailingZeros(address) == index + TrailingZeros(Shr(address, index))
      decreases TrailingZeros(address) - index
    {
      AndOne(Shr(address, index));
      ShrStep(address, index);
      index := index + 1;
    }
    AndOne(Shr(address, index));
    granularity := if index + 2 < 32 then Some(Pow2(index + 2)) else None;
  }

  function Detected(address: nat): Option<nat> {
    if address == 0 then Some(0xFFFF_FFFF)
    else if TrailingZeros(address) <= MAX_ZEROS then Some(Pow2(TrailingZeros(address) + 2))
    else None
  }

  /**
   In terms of the address read back: zero gives the largest value, 30 zeros or more below the lowest
   set bit are undefined, and a lowest set bit k gives 2^(k + 2) bytes.
   */
  lemma DetectedIs(address: nat, k: nat)
    ensures Detected(0) == Some(0xFFFF_FFFF)
    ensures address > 0 ==> (Detected(address).None? <==> Low(address, 30) == 0)
    ensures Low(address, k) == 0 && Bit(address, k) && k < 30 ==> Detected(address) == Some(Pow2(k + 2))
  {
    if Low(address, k) == 0 && Bit(address, k) {
      TrailingZerosIs(address, k);
    }
    if address > 0 {
      TrailingZerosAtLeast(address, 30);
    }
  }

  lemma {:induction false} TrailingZerosAtLeast(w: nat, k: nat)
    requires w > 0
    ensures TrailingZeros(w) >= k <==> Low(w, k) == 0
    decreases k
  {
    if k > 0 && w % 2 == 0 {
      TrailingZerosAtLeast(w / 2, k - 1);
    }
  }

  lemma AndOne(w: nat)
    ensures And(w, 1) == w % 2
  {
    AndZero(w / 2);
  }

  lemma {:induction false} AndZero(w: nat)
    ensures And(w, 0) == 0
  {
    if w > 0 {
      AndZero(w / 2);
    }
  }

  lemma {:induction false} ShrStep(w: nat, n: nat)
    ensures Shr(w, n + 1) == Shr(w, n) / 2
  {
    if n > 0 {
      ShrStep(w / 2, n - 1);
    }
  }

  // ---- setting a region ----

  /** A return code, or the end of what C defines: a shift by 32 or more. */
  datatype Code = Code(rc: nat) | Undefined

  const OK := Code(0)

  /**
   `metal_pmp_get_region`. Region 16 passes the range check but has no registers: no byte is read
   and the address stays as it was.
   */
  function ReadRegion(s: Csrs, r: nat, stale: nat): (Config, nat)
    requires s.Valid() && r <= s.hart.regions
  {
    if r < 16 then (s.config[r], s.ReadAddr(r)) else (FromByte(0), stale)
  }

  /** `metal_pmp_set_region`: the return code and the registers. */
  function SetOutcome(s: Csrs, granularity: nat, r: nat, c: Config, a: nat, stale: nat): (Code, Csrs)
    requires s.Valid() && c.Valid()
  {
    if r > s.hart.regions then (Code(2), s)
    else if c.A == NA4 && granularity > 4 then (Code(3), s)
    else if c.A == NAPOT && TrailingOnes(a) > MAX_ONES then (Undefined, s)
    else if c.A == NAPOT && granularity > Pow2(TrailingOnes(a) + 3) then (Code(3), s)
    else if ReadRegion(s, r, stale).0.Locked() then (Code(4), s)
    else if r == 16 then (OK, s)
    else (OK, Written(s, r, c, a))
  }

  /** The two register updates of a call that is allowed to go ahead, each made only if it changes what is read. */
  function Written(s: Csrs, r: nat, c: Config, a: nat): Csrs
    requires s.Valid() && c.Valid() && r < 16
  {
    var s1 := if s.ReadAddr(r) != a then s.WriteAddr(r, a) else s;
    if s.config[r] != c then s1.SetConfig(r, c) else s1
  }

  /** A NAPOT call goes undefined exactly when the low 29 bits of its address are ones. */
  lemma UndefinedIff(s: Csrs, granularity: nat, r: nat, c: Config, a: nat, stale: nat)
    requires s.Valid() && c.Valid()
    ensures SetOutcome(s, granularity, r, c, a, stale).0 == Undefined
       <==> r <= s.hart.regions && c.A == NAPOT && Low(a, 29) == Ones(29)
  {
    TrailingOnesAtLeast(a, 29);
  }

  /**
   Which return code is given, with t trailing ones in the address: 2 for a region more than one past
   the end, 3 for a NA4 region or a NAPOT region of 2^(t + 3) bytes finer than the granularity, none for
   29 ones or more, 4 for a locked region, and 0 otherwise.
   */
  lemma CodesIff(s: Csrs, granularity: nat, r: nat, c: Config, a: nat, stale: nat)
    requires s.Valid() && c.Valid()
    ensures var (code, t) := (SetOutcome(s, granularity, r, c, a, stale).0, TrailingOnes(a));
            var fine := (c.A == 2 && granularity > 4) || (c.A == 3 && t < 29 && granularity > 8 * Pow2(t));
            var endless := c.A == 3 && t >= 29;
            var locked := r < 16 && s.config[r].L == 1;
            code == if r > s.hart.regions then Code(2) else if fine then Code(3) else if endless then Undefined
                    else if locked then Code(4) else Code(0)
  {
    EightTimes(TrailingOnes(a));
  }

  lemma EightTimes(t: nat)
    ensures Pow2(t + 3) == 8 * Pow2(t)
  {
    assert Pow2(t + 3) == 2 * Pow2(t + 2) && Pow2(t + 2) == 2 * Pow2(t + 1);
  }

  /** Region r keeps its configuration and its stored address. */
  predicate Kept(s: Csrs, s': Csrs, r: nat)
    requires s.Valid() && s'.Valid() && r < 16
  {
    s'.config[r] == s.config[r] && s'.addr[r] == s.addr[r]
  }

  /** What a successful call leaves in the registers of the region it sets. */
  predicate SetTo(s: Csrs, s': Csrs, r: nat, c: Config, a: nat)
    requires s.Valid() && s'.Valid() && r < 16
  {
    && s'.config[r] == s.hart.Legal(c)
    && s'.addr[r] == if s.ReadAddr(r) == a || s.BoundsLockedTor(r) then s.addr[r] else Low(a, s.hart.width)
  }

  lemma WrittenEffect(s: Csrs, r: nat, c: Config, a: nat, r': nat)
    requires s.Valid() && c.Valid() && r < 16 && r' < 16 && !s.config[r].Locked()
    ensures var s' := Written(s, r, c, a);
            && s'.Valid() && s'.hart == s.hart
            && (if r' == r < s.hart.regions then SetTo(s, s', r, c, a) else Kept(s, s', r'))
  {
    var s1 := if s.ReadAddr(r) != a then s.WriteAddr(r, a) else s;
    WritesValid(s, r, c, a);
    WritesValid(s1, r, c, a);
  }

  /** What a call does to every region: nothing, unless it succeeds on an implemented one, which it sets. */
  lemma SetRegionEffect(s: Csrs, granularity: nat, r: nat, c: Config, a: nat, stale: nat, r': nat)
    requires s.Valid() && c.Valid() && r' < 16
    ensures var (code, s') := SetOutcome(s, granularity, r, c, a, stale);
            && s'.Valid() && s'.hart == s.hart
            && (if code == OK && r' == r < s.hart.regions then SetTo(s, s', r, c, a) else Kept(s, s', r'))
  {
    if SetOutcome(s, granularity, r, c, a, stale).0 == OK && r < 16 {
      WrittenEffect(s, r, c, a, r');
    }
  }

  /**
   With grain 1, a region in OFF or TOR mode hides the lowest stored bit. A call that turns it to
   NAPOT mode with the address that was read writes no address, and so uncovers the bit.
   */
  predicate Uncovers(s: Csrs, r: nat, c: Config, a: nat)
    requires s.Valid() && r < 16
  {
    s.hart.grain == 1 && s.config[r].A < NA4 && c.A >= NA4 && s.ReadAddr(r) == a && s.addr[r] != a
  }

  /** When a successful call is read back exactly, from the state and the arguments before the call. */
  predicate WillReadBack(s: Csrs, r: nat, c: Config, a: nat, stale: nat)
    requires s.Valid()
  {
    if r >= s.hart.regions then c == ZERO_CONFIG && a == (if r < 16 then 0 else stale)
    else if s.BoundsLockedTor(r) then s.hart.Supports(c) && s.hart.View(s.addr[r], c.A) == a
    else s.hart.Supports(c) && s.hart.Readable(a, c.A) && !Uncovers(s, r, c, a)
  }

  /**
   A successful call is read back exactly if and only if the hart supports the configuration, the
   address has the low bits its mode reads as and no others than the implemented ones, nothing
   hidden is uncovered, and the region exists and is not the bound of a locked TOR region. The range
   check lets one region too many through, and none of the other conditions is checked.
   */
  lemma SetReadsBackIff(s: Csrs, granularity: nat, r: nat, c: Config, a: nat, stale: nat)
    requires s.Valid() && c.Valid() && SetOutcome(s, granularity, r, c, a, stale).0 == OK
    ensures var s' := SetOutcome(s, granularity, r, c, a, stale).1;
            && s'.Valid() && s'.hart == s.hart && r <= s.hart.regions
            && (ReadRegion(s', r, stale) == (c, a) <==> WillReadBack(s, r, c, a, stale))
  {
    SetRegionEffect(s, granularity, r, c, a, stale, if r < 16 then r else 0);
    LegalIff(s.hart, c);
    if r < s.hart.regions {
      if s.ReadAddr(r) == a {
        KeptReadsIff(s.hart, s.addr[r], s.config[r].A, c.A);
      } else {
        WrittenReadsIff(s.hart, a, c.A);
      }
    } else if r < 16 {
      UnimplementedReadsZero(s, r);
      UnimplementedReadsZero(SetOutcome(s, granularity, r, c, a, stale).1, r);
    }
  }

  /**
   Once the granularity is the hart's own, the driver's checks see to NA4 and to the low ones of a
   NAPOT address. The low zeros of an OFF or TOR address, the address width, the padding and the
   reserved permission stay the caller's business.
   */
  lemma DetectedGranularityGuards(s: Csrs, r: nat, c: Config, a: nat, stale: nat)
    requires s.Valid() && c.Valid() && r < s.hart.regions && !s.BoundsLockedTor(r)
    requires SetOutcome(s, s.hart.Granularity(), r, c, a, stale).0 == OK
    ensures WillReadBack(s, r, c, a, stale)
       <==> && c.pad == 0 && (c.W == 1 && c.R == 0 ==> s.hart.writeOnly)
            && a < Pow2(s.hart.width) && (c.A < NA4 ==> Low(a, s.hart.grain) == 0)
            && !Uncovers(s, r, c, a)
  {
    var g := s.hart.grain;
    assert Pow2(3) == 8;
    if g >= 1 {
      Pow2Grows(3, g + 2);
    }
    if c.A == NAPOT && g >= 2 {
      var t := TrailingOnes(a);
      if t + 1 < g {
        PowersGrow(t + 3, g + 2);
      }
      TrailingOnesAtLeast(a, g - 1);
    }
  }

  lemma PowersGrow(m: nat, n: nat)
    requires m < n
    ensures Pow2(m) < Pow2(n)
  {
    Pow2Grows(m + 1, n);
    assert Pow2(m + 1) == 2 * Pow2(m);
  }

  // ---- registers on which a call does not read back ----

  /** A hart with one region, at rest. */
  function Fresh(grain: nat, width: nat): Csrs {
    Csrs(Hart(1, grain, width, OFF, false), seq(16, i => ZERO_CONFIG), seq(16, i => 0))
  }

  /** The call the driver makes to detect the granularity: all ones are written, and other bits are read. */
  lemma AllOnesDoesNotReadBack(grain: nat, stale: nat)
    requires 1 <= grain <= 32
    ensures Fresh(grain, 32).Valid()
    ensures SetOutcome(Fresh(grain, 32), 0, 0, ZERO_CONFIG, 0xFFFF_FFFF, stale).0 == OK
    ensures !WillReadBack(Fresh(grain, 32), 0, ZERO_CONFIG, 0xFFFF_FFFF, stale)
  {
    LegalIff(Fresh(grain, 32).hart, ZERO_CONFIG);
    LowBitOf(0xFFFF_FFFF, grain);
  }

  /**
   With grain 1: address 9 is set while the region is off, and reads as 8. The region is then set to
   NAPOT mode at address 8, eight bytes. The call succeeds, and the register reads 9, sixteen bytes.
   */
  lemma HiddenBitIsUncovered(stale: nat)
    ensures var napot := Config(1, 0, 0, NAPOT, 0, 0);
            var s0 := Fresh(1, 32);
            var g := s0.hart.Granularity();
            && s0.Valid()
            && var (code1, s1) := SetOutcome(s0, g, 0, ZERO_CONFIG, 9, stale);
            && code1 == OK && s1.Valid() && s1.ReadAddr(0) == 8
            && var (code2, s2) := SetOutcome(s1, g, 0, napot, 8, stale);
            && code2 == OK && s2.Valid() && s2.ReadAddr(0) == 9 && Uncovers(s1, 0, napot, 8)
  {
    var napot, s0 := Config(1, 0, 0, NAPOT, 0, 0), Fresh(1, 32);
    LegalIff(s0.hart, ZERO_CONFIG);
    NineAndEight();
    ViewZero(s0.hart, OFF);
    SetRegionEffect(s0, 8, 0, ZERO_CONFIG, 9, stale, 0);
    var s1 := SetOutcome(s0, 8, 0, ZERO_CONFIG, 9, stale).1;
    assert s1.addr[0] == 9 && s1.config[0] == ZERO_CONFIG;
    SetRegionEffect(s1, 8, 0, napot, 8, stale, 0);
  }

  lemma NineAndEight()
    ensures Low(9, 32) == 9 && AndNot(9, Ones(1)) == 8 && Pow2(3) == 8 && TrailingOnes(8) == 0
  {
    assert Pow2(1) == 2 && Pow2(2) == 4 && Pow2(3) == 8 && Pow2(4) == 16;
    Pow2Grows(4, 32);
    LowFixesIffFits(9, 32);
    MaskOps(9, 1);
  }

  lemma ViewZero(h: Hart, mode: nat)
    requires mode < NA4
    ensures h.View(0, mode) == 0
  {
  }

  // ---- runs ----

  /** The public calls; the setters read the region, change one member and set it again. */
  datatype Op =
    | Set(r: nat, c: Config, a: nat)
    | Lock(r: nat)
    | SetAddress(r: nat, a: nat)
    | SetMode(r: nat, mode: nat)
    | SetExecutable(r: nat, flag: nat)
    | SetWriteable(r: nat, flag: nat)
    | SetReadable(r: nat, flag: nat)
  {
    predicate Valid() {
      (Set? ==> c.Valid()) && (SetMode? ==> mode < 4)
    }

    /** The member change a setter makes to the configuration it read. */
    function Change(c: Config): Config {
      match this
      case Lock(_) => c.(L := 1)
      case SetMode(_, m) => c.(A := m)
      case SetExecutable(_, x) => c.(X := x % 2)
      case SetWriteable(_, w) => c.(W := w % 2)
      case SetReadable(_, r) => c.(R := r % 2)
      case _ => c
    }
  }

  /** The granularity in force and the leftover stack word a call may pick up. */
  datatype Context = Context(granularity: nat, stale: nat)

  function Apply(s: Csrs, op: Op, ctx: Context): (Code, Csrs)
    requires s.Valid() && op.Valid()
  {
    if op.Set? then SetOutcome(s, ctx.granularity, op.r, op.c, op.a, ctx.stale)
    else if op.r > s.hart.regions then (Code(2), s)
    else
      var (c, a) := ReadRegion(s, op.r, ctx.stale);
      ReadValid(s, op.r, ctx.stale);
      if op.Lock? && c.Locked() then (OK, s)
      else SetOutcome(s, ctx.granularity, op.r, op.Change(c), if op.SetAddress? then op.a else a, ctx.stale)
  }

  lemma ReadValid(s: Csrs, r: nat, stale: nat)
    requires s.Valid() && r <= s.hart.regions
    ensures ReadRegion(s, r, stale).0.Valid()
  {
    if r == 16 {
      ConfigOfByte(0);
    }
  }

  /** A call keeps the registers well formed, and leaves a locked region alone, whichever region it names. */
  lemma ApplyKeepsLocked(s: Csrs, op: Op, ctx: Context, r: nat)
    requires s.Valid() && op.Valid() && r < 16
    ensures var s' := Apply(s, op, ctx).1;
            s'.Valid() && s'.hart == s.hart && (s.config[r].Locked() ==> Kept(s, s', r))
  {
    if op.Set? {
      SetRegionEffect(s, ctx.granularity, op.r, op.c, op.a, ctx.stale, r);
    } else if op.r <= s.hart.regions {
      var (c, a) := ReadRegion(s, op.r, ctx.stale);
      ReadValid(s, op.r, ctx.stale);
      SetRegionEffect(s, ctx.granularity, op.r, op.Change(c), if op.SetAddress? then op.a else a, ctx.stale, r);
    }
  }

  /** The loop of `metal_pmp_init`: the first n regions are set off at address zero. */
  function InitLoop(s: Csrs, n: nat, ctx: Context): (s': Csrs)
    requires s.Valid() && n <= 16
    ensures s'.Valid() && s'.hart == s.hart
  {
    if n == 0 then s
    else
      var before := InitLoop(s, n - 1, ctx);
      ApplyKeepsLocked(before, Set(n - 1, ZERO_CONFIG, 0), ctx, 0);
      Apply(before, Set(n - 1, ZERO_CONFIG, 0), ctx).1
  }

  /** The rest of `metal_pmp_init`: write all ones, read back, take the granularity from it, write zero. */
  function Detection(s: Csrs, ctx: Context): (bool, nat, Csrs)
    requires s.Valid()
  {
    var (code, t) := Apply(s, SetAddress(0, 0xFFFF_FFFF), ctx);
    ApplyKeepsLocked(s, SetAddress(0, 0xFFFF_FFFF), ctx, 0);
    if code != OK then (code != Undefined, ctx.granularity, t)
    else
      match Detected(t.ReadAddr(0))
      case None => (false, ctx.granularity, t)
      case Some(g) => (true, g, Apply(t, SetAddress(0, 0), Context(g, ctx.stale)).1)
  }

  /** `metal_pmp_init`: whether it ends in a defined way, the granularity in force, and the registers. */
  function InitOutcome(s: Csrs, ctx: Context): (bool, nat, Csrs)
    requires s.Valid()
  {
    Detection(InitLoop(s, s.hart.regions, ctx), ctx)
  }

  lemma {:induction false} InitLoopKeepsLocked(s: Csrs, n: nat, ctx: Context, r: nat)
    requires s.Valid() && n <= 16 && r < 16 && s.config[r].Locked()
    ensures Kept(s, InitLoop(s, n, ctx), r)
  {
    if n > 0 {
      InitLoopKeepsLocked(s, n - 1, ctx, r);
      ApplyKeepsLocked(InitLoop(s, n - 1, ctx), Set(n - 1, ZERO_CONFIG, 0), ctx, r);
    }
  }

  lemma DetectionKeepsLocked(s: Csrs, ctx: Context, r: nat)
    requires s.Valid() && r < 16
    ensures var s' := Detection(s, ctx).2;
            s'.Valid() && s'.hart == s.hart && (s.config[r].Locked() ==> Kept(s, s', r))
  {
    var t := Apply(s, SetAddress(0, 0xFFFF_FFFF), ctx).1;
    ApplyKeepsLocked(s, SetAddress(0, 0xFFFF_FFFF), ctx, r);
    var g := Detected(t.ReadAddr(0));
    if g.Some? {
      ApplyKeepsLocked(t, SetAddress(0, 0), Context(g.value, ctx.stale), r);
    }
  }

  /** One entry of a run: a call on a region, or the initialisation. */
  datatype Step = Call(op: Op, ctx: Context) | Init(ctx: Context) {
    predicate Valid() {
      Call? ==> op.Valid()
    }
  }

  /** Whether the step ends in a defined way, and the registers after it. */
  function Take(s: Csrs, step: Step): (bool, Csrs)
    requires s.Valid() && step.Valid()
  {
    match step
    case Call(op, ctx) => var (code, s') := Apply(s, op, ctx); (code != Undefined, s')
    case Init(ctx) => var (defined, _, s') := InitOutcome(s, ctx); (defined, s')
  }

  /** A step keeps the registers well formed, and leaves a locked region alone. */
  lemma TakeKeepsLocked(s: Csrs, step: Step, r: nat)
    requires s.Valid() && step.Valid() && r < 16
    ensures var s' := Take(s, step).1;
            s'.Valid() && s'.hart == s.hart && (s.config[r].Locked() ==> Kept(s, s', r))
  {
    match step
    case Call(op, ctx) => ApplyKeepsLocked(s, op, ctx, r);
    case Init(ctx) =>
      DetectionKeepsLocked(InitLoop(s, s.hart.regions, ctx), ctx, r);
      if s.config[r].Locked() {
        InitLoopKeepsLocked(s, s.hart.regions, ctx, r);
      }
  }

  /** Every step of the run is well formed and defined in the state it happens in. */
  predicate DefinedRun(s: Csrs, run: seq<Step>)
    requires s.Valid()
    decreases |run|
  {
    run == [] ||
    (&& run[0].Valid() && Take(s, run[0]).0
     && (TakeKeepsLocked(s, run[0], 0);
         DefinedRun(Take(s, run[0]).1, run[1..])))
  }

  function Run(s: Csrs, run: seq<Step>): (s': Csrs)
    requires s.Valid() && DefinedRun(s, run)
    ensures s'.Valid() && s'.hart == s.hart
    decreases |run|
  {
    if run == [] then s
    else
      TakeKeepsLocked(s, run[0], 0);
      Run(Take(s, run[0]).1, run[1..])
  }

  /**
   Over any run of calls and initialisations, a region seen locked keeps its configuration and address
   from then on, as stored and as read.
   */
  lemma {:induction false} LockedForever(s: Csrs, run: seq<Step>, r: nat)
    requires s.Valid() && DefinedRun(s, run) && r < 16 && s.config[r].Locked()
    ensures Kept(s, Run(s, run), r) && Run(s, run).ReadAddr(r) == s.ReadAddr(r)
    decreases |run|
  {
    if run != [] {
      TakeKeepsLocked(s, run[0], r);
      LockedForever(Take(s, run[0]).1, run[1..], r);
    }
  }

  /**
   A successful setter on an implemented region stores its one changed member, as far as the hart
   supports it, and changes no other register.
   */
  lemma SetterChangesOneMember(s: Csrs, op: Op, ctx: Context, r': nat)
    requires s.Valid() && op.Valid() && !op.Set? && !op.SetAddress? && op.r < s.hart.regions && r' < 16
    requires Apply(s, op, ctx).0 == OK
    ensures var s' := Apply(s, op, ctx).1;
            && s'.Valid() && s'.addr == s.addr
            && (r' != op.r ==> s'.config[r'] == s.config[r'])
            && s'.config[op.r] == s.hart.Legal(op.Change(s.config[op.r]))
            && (s'.config[op.r] == op.Change(s.config[op.r]) <==> s.hart.Supports(op.Change(s.config[op.r])))
  {
    var c, a := s.config[op.r], s.ReadAddr(op.r);
    SetRegionEffect(s, ctx.granularity, op.r, op.Change(c), a, ctx.stale, r');
    SetRegionEffect(s, ctx.granularity, op.r, op.Change(c), a, ctx.stale, op.r);
    LegalIff(s.hart, op.Change(c));
    LegalIff(s.hart, c);
  }

  /** What the region's configuration holds after each setter, member by member. */
  predicate SetterLeaves(h: Hart, op: Op, c: Config, c': Config) {
    match op
    case Lock(_) => c'.L == 1 && c'.R == c.R && c'.W == c.W && c'.X == c.X && c'.A == c.A && c'.pad == c.pad
    case SetMode(_, m) =>
      && (h.Supports(c.(A := m)) ==> c'.A == m)
      && c'.R == c.R && c'.W == c.W && c'.X == c.X && c'.L == c.L && c'.pad == c.pad
    case SetExecutable(_, x) =>
      c'.X == x % 2 && c'.R == c.R && c'.W == c.W && c'.A == c.A && c'.L == c.L && c'.pad == c.pad
    case SetWriteable(_, w) =>
      && (h.Supports(c.(W := w % 2)) ==> c'.W == w % 2)
      && c'.R == c.R && c'.X == c.X && c'.A == c.A && c'.L == c.L && c'.pad == c.pad
    case SetReadable(_, r) =>
      && c'.R == r % 2 && (h.Supports(c.(R := r % 2)) ==> c'.W == c.W)
      && c'.X == c.X && c'.A == c.A && c'.L == c.L && c'.pad == c.pad
    case _ => c' == c
  }

  /** After a successful setter its own member holds the argument, and the other members what they held. */
  lemma SetterMembers(s: Csrs, op: Op, ctx: Context)
    requires s.Valid() && op.Valid() && !op.Set? && op.r < s.hart.regions && Apply(s, op, ctx).0 == OK
    ensures var s' := Apply(s, op, ctx).1;
            && s'.Valid() && SetterLeaves(s.hart, op, s.config[op.r], s'.config[op.r])
            && s'.addr[op.r] == if op.SetAddress? && op.a != s.ReadAddr(op.r) && !s.BoundsLockedTor(op.r)
                                then Low(op.a, s.hart.width) else s.addr[op.r]
  {
    var c, a := s.config[op.r], if op.SetAddress? then op.a else s.ReadAddr(op.r);
    SetRegionEffect(s, ctx.granularity, op.r, op.Change(c), a, ctx.stale, op.r);
    LegalIff(s.hart, op.Change(c));
    LegalIff(s.hart, c);
  }

  // ---- initialisation ----

  /** Region r, before and after a call to clear region n. */
  predicate ResetAt(s: Csrs, s': Csrs, n: nat, r: nat)
    requires s.Valid() && s'.Valid() && r < 16
  {
    if r != n || s.config[r].Locked() then Kept(s, s', r) else Cleared(s, s', s.BoundsLockedTor(r), r)
  }

  /** Region r of `s'`, when the initialisation loop has passed the first n regions of `s`. */
  predicate InitialisedAt(s: Csrs, s': Csrs, n: nat, r: nat)
    requires s.Valid() && s'.Valid() && r < 16
  {
    if r >= n || s.config[r].Locked() then Kept(s, s', r) else Cleared(s, s', s.BoundsLockedTor(r), r)
  }

  /** The region is off and reads address zero, except that the bound of a locked TOR region keeps its address. */
  predicate Cleared(s: Csrs, s': Csrs, bounds: bool, r: nat)
    requires s.Valid() && s'.Valid() && r < 16
  {
    s'.config[r] == ZERO_CONFIG && if bounds then s'.addr[r] == s.addr[r] else s'.ReadAddr(r) == 0
  }

  /** The loop body: clearing region n carries the loop's meaning from n to n + 1. */
  lemma InitStep(s: Csrs, before: Csrs, after: Csrs, n: nat, r: nat)
    requires s.Valid() && before.Valid() && after.Valid() && before.hart == s.hart == after.hart && n < 16 && r < 16
    requires InitialisedAt(s, before, n, r) && ResetAt(before, after, n, r)
    requires n + 1 < 16 ==> InitialisedAt(s, before, n, n + 1)
    ensures InitialisedAt(s, after, n + 1, r)
  {
  }

  /** Setting a region off at address zero makes it read as zero, whatever low bits stay stored. */
  lemma ClearReadsZero(s: Csrs, s': Csrs, r: nat)
    requires s.Valid() && s'.Valid() && s'.hart == s.hart && r < 16 && SetTo(s, s', r, ZERO_CONFIG, 0)
    ensures Cleared(s, s', s.BoundsLockedTor(r), r)
  {
    LegalIff(s.hart, ZERO_CONFIG);
    if s.ReadAddr(r) == 0 {
      KeptReadsIff(s.hart, s.addr[r], s.config[r].A, OFF);
      ZeroReadable(s.hart);
    } else {
      WrittenReadsIff(s.hart, 0, OFF);
      ZeroReadable(s.hart);
    }
  }

  lemma ZeroReadable(h: Hart)
    ensures h.Readable(0, OFF)
  {
    LowFixesIffFits(0, h.grain);
  }

  /** All ones written to an address register that is off read as ones from bit `grain` to the address width. */
  lemma AllOnesDetects(h: Hart)
    requires h.Valid() && h.grain < h.width && h.grain <= MAX_ZEROS
    ensures Detected(h.View(Low(0xFFFF_FFFF, h.width), OFF)) == Some(h.Granularity())
  {
    var stored, a := Low(0xFFFF_FFFF, h.width), h.View(Low(0xFFFF_FFFF, h.width), OFF);
    ClearOnesIff(stored, h.grain);
    AllOnesWord();
    BitOfLow(Ones(32), h.width, h.grain);
    BitOfOnes(32, h.grain);
    BitOfAndNot(stored, Ones(h.grain), h.grain);
    BitOfOnes(h.grain, h.grain);
    TrailingZerosIs(a, h.grain);
  }

  lemma AllOnesWord()
    ensures Ones(32) == 0xFFFF_FFFF
  {
    assert Ones(4) == 0xF && Ones(8) == 16 * Ones(4) + 15 && Ones(12) == 16 * Ones(8) + 15;
    assert Ones(16) == 16 * Ones(12) + 15 && Ones(20) == 16 * Ones(16) + 15 && Ones(24) == 16 * Ones(20) + 15;
    assert Ones(28) == 16 * Ones(24) + 15 && Ones(32) == 16 * Ones(28) + 15;
  }

  // ---- the driver object ----

  class Driver {
    var csrs: Csrs
    var granularity: nat

    ghost predicate Valid()
      reads this
    {
      csrs.Valid()
    }

    method GetRegion(region: nat, stale: nat) returns (rc: nat, config: Config, address: nat)
      requires Valid()
      ensures rc == if region > csrs.hart.regions then 2 else 0
      ensures rc == 0 ==> (config, address) == ReadRegion(csrs, region, stale)
    {
      if region > csrs.hart.regions {
        return 2, ZERO_CONFIG, stale;
      }
      var pmpcfg := 0;
      address := stale;
      if region < 16 {
        FieldOfWord(csrs, region);
        ByteOfConfig(csrs.config[region]);
        pmpcfg := Low(Shr(csrs.Word(region / 4), 8 * (region % 4)), 8);
        address := csrs.ReadAddr(region);
      }
      return 0, FromByte(pmpcfg), address;
    }

    /** Clear the region's byte with `csrc`, then set it with `csrs`. */
    method RewriteByte(region: nat, config: Config)
      requires Valid() && region < 16 && config.Valid()
      modifies `csrs
      ensures csrs == old(csrs).SetConfig(region, config)
    {
      ClearByte(csrs, region);
      WritesValid(csrs, region, ZERO_CONFIG, 0);
      MaskByte();
      var i, mask, pmpcfg := region / 4, Shl(0xFF, 8 * (region % 4)), Shl(config.ToByte(), 8 * (region % 4));
      csrs := csrs.WriteWord(i, AndNot(csrs.Word(i), mask));
      SetOverOff(old(csrs), csrs, region, config);
      csrs := csrs.WriteWord(i, Or(csrs.Word(i), pmpcfg));
    }

    /** `metal_pmp_set_region` */
    method SetRegion(region: nat, config: Config, address: nat, stale: nat) returns (code: Code)
      requires Valid() && config.Valid()
      modifies `csrs
      ensures Valid() && (code, csrs) == SetOutcome(old(csrs), granularity, region, config, address, stale)
    {
      SetRegionEffect(csrs, granularity, region, config, address, stale, 0);
      if region > csrs.hart.regions {
        return Code(2);
      }
      if config.A == NA4 && granularity > 4 {
        return Code(3);
      }
      if config.A == NAPOT {
        var requested := PmpaddrGranularity(address);
        if requested.None? {
          return Undefined;
        }
        if granularity > requested.value {
          return Code(3);
        }
      }
      var rc, oldConfig, oldAddress := GetRegion(region, stale);
      if oldConfig.Locked() {
        return Code(4);
      }
      if region < 16 {
        WriteRegion(region, config, address, oldConfig, oldAddress);
      }
      return OK;
    }

    /** The address first, then the configuration byte, each only if it changes what was read. */
    method WriteRegion(region: nat, config: Config, address: nat, oldConfig: Config, oldAddress: nat)
      requires Valid() && config.Valid() && region < 16
      requires oldConfig == csrs.config[region] && oldAddress == csrs.ReadAddr(region)
      modifies `csrs
      ensures csrs == Written(old(csrs), region, config, address)
    {
      WritesValid(csrs, region, config, address);
      if oldAddress != address {
        csrs := csrs.WriteAddr(region, address);
      }
      if oldConfig != config {
        RewriteByte(region, config);
      }
    }

    /** `metal_pmp_lock`: after success an implemented region is locked. */
    method LockRegion(region: nat, stale: nat) returns (code: Code)
      requires Valid()
      modifies `csrs
      ensures Valid() && (code, csrs) == Apply(old(csrs), Lock(region), Context(granularity, stale))
      ensures code == OK && region < csrs.hart.regions ==> csrs.config[region].Locked()
    {
      var rc, config, address := GetRegion(region, stale);
      if rc != 0 {
        return Code(rc);
      }
      if config.Locked() {
        return OK;
      }
      ReadValid(csrs, region, stale);
      SetRegionEffect(csrs, granularity, region, config.(L := 1), address, stale, if region < 16 then region else 0);
      code := SetRegion(region, config.(L := 1), address, stale);
    }

    /** `metal_pmp_set_address` */
    method SetAddress(region: nat, address: nat, stale: nat) returns (code: Code)
      requires Valid()
      modifies `csrs
      ensures Valid() && (code, csrs) == Apply(old(csrs), Op.SetAddress(region, address), Context(granularity, stale))
    {
      var rc, config, oldAddress := GetRegion(region, stale);
      if rc != 0 {
        return Code(rc);
      }
      ReadValid(csrs, region, stale);
      code := SetRegion(region, config, address, stale);
    }

    /** `metal_pmp_set_address_mode` */
    method SetMode(region: nat, mode: nat, stale: nat) returns (code: Code)
      requires Valid() && mode < 4
      modifies `csrs
      ensures Valid() && (code, csrs) == Apply(old(csrs), Op.SetMode(region, mode), Context(granularity, stale))
      ensures code == OK && region < csrs.hart.regions ==>
        SetterLeaves(csrs.hart, Op.SetMode(region, mode), old(csrs).config[region], csrs.config[region])
    {
      var rc, config, address := GetRegion(region, stale);
      if rc != 0 {
        return Code(rc);
      }
      ReadValid(csrs, region, stale);
      code := SetRegion(region, config.(A := mode), address, stale);
      if code == OK && region < csrs.hart.regions {
        SetterMembers(old(csrs), Op.SetMode(region, mode), Context(granularity, stale));
      }
    }

    /** `metal_pmp_set_executable` */
    method SetExecutable(region: nat, flag: nat, stale: nat) returns (code: Code)
      requires Valid()
      modifies `csrs
      ensures Valid() && (code, csrs) == Apply(old(csrs), Op.SetExecutable(region, flag), Context(granularity, stale))
      ensures code == OK && region < csrs.hart.regions ==>
        SetterLeaves(csrs.hart, Op.SetExecutable(region, flag), old(csrs).config[region], csrs.config[region])
    {
      var rc, config, address := GetRegion(region, stale);
      if rc != 0 {
        return Code(rc);
      }
      ReadValid(csrs, region, stale);
      code := SetRegion(region, config.(X := flag % 2), address, stale);
      if code == OK && region < csrs.hart.regions {
        SetterMembers(old(csrs), Op.SetExecutable(region, flag), Context(granularity, stale));
      }
    }

    /** `metal_pmp_set_writeable` */
    method SetWriteable(region: nat, flag: nat, stale: nat) returns (code: Code)
      requires Valid()
      modifies `csrs
      ensures Valid() && (code, csrs) == Apply(old(csrs), Op.SetWriteable(region, flag), Context(granularity, stale))
      ensures code == OK && region < csrs.hart.regions ==>
        SetterLeaves(csrs.hart, Op.SetWriteable(region, flag), old(csrs).config[region], csrs.config[region])
    {
      var rc, config, address := GetRegion(region, stale);
      if rc != 0 {
        return Code(rc);
      }
      ReadValid(csrs, region, stale);
      code := SetRegion(region, config.(W := flag % 2), address, stale);
      if code == OK && region < csrs.hart.regions {
        SetterMembers(old(csrs), Op.SetWriteable(region, flag), Context(granularity, stale));
      }
    }

    /** `metal_pmp_set_readable` */
    method SetReadable(region: nat, flag: nat, stale: nat) returns (code: Code)
      requires Valid()
      modifies `csrs
      ensures Valid() && (code, csrs) == Apply(old(csrs), Op.SetReadable(region, flag), Context(granularity, stale))
      ensures code == OK && region < csrs.hart.regions ==>
        SetterLeaves(csrs.hart, Op.SetReadable(region, flag), old(csrs).config[region], csrs.config[region])
    {
      var rc, config, address := GetRegion(region, stale);
      if rc != 0 {
        return Code(rc);
      }
      ReadValid(csrs, region, stale);
      code := SetRegion(region, config.(R := flag % 2), address, stale);
      if code == OK && region < csrs.hart.regions {
        SetterMembers(old(csrs), Op.SetReadable(region, flag), Context(granularity, stale));
      }
    }

    /** Clear one region: nothing happens to a locked one, and nothing to the others. */
    method ResetRegion(i: nat, stale: nat)
      requires Valid() && i < csrs.hart.regions
      modifies `csrs
      ensures Valid() && csrs.hart == old(csrs.hart)
      ensures csrs == Apply(old(csrs), Set(i, ZERO_CONFIG, 0), Context(granularity, stale)).1
      ensures forall r: nat {:trigger ResetAt(old(csrs), csrs, i, r)} :: r < 16 ==> ResetAt(old(csrs), csrs, i, r)
    {
      ghost var s := csrs;
      SetRegionEffect(csrs, granularity, i, ZERO_CONFIG, 0, stale, i);
      var code := SetRegion(i, ZERO_CONFIG, 0, stale);
      if !s.config[i].Locked() {
        ClearReadsZero(s, csrs, i);
      }
      forall r: nat | r < 16 ensures ResetAt(s, csrs, i, r) {
        SetRegionEffect(s, granularity, i, ZERO_CONFIG, 0, stale, r);
      }
    }

    /**
     The loop of `metal_pmp_init`: every unlocked region ends off and reads address zero, except that
     the bound of a locked TOR region keeps its address, and locked regions are skipped.
     */
    method InitRegions(stale: nat)
      requires Valid()
      modifies `csrs
      ensures Valid() && csrs == InitLoop(old(csrs), csrs.hart.regions, Context(granularity, stale))
      ensures forall r: nat {:trigger InitialisedAt(old(csrs), csrs, csrs.hart.regions, r)} ::
                r < 16 ==> InitialisedAt(old(csrs), csrs, csrs.hart.regions, r)
    {
      ghost var s := csrs;
      for i := 0 to csrs.hart.regions
        invariant Valid() && csrs.hart == s.hart && csrs == InitLoop(s, i, Context(granularity, stale))
        invariant forall r: nat {:trigger InitialisedAt(s, csrs, i, r)} :: r < 16 ==> InitialisedAt(s, csrs, i, r)
      {
        ghost var before := csrs;
        ResetRegion(i, stale);
        forall r: nat {:trigger InitialisedAt(s, csrs, i + 1, r)} | r < 16
          ensures InitialisedAt(s, csrs, i + 1, r)
        {
          InitStep(s, before, csrs, i, r);
        }
      }
    }

    /**
     The detection in `metal_pmp_init`, once the loop has left region 0 off or locked: write all ones
     to its address, read it back, and write zero. A shift by 32 or more ends what is defined: with
     region 0 locked in NAPOT mode in the call that writes all ones, otherwise when the address read
     back ends in 30 or 31 zeros.
     */
    method DetectGranularity(stale: nat) returns (defined: bool)
      requires Valid() && (csrs.config[0].Locked() || csrs.config[0].A == OFF)
      modifies `csrs, `granularity
      ensures Valid() && csrs.hart == old(csrs.hart)
      ensures (defined, granularity, csrs) == Detection(old(csrs), Context(old(granularity), stale))
      ensures forall r :: 0 < r < 16 ==> Kept(old(csrs), csrs, r)
      ensures old(csrs).config[0].Locked() ==>
        defined == (csrs.config[0].A != NAPOT) && csrs == old(csrs) && granularity == old(granularity)
      ensures !old(csrs).config[0].Locked() ==> Detects(old(csrs), csrs, defined, granularity)
    {
      ghost var s := csrs;
      AllOnesSet(s, granularity, stale);
      var code := SetAddress(0, 0xFFFF_FFFF, stale);
      if code != OK {
        return code != Undefined;
      }
      ghost var t := csrs;
      var rc, config, address := GetRegion(0, 0);
      var detected := DetectedGranularity(address);
      if detected.None? {
        return false;
      }
      granularity := detected.value;
      ZeroSet(t, granularity, stale);
      code := SetAddress(0, 0, stale);
      defined := true;
    }

    /**
     `metal_pmp_init`. With region 0 unlocked and its address free, the granularity becomes the
     hart's own. With region 0 locked it stays as it was, and in NAPOT mode the call does not end in
     a defined way. With the address bounding a locked TOR region it comes from what was stored there.
     */
    method Init(stale: nat) returns (defined: bool)
      requires Valid()
      modifies `csrs, `granularity
      ensures Valid() && csrs.hart == old(csrs.hart)
      ensures (defined, granularity, csrs) == InitOutcome(old(csrs), Context(old(granularity), stale))
      ensures forall r: nat {:trigger InitialisedAt(old(csrs), csrs, csrs.hart.regions, r)} ::
                0 < r < 16 ==> InitialisedAt(old(csrs), csrs, csrs.hart.regions, r)
      ensures old(csrs).config[0].Locked() ==>
        defined == (csrs.config[0].A != NAPOT) && Kept(old(csrs), csrs, 0) && granularity == old(granularity)
      ensures FreeToDetect(old(csrs)) ==>
        defined && granularity == csrs.hart.Granularity() && csrs.config[0] == ZERO_CONFIG && csrs.ReadAddr(0) == 0
      ensures defined && !old(csrs).config[0].Locked() && old(csrs).BoundsLockedTor(0) ==>
        csrs.config[0] == ZERO_CONFIG
        && Some(granularity) == Detected(csrs.hart.View(old(csrs).addr[0], OFF))
    {
      ghost var s := csrs;
      InitRegions(stale);
      ghost var t := csrs;
      assert InitialisedAt(s, t, t.hart.regions, 0) && InitialisedAt(s, t, t.hart.regions, 1);
      defined := DetectGranularity(stale);
      forall r: nat {:trigger InitialisedAt(s, csrs, csrs.hart.regions, r)} | 0 < r < 16
        ensures InitialisedAt(s, csrs, csrs.hart.regions, r)
      {
        assert InitialisedAt(s, t, t.hart.regions, r) && Kept(t, csrs, r);
      }
      if FreeToDetect(s) {
        AllOnesDetects(t.hart);
      }
    }
  }

  /** Region 0 exists, is unlocked, bounds no locked TOR region, and shows some address bit the driver can shift by. */
  predicate FreeToDetect(s: Csrs)
    requires s.Valid()
  {
    && s.hart.regions > 0 && !s.config[0].Locked() && !s.BoundsLockedTor(0)
    && s.hart.grain < s.hart.width && s.hart.grain <= MAX_ZEROS
  }

  /** What the detection reads back from region 0 when the region is off and not locked. */
  function DetectionSees(s: Csrs): nat
    requires s.Valid()
  {
    if s.hart.regions == 0 then 0
    else if s.BoundsLockedTor(0) then s.ReadAddr(0)
    else s.hart.View(Low(0xFFFF_FFFF, s.hart.width), OFF)
  }

  /** The outcome of a detection that was not stopped by a lock. */
  predicate Detects(s: Csrs, s': Csrs, defined: bool, granularity: nat)
    requires s.Valid() && s'.Valid()
  {
    var detected := Detected(DetectionSees(s));
    && defined == detected.Some? && s'.config[0] == s.config[0]
    && (defined ==> granularity == detected.value && (!s.BoundsLockedTor(0) ==> s'.ReadAddr(0) == 0))
  }

  lemma AllOnesSet(s: Csrs, granularity: nat, stale: nat)
    requires s.Valid() && (s.config[0].Locked() || s.config[0].A == OFF)
    ensures var (code, s') := SetOutcome(s, granularity, 0, s.config[0], 0xFFFF_FFFF, stale);
            && s'.Valid() && s'.hart == s.hart && s'.config == s.config
            && (code == OK <==> !s.config[0].Locked())
            && (s.config[0].Locked() ==> s' == s && (code == Undefined <==> s.config[0].A == NAPOT))
            && (!s.config[0].Locked() ==> s'.ReadAddr(0) == DetectionSees(s))
            && forall r :: 0 < r < 16 ==> Kept(s, s', r)
  {
    SetRegionEffect(s, granularity, 0, s.config[0], 0xFFFF_FFFF, stale, 0);
    ViewReadable(s.hart, s.addr[0], OFF);
    WrittenReadsIff(s.hart, 0xFFFF_FFFF, OFF);
    AllOnesAddress();
  }

  lemma AllOnesAddress()
    ensures TrailingOnes(0xFFFF_FFFF) > MAX_ONES
  {
    AllOnesWord();
    OnesIsPow2(32);
    LowFixesIffFits(Ones(32), 32);
    TrailingOnesAtLeast(Ones(32), 32);
  }

  lemma ZeroSet(s: Csrs, granularity: nat, stale: nat)
    requires s.Valid() && s.config[0].A == OFF && !s.config[0].Locked()
    ensures var s' := SetOutcome(s, granularity, 0, s.config[0], 0, stale).1;
            && s'.Valid() && s'.hart == s.hart && s'.config == s.config
            && (!s.BoundsLockedTor(0) ==> s'.ReadAddr(0) == 0)
            && forall r :: 0 < r < 16 ==> Kept(s, s', r)
  {
    SetRegionEffect(s, granularity, 0, s.config[0], 0, stale, 0);
    ZeroReadable(s.hart);
    WrittenReadsIff(s.hart, 0, OFF);
  }

  lemma SetOverOff(s: Csrs, t: Csrs, r: nat, c: Config)
    requires s.Valid() && t.Valid() && r < 16 && c.Valid() && t == s.SetConfig(r, ZERO_CONFIG)
    ensures t.WriteWord(r / 4, Or(t.Word(r / 4), Shl(c.ToByte(), 8 * (r % 4)))) == s.SetConfig(r, c)
  {
    LegalIff(s.hart, ZERO_CONFIG);
    SetByte(t, r, c);
    assert t.SetConfig(r, c).config == s.SetConfig(r, c).config;
  }

  lemma MaskByte()
    ensures Ones(8) == 0xFF
  {
    assert Ones(4) == 0xF && Ones(8) == 16 * Ones(4) + 15;
  }

  /**
   The detected granularity is the hart's own, if and only if what region 0 reads back has its lowest
   set bit at the grain. With the address free and not all of it hidden, that is always so.
   */
  lemma DetectionIff(s: Csrs)
    requires s.Valid() && s.hart.grain <= MAX_ZEROS
    ensures Detected(DetectionSees(s)) == Some(s.hart.Granularity())
       <==> DetectionSees(s) > 0 && TrailingZeros(DetectionSees(s)) == s.hart.grain
    ensures FreeToDetect(s) ==>
              Detected(DetectionSees(s)) == Some(s.hart.Granularity())
  {
    var seen := DetectionSees(s);
    PowersDiffer(TrailingZeros(if seen > 0 then seen else 1), s.hart.grain);
    if FreeToDetect(s) {
      AllOnesDetects(s.hart);
    }
  }

  lemma PowersDiffer(m: nat, n: nat)
    ensures Pow2(m + 2) == Pow2(n + 2) <==> m == n
    ensures Pow2(n + 2) != 0xFFFF_FFFF
  {
    assert Pow2(n + 2) == 2 * Pow2(n + 1);
    if m < n {
      PowersGrow(m + 2, n + 2);
    } else if n < m {
      PowersGrow(n + 2, m + 2);
    }
  }
}
