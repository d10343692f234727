/**
 The PLIC driver (metal/src/drivers/riscv_plic0.c) as a refinement.

 The device is a flat memory of 32-bit words. What callers think about is three objects: the set
 of enabled (context, source) pairs, a priority per source and a threshold per context. `View`
 decodes the memory into them, and every driver call is proved to change exactly its part.
 */
module Plic {
  import opened Bits

  const CONTEXTS: nat := 15872
  const SOURCES: nat := 1024

  const PRIORITY_BASE: nat := 0
  const ENABLE_BASE: nat := 0x2000
  const ENABLE_PER_HART: nat := 0x80
  const CONTEXT_BASE: nat := 0x20_0000
  const CONTEXT_PER_HART: nat := 0x1000
  const CONTEXT_THRESHOLD: nat := 0
  const CONTEXT_CLAIM: nat := 4

  type Context = c: nat | c < CONTEXTS
  type Source = id: nat | id < SOURCES
  type Word = w: nat | w < Pow2(32)

  /** Device words by byte offset from the control base. */
  type Memory = map<nat, Word>

  function Load(m: Memory, a: nat): Word {
    if a in m then m[a] else 0
  }

  function PriorityAddr(id: Source): nat {
    PRIORITY_BASE + 4 * id
  }

  function EnableAddr(c: Context, id: Source): nat {
    ENABLE_BASE + c * ENABLE_PER_HART + id / 32 * 4
  }

  function ThresholdAddr(c: Context): nat {
    CONTEXT_BASE + c * CONTEXT_PER_HART + CONTEXT_THRESHOLD
  }

  function ClaimAddr(c: Context): nat {
    CONTEXT_BASE + c * CONTEXT_PER_HART + CONTEXT_CLAIM
  }

  predicate Enabled(m: Memory, c: Context, id: Source) {
    Bit(Load(m, EnableAddr(c, id)), id % 32)
  }

  // ---- what callers think about ----

  datatype State = State(enabled: set<(nat, nat)>, priority: map<nat, nat>, threshold: map<nat, nat>)

  function View(m: Memory): State {
    State(set c: Context, id: Source | Enabled(m, c, id) :: (c, id),
          map id: Source | id < SOURCES :: Load(m, PriorityAddr(id)),
          map c: Context | c < CONTEXTS :: Load(m, ThresholdAddr(c)))
  }

  /** One register update of the driver, addressed by context. */
  datatype Action = Enable(id: Source) | Disable(id: Source) | Threshold(level: Word)

  function EnableWord(w: Word, id: Source, on: bool): Word {
    AndNotLeq(w, Pow2(id % 32));
    SourceBitFits(id);
    OrFits(w, Pow2(id % 32), 32);
    if on then Or(w, Pow2(id % 32)) else AndNot(w, Pow2(id % 32))
  }

  lemma SourceBitFits(id: Source)
    ensures Pow2(id % 32) < Pow2(32)
  {
    Pow2Grows(id % 32, 31);
  }

  function Store(m: Memory, c: Context, a: Action): Memory {
    match a
    case Enable(id) => m[EnableAddr(c, id) := EnableWord(Load(m, EnableAddr(c, id)), id, true)]
    case Disable(id) => m[EnableAddr(c, id) := EnableWord(Load(m, EnableAddr(c, id)), id, false)]
    case Threshold(level) => m[ThresholdAddr(c) := level]
  }

  /** The effect of an action on a set of contexts, in the callers' terms. */
  function Effect(s: State, contexts: set<nat>, a: Action): State {
    match a
    case Enable(id) => s.(enabled := s.enabled + set c | c in contexts :: (c, id))
    case Disable(id) => s.(enabled := s.enabled - set c | c in contexts :: (c, id))
    case Threshold(level) =>
      s.(threshold := map c | c in s.threshold :: if c in contexts then level else s.threshold[c])
  }

  // ---- the memory map ----

  /** Where the device keeps its registers, in bytes from the control base. */
  lemma MemoryMap(c: Context, id: Source)
    ensures PriorityAddr(id) == 4 * id
    ensures ThresholdAddr(c) == 0x20_0000 + 0x1000 * c && ClaimAddr(c) == ThresholdAddr(c) + 4
    ensures EnableAddr(c, id) == 0x2000 + 0x80 * c + 4 * (id / 32)
  {
  }

  /** The enable words of a context are one array of bits, in which source id is bit id. */
  lemma EnableBitArray(c: Context, id: Source)
    ensures 8 * (EnableAddr(c, id) - (0x2000 + 0x80 * c)) + id % 32 == id
    ensures EnableAddr(c, id) % 4 == 0
  {
  }

  /** The word at a has one bit written; its other bits, and every other word, are as before. */
  ghost predicate OneBitWritten(before: Memory, after: Memory, a: nat, bit: nat, on: bool) {
    && (forall i: nat :: Bit(Load(after, a), i) == if i == bit then on else Bit(Load(before, a), i))
    && forall b: nat :: b != a ==> Load(after, b) == Load(before, b)
  }

  /** The word at a is written, and every other word is as before. */
  ghost predicate OneWordWritten(before: Memory, after: Memory, a: nat, w: nat) {
    Load(after, a) == w && forall b: nat :: b != a ==> Load(after, b) == Load(before, b)
  }

  /** What the driver's updates store, and where. */
  lemma StoreWrites(m: Memory, c: Context, a: Action)
    ensures match a
            case Threshold(level) => OneWordWritten(m, Store(m, c, a), 0x20_0000 + 0x1000 * c, level)
            case Enable(id) => OneBitWritten(m, Store(m, c, a), 0x2000 + 0x80 * c + 4 * (id / 32), id % 32, true)
            case Disable(id) => OneBitWritten(m, Store(m, c, a), 0x2000 + 0x80 * c + 4 * (id / 32), id % 32, false)
  {
    if !a.Threshold? {
      MemoryMap(c, a.id);
      var w := Load(m, EnableAddr(c, a.id));
      forall i: nat ensures Bit(EnableWord(w, a.id, a.Enable?), i) == if i == a.id % 32 then a.Enable? else Bit(w, i) {
        BitOfOr(w, Pow2(a.id % 32), i);
        BitOfAndNot(w, Pow2(a.id % 32), i);
        BitOfPow2(a.id % 32, i);
      }
    }
  }

  // ---- addresses do not alias ----

  lemma AddressesDisjoint(c: Context, id: Source, c': Context, id': Source)
    ensures EnableAddr(c, id) == EnableAddr(c', id') <==> c == c' && id / 32 == id' / 32
    ensures PriorityAddr(id) == PriorityAddr(id') <==> id == id'
    ensures ThresholdAddr(c) == ThresholdAddr(c') <==> c == c'
    ensures PriorityAddr(id) < EnableAddr(c', id') < ThresholdAddr(c)
    ensures ClaimAddr(c) != ThresholdAddr(c')
  {
  }

  lemma EnableWordBits(w: Word, id: Source, on: bool, id': Source)
    requires id / 32 == id' / 32
    ensures Bit(EnableWord(w, id, on), id' % 32) == if id == id' then on else Bit(w, id' % 32)
  {
    BitOfOr(w, Pow2(id % 32), id' % 32);
    BitOfAndNot(w, Pow2(id % 32), id' % 32);
    BitOfPow2(id % 32, id' % 32);
  }

  lemma StoreEnabled(m: Memory, c: Context, a: Action, c': Context, id': Source)
    ensures Enabled(Store(m, c, a), c', id')
         == if !a.Threshold? && c' == c && id' == a.id then a.Enable? else Enabled(m, c', id')
  {
    AddressesDisjoint(c, id', c', id');
    if !a.Threshold? {
      AddressesDisjoint(c, a.id, c', id');
      if c == c' && a.id / 32 == id' / 32 {
        EnableWordBits(Load(m, EnableAddr(c, a.id)), a.id, a.Enable?, id');
      }
    }
  }

  lemma StorePriority(m: Memory, c: Context, a: Action, id': Source)
    ensures Load(Store(m, c, a), PriorityAddr(id')) == Load(m, PriorityAddr(id'))
  {
    AddressesDisjoint(c, id', c, if a.Threshold? then id' else a.id);
  }

  lemma StoreThreshold(m: Memory, c: Context, a: Action, c': Context)
    ensures Load(Store(m, c, a), ThresholdAddr(c'))
         == if a.Threshold? && c' == c then a.level else Load(m, ThresholdAddr(c'))
  {
    AddressesDisjoint(c', 0, c, if a.Threshold? then 0 else a.id);
  }

  lemma SameMap(a: map<nat, nat>, b: map<nat, nat>, n: nat)
    requires forall k: nat :: (k in a <==> k < n) && (k in b <==> k < n)
    requires forall k: nat :: k < n ==> a[k] == b[k]
    ensures a == b
  {
  }

  lemma StoreRefinesEnabled(m: Memory, c: Context, a: Action)
    ensures View(Store(m, c, a)).enabled == Effect(View(m), {c}, a).enabled
  {
    var m' := Store(m, c, a);
    forall c': Context, id': Source
      ensures Enabled(m', c', id')
           == if !a.Threshold? && c' == c && id' == a.id then a.Enable? else Enabled(m, c', id')
    {
      StoreEnabled(m, c, a, c', id');
    }
    EnabledDecodes(m, m', c, a);
  }

  /** A memory whose enable bits changed as one action asks decodes to that action's effect. */
  lemma EnabledDecodes(m: Memory, m': Memory, c: Context, a: Action)
    requires forall c': Context, id': Source ::
      Enabled(m', c', id') == if !a.Threshold? && c' == c && id' == a.id then a.Enable? else Enabled(m, c', id')
    ensures View(m').enabled == Effect(View(m), {c}, a).enabled
  {
  }

  lemma StoreRefinesPriority(m: Memory, c: Context, a: Action)
    ensures View(Store(m, c, a)).priority == Effect(View(m), {c}, a).priority
  {
    forall id': Source ensures Load(m, PriorityAddr(id')) == Load(Store(m, c, a), PriorityAddr(id')) {
      StorePriority(m, c, a, id');
    }
  }

  lemma StoreRefinesThreshold(m: Memory, c: Context, a: Action)
    ensures View(Store(m, c, a)).threshold == Effect(View(m), {c}, a).threshold
  {
    var m' := Store(m, c, a);
    forall c': Context
      ensures Load(m', ThresholdAddr(c')) == if a.Threshold? && c' == c then a.level else Load(m, ThresholdAddr(c'))
    {
      StoreThreshold(m, c, a, c');
    }
    ThresholdDecodes(m, m', c, a);
  }

  lemma ThresholdDecodes(m: Memory, m': Memory, c: Context, a: Action)
    requires forall c': Context ::
      Load(m', ThresholdAddr(c')) == if a.Threshold? && c' == c then a.level else Load(m, ThresholdAddr(c'))
    ensures View(m').threshold == Effect(View(m), {c}, a).threshold
  {
    SameMap(Effect(View(m), {c}, a).threshold, View(m').threshold, CONTEXTS);
  }

  /** A single register update changes one enable bit or one threshold, and nothing else. */
  lemma StoreRefines(m: Memory, c: Context, a: Action)
    ensures View(Store(m, c, a)) == Effect(View(m), {c}, a)
  {
    StoreRefinesEnabled(m, c, a);
    StoreRefinesPriority(m, c, a);
    StoreRefinesThreshold(m, c, a);
  }

  // ---- priorities ----

  datatype Config = Config(numInterrupts: nat, maxPriority: Word, parents: nat) {
    predicate Valid() {
      numInterrupts <= SOURCES && parents <= CONTEXTS
    }

    /** The driver stores a priority only below the device's maximum, never the maximum itself. */
    predicate Accepts(priority: Word) {
      maxPriority != 0 && priority < maxPriority
    }
  }

  function StorePriorityWord(m: Memory, cfg: Config, id: Source, priority: Word): Memory {
    if cfg.Accepts(priority) then m[PriorityAddr(id) := priority] else m
  }

  lemma PriorityKeepsEnabled(m: Memory, id: Source, priority: Word)
    ensures View(m[PriorityAddr(id) := priority]).enabled == View(m).enabled
  {
    var m' := m[PriorityAddr(id) := priority];
    forall c': Context, id': Source ensures Load(m', EnableAddr(c', id')) == Load(m, EnableAddr(c', id')) {
      AddressesDisjoint(c', id, c', id');
    }
  }

  lemma PriorityKeepsThreshold(m: Memory, id: Source, priority: Word)
    ensures View(m[PriorityAddr(id) := priority]).threshold == View(m).threshold
  {
    var m' := m[PriorityAddr(id) := priority];
    forall c': Context ensures Load(m', ThresholdAddr(c')) == Load(m, ThresholdAddr(c')) {
      AddressesDisjoint(c', id, c', id);
    }
  }

  lemma PriorityStored(m: Memory, id: Source, priority: Word)
    ensures View(m[PriorityAddr(id) := priority]).priority == View(m).priority[id := priority]
  {
    var m' := m[PriorityAddr(id) := priority];
    forall id': Source
      ensures Load(m', PriorityAddr(id')) == if id' == id then priority else Load(m, PriorityAddr(id'))
    {
      AddressesDisjoint(0, id, 0, id');
    }
    SameMap(View(m).priority[id := priority], View(m').priority, SOURCES);
  }

  lemma PriorityRefines(m: Memory, cfg: Config, id: Source, priority: Word)
    ensures View(StorePriorityWord(m, cfg, id, priority))
         == if cfg.Accepts(priority) then View(m).(priority := View(m).priority[id := priority]) else View(m)
  {
    PriorityKeepsEnabled(m, id, priority);
    PriorityStored(m, id, priority);
    PriorityKeepsThreshold(m, id, priority);
  }

  // ---- affinity calls ----

  function BitLength(mask: nat): nat {
    if mask == 0 then 0 else 1 + BitLength(mask / 2)
  }

  /** `for_each_metal_affinity` shifts the mask until it is zero; its body never tests the bit. */
  function AffinityUpTo(m: Memory, a: Action, n: nat): Memory
    requires n <= CONTEXTS
  {
    if n == 0 then m
    else
      var before := AffinityUpTo(m, a, n - 1);
      if n - 1 != 0 then Store(before, n - 1, a) else before
  }

  function Affinity(m: Memory, mask: nat, a: Action): Memory
    requires BitLength(mask) <= CONTEXTS
  {
    AffinityUpTo(m, a, BitLength(mask))
  }

  predicate Shifted(c: nat, n: nat) {
    0 < c < n
  }

  function Below(n: nat): set<nat> {
    set c | 0 < c < n && Shifted(c, n)
  }

  /** The contexts a caller names: the non-zero positions set in the mask. */
  function Named(mask: nat): set<nat> {
    set c | 0 < c < BitLength(mask) && Bit(mask, c)
  }

  lemma EffectTwice(s: State, cs: set<nat>, ds: set<nat>, a: Action)
    ensures Effect(Effect(s, cs, a), ds, a) == Effect(s, cs + ds, a)
  {
    var once, twice := Effect(s, cs + ds, a), Effect(Effect(s, cs, a), ds, a);
    assert once.enabled == twice.enabled;
    assert once.threshold == twice.threshold;
  }

  lemma EffectOfNone(s: State, a: Action)
    ensures Effect(s, {}, a) == s
  {
    assert Effect(s, {}, a).enabled == s.enabled;
    assert Effect(s, {}, a).threshold == s.threshold;
  }

  lemma AffinityStep(s: State, before: Memory, a: Action, n: Context)
    requires n > 0 && View(before) == Effect(s, Below(n), a)
    ensures View(Store(before, n, a)) == Effect(s, Below(n + 1), a)
  {
    StoreRefines(before, n, a);
    EffectTwice(s, Below(n), {n}, a);
    assert Below(n) + {n} == Below(n + 1);
  }

  lemma {:induction false} AffinityUpToRefines(m: Memory, a: Action, n: nat)
    requires n <= CONTEXTS
    ensures View(AffinityUpTo(m, a, n)) == Effect(View(m), Below(n), a)
  {
    if n <= 1 {
      assert Below(n) == {};
      EffectOfNone(View(m), a);
      assert AffinityUpTo(m, a, n) == m;
    } else {
      AffinityUpToRefines(m, a, n - 1);
      AffinityStep(View(m), AffinityUpTo(m, a, n - 1), a, n - 1);
    }
  }

  /** What an affinity call really does: it acts on every context from 1 up to the mask's top bit. */
  lemma AffinityActsBelowTop(m: Memory, mask: nat, a: Action)
    requires BitLength(mask) <= CONTEXTS
    ensures View(Affinity(m, mask, a)) == Effect(View(m), Below(BitLength(mask)), a)
  {
    AffinityUpToRefines(m, a, BitLength(mask));
  }

  /** No zero between bit 1 and the top bit of the mask: shifted right once, it is all ones. */
  predicate NoGap(mask: nat) {
    And(mask / 2, mask / 2 + 1) == 0
  }

  lemma {:induction false} SelfAnd(h: nat)
    ensures And(h, h) == h
  {
    if h > 0 {
      SelfAnd(h / 2);
    }
  }

  lemma {:induction false} AllOnesBit(h: nat, c: nat)
    requires And(h, h + 1) == 0 && c < BitLength(h)
    ensures Bit(h, c)
  {
    EvenAndNext(h);
    if h % 2 == 1 && c > 0 {
      assert (h + 1) / 2 == h / 2 + 1;
      AllOnesBit(h / 2, c - 1);
    }
  }

  lemma EvenAndNext(h: nat)
    ensures h % 2 == 0 ==> And(h, h + 1) == h
  {
    if h % 2 == 0 {
      SelfAnd(h / 2);
      assert (h + 1) / 2 == h / 2;
    }
  }

  lemma {:induction false} FindGap(h: nat) returns (c: nat)
    requires And(h, h + 1) != 0
    ensures c < BitLength(h) && !Bit(h, c)
  {
    if h % 2 == 0 {
      c := 0;
    } else {
      assert (h + 1) / 2 == h / 2 + 1;
      c := FindGap(h / 2);
      c := c + 1;
    }
  }

  lemma NoGapIff(mask: nat)
    ensures NoGap(mask) <==> Named(mask) == Below(BitLength(mask))
  {
    var top := BitLength(mask);
    if NoGap(mask) {
      forall c | c in Below(top) ensures c in Named(mask) {
        AllOnesBit(mask / 2, c - 1);
      }
      assert Named(mask) == Below(top);
    } else {
      var c := FindGap(mask / 2);
      assert !Bit(mask, c + 1);
      assert Shifted(c + 1, top);
      assert c + 1 in Below(top) && c + 1 !in Named(mask);
    }
  }

  /** A state in which acting on context c is visible. */
  function Sensitive(c: Context, a: Action): Memory {
    match a
    case Enable(id) => map[]
    case Disable(id) => Store(map[], c, Enable(id))
    case Threshold(level) => Pow2Grows(1, 32); Store(map[], c, Threshold(if level == 0 then 1 else 0))
  }

  lemma SensitiveChanges(c: Context, a: Action, cs: set<nat>, ds: set<nat>)
    requires c in cs && c !in ds
    ensures Effect(View(Sensitive(c, a)), cs, a) != Effect(View(Sensitive(c, a)), ds, a)
  {
    var s := View(Sensitive(c, a));
    var s1, s2 := Effect(s, cs, a), Effect(s, ds, a);
    match a
    case Enable(id) =>
      BitOfZero(id % 32);
      assert (c, id) in s1.enabled && (c, id) !in s2.enabled;
    case Disable(id) =>
      StoreEnabled(map[], c, Enable(id), c, id);
      assert (c, id) !in s1.enabled && (c, id) in s2.enabled;
    case Threshold(level) =>
      assert s1.threshold[c] == level != s2.threshold[c];
  }

  /**
   Affinity calls act on exactly the named contexts, in every state, if and only if the mask has
   no gap. With a gap the driver also acts on the contexts left out of the mask.
   */
  lemma AffinityMatchesMaskIff(mask: nat, a: Action)
    requires BitLength(mask) <= CONTEXTS
    ensures NoGap(mask)
       <==> forall m: Memory :: View(Affinity(m, mask, a)) == Effect(View(m), Named(mask), a)
  {
    NoGapIff(mask);
    forall m: Memory ensures View(Affinity(m, mask, a)) == Effect(View(m), Below(BitLength(mask)), a) {
      AffinityActsBelowTop(m, mask, a);
    }
    if !NoGap(mask) {
      var c :| c in Below(BitLength(mask)) && c !in Named(mask);
      SensitiveChanges(c, a, Below(BitLength(mask)), Named(mask));
      var m := Sensitive(c, a);
      assert View(Affinity(m, mask, a)) != Effect(View(m), Named(mask), a);
    }
  }

  lemma BitsOfEight(i: nat)
    ensures Bit(8, i) <==> i == 3
  {
    assert Pow2(3) == 8;
    BitOfPow2(3, i);
  }

  lemma LengthOfEight()
    ensures BitLength(8) == 4
  {
    assert BitLength(2) == 2 && BitLength(4) == 1 + BitLength(2);
  }

  lemma EightNamesThree()
    ensures BitLength(8) == 4 && Named(8) == {3} && Below(4) == {1, 2, 3}
  {
    LengthOfEight();
    forall c: nat ensures c in Named(8) <==> c == 3 {
      BitsOfEight(c);
    }
    assert Shifted(1, 4) && Shifted(2, 4) && Shifted(3, 4);
  }

  /** Mask 0b1000 names context 3, and enables the source in contexts 1 and 2 as well. */
  lemma AffinityCounterexample(id: Source)
    ensures BitLength(8) == 4 && Named(8) == {3}
    ensures View(Affinity(map[], 8, Enable(id))).enabled == {(1, id), (2, id), (3, id)}
  {
    EightNamesThree();
    AffinityActsBelowTop(map[], 8, Enable(id));
    NothingEnabledInZeroMemory();
    assert (set c | c in {1, 2, 3} :: (c, id)) == {(1, id), (2, id), (3, id)};
  }

  lemma NothingEnabledInZeroMemory()
    ensures View(map[]).enabled == {}
  {
    forall c: Context, id: Source ensures !Enabled(map[], c, id) {
      BitOfZero(id % 32);
    }
  }

  // ---- initialisation ----

  /** Source n of one parent context: disabled, and its priority lowered if the source exists. */
  function InitSource(m: Memory, cfg: Config, parent: Context, n: Source): Memory {
    var off := Store(m, parent, Disable(n));
    if n < cfg.numInterrupts then StorePriorityWord(off, cfg, n, 0) else off
  }

  function InitSources(m: Memory, cfg: Config, parent: Context, n: nat): Memory
    requires n <= SOURCES
  {
    if n == 0 then m else InitSource(InitSources(m, cfg, parent, n - 1), cfg, parent, n - 1)
  }

  function InitParent(m: Memory, cfg: Config, parent: Context): Memory {
    Store(InitSources(m, cfg, parent, SOURCES), parent, Threshold(0))
  }

  function InitParents(m: Memory, cfg: Config, n: nat): Memory
    requires n <= CONTEXTS
  {
    if n == 0 then m else InitParent(InitParents(m, cfg, n - 1), cfg, n - 1)
  }

  /** The callers' view after the first n parent contexts are initialised. */
  function ParentsCleared(s: State, cfg: Config, n: nat): State {
    State((set p | p in s.enabled && !(p.0 < n && p.1 < SOURCES)),
          (map id | id in s.priority ::
             if cfg.maxPriority != 0 && n > 0 && id < SOURCES && id < cfg.numInterrupts then 0 else s.priority[id]),
          map c | c in s.threshold :: if c < n then 0 else s.threshold[c])
  }

  lemma EffectOnOne(s: State, c: nat, a: Action)
    ensures Effect(s, {c}, a)
         == match a
            case Enable(id) => s.(enabled := s.enabled + {(c, id)})
            case Disable(id) => s.(enabled := s.enabled - {(c, id)})
            case Threshold(level) => s.(threshold := if c in s.threshold then s.threshold[c := level] else s.threshold)
  {
    var t := Effect(s, {c}, a);
    if !a.Threshold? {
      assert (set d | d in {c} :: (d, a.id)) == {(c, a.id)};
    } else {
      assert t.threshold == if c in s.threshold then s.threshold[c := a.level] else s.threshold;
    }
  }

  /** What a priority write does at one context and source. */
  lemma PriorityWordAt(m: Memory, cfg: Config, id: Source, priority: Word, c: Context, id': Source)
    ensures var m' := StorePriorityWord(m, cfg, id, priority);
            && Enabled(m', c, id') == Enabled(m, c, id')
            && Load(m', ThresholdAddr(c)) == Load(m, ThresholdAddr(c))
            && Load(m', PriorityAddr(id'))
               == if cfg.Accepts(priority) && id' == id then priority else Load(m, PriorityAddr(id'))
  {
    AddressesDisjoint(c, id, c, id');
    AddressesDisjoint(c, id', c, id');
  }

  lemma InitSourceAt(m: Memory, cfg: Config, parent: Context, n: Source, c: Context, id: Source)
    ensures var m' := InitSource(m, cfg, parent, n);
            && Enabled(m', c, id) == (Enabled(m, c, id) && !(c == parent && id == n))
            && Load(m', ThresholdAddr(c)) == Load(m, ThresholdAddr(c))
            && Load(m', PriorityAddr(id))
               == if cfg.Accepts(0) && id == n && id < cfg.numInterrupts then 0 else Load(m, PriorityAddr(id))
  {
    StoreEnabled(m, parent, Disable(n), c, id);
    StorePriority(m, parent, Disable(n), id);
    StoreThreshold(m, parent, Disable(n), c);
    PriorityWordAt(Store(m, parent, Disable(n)), cfg, n, 0, c, id);
  }

  /** Context c and source id, before and after the first n sources of one parent are initialised. */
  predicate SourcesOff(m: Memory, m': Memory, cfg: Config, parent: Context, n: nat, c: Context, id: Source) {
    && Enabled(m', c, id) == (Enabled(m, c, id) && !(c == parent && id < n))
    && Load(m', ThresholdAddr(c)) == Load(m, ThresholdAddr(c))
    && Load(m', PriorityAddr(id))
       == if cfg.Accepts(0) && id < n && id < cfg.numInterrupts then 0 else Load(m, PriorityAddr(id))
  }

  lemma InitSourceStep(m: Memory, before: Memory, cfg: Config, parent: Context, n: Source, c: Context, id: Source)
    requires SourcesOff(m, before, cfg, parent, n, c, id)
    ensures SourcesOff(m, InitSource(before, cfg, parent, n), cfg, parent, n + 1, c, id)
  {
    InitSourceAt(before, cfg, parent, n, c, id);
  }

  lemma {:induction false} InitSourcesAt(m: Memory, cfg: Config, parent: Context, n: nat, c: Context, id: Source)
    requires n <= SOURCES
    ensures var m' := InitSources(m, cfg, parent, n); SourcesOff(m, m', cfg, parent, n, c, id)
  {
    if n > 0 {
      InitSourcesAt(m, cfg, parent, n - 1, c, id);
      InitSourceStep(m, InitSources(m, cfg, parent, n - 1), cfg, parent, n - 1, c, id);
    }
  }

  lemma InitParentAt(m: Memory, cfg: Config, parent: Context, c: Context, id: Source)
    ensures var m' := InitParent(m, cfg, parent);
            && Enabled(m', c, id) == (Enabled(m, c, id) && c != parent)
            && Load(m', ThresholdAddr(c)) == (if c == parent then 0 else Load(m, ThresholdAddr(c)))
            && Load(m', PriorityAddr(id))
               == if cfg.Accepts(0) && id < cfg.numInterrupts then 0 else Load(m, PriorityAddr(id))
  {
    var cleared := InitSources(m, cfg, parent, SOURCES);
    InitSourcesAt(m, cfg, parent, SOURCES, c, id);
    StoreEnabled(cleared, parent, Threshold(0), c, id);
    StorePriority(cleared, parent, Threshold(0), id);
    StoreThreshold(cleared, parent, Threshold(0), c);
  }

  /** After n parents: their sources are off, their thresholds zero, and existing sources have priority zero. */
  lemma {:induction false} InitParentsAt(m: Memory, cfg: Config, n: nat, c: Context, id: Source)
    requires n <= CONTEXTS
    ensures var m' := InitParents(m, cfg, n);
            && Enabled(m', c, id) == (Enabled(m, c, id) && c >= n)
            && Load(m', ThresholdAddr(c)) == (if c < n then 0 else Load(m, ThresholdAddr(c)))
            && Load(m', PriorityAddr(id))
               == if cfg.Accepts(0) && n > 0 && id < cfg.numInterrupts then 0 else Load(m, PriorityAddr(id))
  {
    if n > 0 {
      InitParentsAt(m, cfg, n - 1, c, id);
      InitParentAt(InitParents(m, cfg, n - 1), cfg, n - 1, c, id);
    }
  }

  lemma InitParentsEnabled(m: Memory, cfg: Config, n: nat)
    requires n <= CONTEXTS
    ensures View(InitParents(m, cfg, n)).enabled == ParentsCleared(View(m), cfg, n).enabled
  {
    var e, e' := ParentsCleared(View(m), cfg, n).enabled, View(InitParents(m, cfg, n)).enabled;
    forall c: Context, id: Source ensures (c, id) in e <==> (c, id) in e' {
      InitParentsAt(m, cfg, n, c, id);
    }
  }

  lemma InitParentsPriority(m: Memory, cfg: Config, n: nat)
    requires n <= CONTEXTS
    ensures View(InitParents(m, cfg, n)).priority == ParentsCleared(View(m), cfg, n).priority
  {
    var p, p' := ParentsCleared(View(m), cfg, n).priority, View(InitParents(m, cfg, n)).priority;
    forall id: Source ensures p[id] == p'[id] {
      InitParentsAt(m, cfg, n, 0, id);
    }
    SameMap(p, p', SOURCES);
  }

  lemma InitParentsThreshold(m: Memory, cfg: Config, n: nat)
    requires n <= CONTEXTS
    ensures View(InitParents(m, cfg, n)).threshold == ParentsCleared(View(m), cfg, n).threshold
  {
    var t, t' := ParentsCleared(View(m), cfg, n).threshold, View(InitParents(m, cfg, n)).threshold;
    forall c: Context ensures t[c] == t'[c] {
      InitParentsAt(m, cfg, n, c, 0);
    }
    SameMap(t, t', CONTEXTS);
  }

  /** Initialising n parent contexts, in the callers' terms. */
  lemma InitParentsRefines(m: Memory, cfg: Config, n: nat)
    requires n <= CONTEXTS
    ensures View(InitParents(m, cfg, n)) == ParentsCleared(View(m), cfg, n)
  {
    InitParentsEnabled(m, cfg, n);
    InitParentsPriority(m, cfg, n);
    InitParentsThreshold(m, cfg, n);
  }
}
