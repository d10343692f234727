/**
 The PLIC driver's entry points over one device, and whole runs of them.

 `Execute` is one call on the flat memory; `Meaning` is the same call on the callers' view. The
 class below has the driver's own loops and tables and is proved to compute `Execute`.
 */
module PlicDriver {
  import opened Bits
  import opened Plic

  datatype Device = Device(mem: Memory, initDone: bool)

  datatype Call =
    | Switch(context: Context, id: nat, on: bool)
    | SetThreshold(context: Context, level: Word)
    | SetPriority(source: Source, priority: Word)
    | SwitchMask(mask: nat, id: nat, on: bool)
    | ThresholdMask(mask: nat, level: Word)
    | Init
    | Register(id: nat, withHandler: bool)
    | Complete(context: Context, claimed: Word)
  {
    /** The affinity mask is an unsigned long. */
    predicate Valid() {
      (SwitchMask? || ThresholdMask? ==> BitLength(mask) <= 64)
    }
  }

  function SwitchAction(id: Source, on: bool): Action {
    if on then Enable(id) else Disable(id)
  }

  function SmallPriority(withHandler: bool): Word {
    Pow2Grows(2, 32);
    if withHandler then 2 else 1
  }

  /** One call on the device memory. Sources at or past the interrupt count are refused. */
  function Execute(cfg: Config, d: Device, call: Call): Device
    requires cfg.Valid() && call.Valid()
  {
    match call
    case Switch(c, id, on) =>
      if id >= cfg.numInterrupts then d else d.(mem := Store(d.mem, c, SwitchAction(id, on)))
    case SetThreshold(c, level) => d.(mem := Store(d.mem, c, Threshold(level)))
    case SetPriority(id, p) => d.(mem := StorePriorityWord(d.mem, cfg, id, p))
    case SwitchMask(mask, id, on) =>
      if id >= cfg.numInterrupts then d else d.(mem := Affinity(d.mem, mask, SwitchAction(id, on)))
    case ThresholdMask(mask, level) => d.(mem := Affinity(d.mem, mask, Threshold(level)))
    case Init => if d.initDone then d else Device(InitParents(d.mem, cfg, cfg.parents), true)
    case Register(id, withHandler) =>
      if id >= cfg.numInterrupts then d
      else d.(mem := StorePriorityWord(d.mem, cfg, id, SmallPriority(withHandler)))
    case Complete(c, claimed) => d.(mem := d.mem[ClaimAddr(c) := claimed])
  }

  /** The same call in the callers' terms: sets and maps, no addresses and no words. */
  function Meaning(cfg: Config, s: State, initDone: bool, call: Call): (State, bool)
    requires cfg.Valid()
  {
    match call
    case Switch(c, id, on) =>
      var enabled := if on then s.enabled + {(c as nat, id)} else s.enabled - {(c as nat, id)};
      (if id >= cfg.numInterrupts then s else s.(enabled := enabled), initDone)
    case SetThreshold(c, level) => (s.(threshold := s.threshold[c := level]), initDone)
    case SetPriority(id, p) =>
      (if cfg.Accepts(p) then s.(priority := s.priority[id := p]) else s, initDone)
    case SwitchMask(mask, id, on) =>
      var pairs := set c | c in Below(BitLength(mask)) :: (c, id);
      var enabled := if on then s.enabled + pairs else s.enabled - pairs;
      (if id >= cfg.numInterrupts then s else s.(enabled := enabled), initDone)
    case ThresholdMask(mask, level) =>
      (s.(threshold := map c | c in s.threshold :: if c in Below(BitLength(mask)) then level else s.threshold[c]),
       initDone)
    case Init => (if initDone then s else ParentsCleared(s, cfg, cfg.parents), true)
    case Register(id, withHandler) =>
      var p := if withHandler then 2 else 1;
      (if id < cfg.numInterrupts && p < cfg.maxPriority then s.(priority := s.priority[id := p]) else s, initDone)
    case Complete(c, claimed) => (s, initDone)
  }

  lemma CompletionInvisible(m: Memory, c: Context, claimed: Word)
    ensures View(m[ClaimAddr(c) := claimed]) == View(m)
  {
    var m' := m[ClaimAddr(c) := claimed];
    forall c': Context, id': Source ensures Enabled(m', c', id') == Enabled(m, c', id') {
      AddressesDisjoint(c, id', c', id');
    }
    assert View(m').enabled == View(m).enabled;
    forall id': Source ensures Load(m', PriorityAddr(id')) == Load(m, PriorityAddr(id')) {
      AddressesDisjoint(c, id', c, id');
    }
    assert View(m').priority == View(m).priority;
    forall c': Context ensures Load(m', ThresholdAddr(c')) == Load(m, ThresholdAddr(c')) {
      AddressesDisjoint(c, 0, c', 0);
    }
    assert View(m').threshold == View(m).threshold;
  }

  lemma SwitchRefines(m: Memory, c: Context, id: Source, on: bool)
    ensures View(Store(m, c, SwitchAction(id, on)))
         == View(m).(enabled := if on then View(m).enabled + {(c as nat, id)} else View(m).enabled - {(c as nat, id)})
  {
    StoreRefines(m, c, SwitchAction(id, on));
    EffectOnOne(View(m), c, SwitchAction(id, on));
  }

  lemma MaskRefines(m: Memory, mask: nat, a: Action)
    requires BitLength(mask) <= 64
    ensures View(Affinity(m, mask, a)) == Effect(View(m), Below(BitLength(mask)), a)
  {
    AffinityActsBelowTop(m, mask, a);
  }

  /** The call on the flat memory decodes to its meaning on the callers' view. */
  predicate Refines(cfg: Config, d: Device, call: Call)
    requires cfg.Valid() && call.Valid()
  {
    (View(Execute(cfg, d, call).mem), Execute(cfg, d, call).initDone) == Meaning(cfg, View(d.mem), d.initDone, call)
  }

  lemma PriorityCallRefines(cfg: Config, d: Device, call: Call)
    requires cfg.Valid() && call.Valid() && (call.SetPriority? || call.Register?)
    ensures Refines(cfg, d, call)
  {
    match call
    case SetPriority(id, p) => PriorityRefines(d.mem, cfg, id, p);
    case Register(id, withHandler) =>
      if id < cfg.numInterrupts { PriorityRefines(d.mem, cfg, id, SmallPriority(withHandler)); }
  }

  lemma MaskCallRefines(cfg: Config, d: Device, call: Call)
    requires cfg.Valid() && call.Valid() && (call.SwitchMask? || call.ThresholdMask?)
    ensures Refines(cfg, d, call)
  {
    match call
    case SwitchMask(mask, id, on) =>
      if id < cfg.numInterrupts { MaskRefines(d.mem, mask, SwitchAction(id, on)); }
    case ThresholdMask(mask, level) => MaskRefines(d.mem, mask, Threshold(level));
  }

  lemma ContextCallRefines(cfg: Config, d: Device, call: Call)
    requires cfg.Valid() && call.Valid() && (call.Switch? || call.SetThreshold? || call.Complete?)
    ensures Refines(cfg, d, call)
  {
    match call
    case Switch(c, id, on) => if id < cfg.numInterrupts { SwitchRefines(d.mem, c, id, on); }
    case SetThreshold(c, level) =>
      StoreRefines(d.mem, c, Threshold(level));
      EffectOnOne(View(d.mem), c, Threshold(level));
    case Complete(c, claimed) => CompletionInvisible(d.mem, c, claimed);
  }

  /** Every driver call on the flat memory decodes to its meaning on the callers' view. */
  lemma CallRefines(cfg: Config, d: Device, call: Call)
    requires cfg.Valid() && call.Valid()
    ensures Refines(cfg, d, call)
  {
    if call.SetPriority? || call.Register? {
      PriorityCallRefines(cfg, d, call);
    } else if call.SwitchMask? || call.ThresholdMask? {
      MaskCallRefines(cfg, d, call);
    } else if call.Init? {
      InitParentsRefines(d.mem, cfg, cfg.parents);
    } else {
      ContextCallRefines(cfg, d, call);
    }
  }

  /**
   Registration asks for priority 2 with a handler and 1 without, but ignores a refusal: the source
   has the priority asked for exactly when it exists and the device maximum is higher, or it had that
   priority before.
   */
  lemma RegisteredPriorityIff(cfg: Config, d: Device, id: Source, withHandler: bool)
    requires cfg.Valid()
    ensures var asked := if withHandler then 2 else 1;
            View(Execute(cfg, d, Register(id, withHandler)).mem).priority[id] == asked
            <==> (id < cfg.numInterrupts && asked < cfg.maxPriority) || View(d.mem).priority[id] == asked
  {
    CallRefines(cfg, d, Register(id, withHandler));
  }

  /** With a maximum of 2, priority 2 is refused: a source registered with a handler stays at priority 0. */
  lemma RegisteredPriorityRefused(cfg: Config)
    requires cfg.Valid() && cfg.numInterrupts > 3 && cfg.maxPriority == 2
    ensures View(Execute(cfg, Device(map[], true), Register(3, true)).mem).priority[3] == 0
    ensures View(Execute(cfg, Device(map[], true), Register(3, false)).mem).priority[3] == 1
  {
    CallRefines(cfg, Device(map[], true), Register(3, true));
    RegisteredPriorityIff(cfg, Device(map[], true), 3, false);
  }

  function Run(cfg: Config, d: Device, calls: seq<Call>): Device
    requires cfg.Valid() && forall call <- calls :: call.Valid()
    decreases |calls|
  {
    if calls == [] then d else Run(cfg, Execute(cfg, d, calls[0]), calls[1..])
  }

  function RunMeaning(cfg: Config, s: State, initDone: bool, calls: seq<Call>): (State, bool)
    requires cfg.Valid()
    decreases |calls|
  {
    if calls == [] then (s, initDone)
    else
      var (s', initDone') := Meaning(cfg, s, initDone, calls[0]);
      RunMeaning(cfg, s', initDone', calls[1..])
  }

  /** Over any run of driver calls, decoding the memory gives exactly the abstract state. */
  lemma {:induction false} RunRefines(cfg: Config, d: Device, calls: seq<Call>)
    requires cfg.Valid() && forall call <- calls :: call.Valid()
    ensures (View(Run(cfg, d, calls).mem), Run(cfg, d, calls).initDone)
         == RunMeaning(cfg, View(d.mem), d.initDone, calls)
    decreases |calls|
  {
    if calls != [] {
      CallRefines(cfg, d, calls[0]);
      RunRefines(cfg, Execute(cfg, d, calls[0]), calls[1..]);
    }
  }

  /**
   The first initialisation, word by word: no source is enabled in any parent context, the parents'
   thresholds and the existing sources' priorities are zero, and everything else is as before. A
   second one does nothing.
   */
  lemma InitDisablesParents(cfg: Config, d: Device, c: Context, id: Source)
    requires cfg.Valid()
    ensures var d' := Execute(cfg, d, Init);
            var (enable, threshold) := (0x2000 + 0x80 * c + 4 * (id / 32), 0x20_0000 + 0x1000 * c);
            && d'.initDone && (d.initDone ==> d' == d)
            && (!d.initDone ==>
                  && Bit(Load(d'.mem, enable), id % 32) == (c >= cfg.parents && Bit(Load(d.mem, enable), id % 32))
                  && Load(d'.mem, threshold) == (if c < cfg.parents then 0 else Load(d.mem, threshold))
                  && Load(d'.mem, 4 * id) == if cfg.parents > 0 && cfg.maxPriority > 0 && id < cfg.numInterrupts then 0
                                             else Load(d.mem, 4 * id))
  {
    MemoryMap(c, id);
    if !d.initDone {
      InitParentsAt(d.mem, cfg, cfg.parents, c, id);
      assert Enabled(d.mem, c, id) == Bit(Load(d.mem, EnableAddr(c, id)), id % 32);
    }
  }

  // ---- the driver object ----

  datatype Handler = NoHandler | DefaultHandler | Isr(isr: nat)

  /** What the trap handler does, in order. */
  datatype Event =
    | Claimed(context: nat, id: nat)
    | Called(handler: Handler, id: nat, data: nat)
    | Completed(context: nat, id: nat)

  class Controller {
    const cfg: Config
    var mem: Memory
    var initDone: bool
    var exint: seq<Handler>
    var exintData: seq<nat>
    var subInt: seq<nat>
    var log: seq<Event>

    ghost predicate Valid()
      reads this
    {
      cfg.Valid() && |exint| == |exintData| == |subInt| == cfg.numInterrupts
    }

    ghost function Dev(): Device
      reads this
    {
      Device(mem, initDone)
    }

    /** `__metal_plic0_enable` */
    method EnableRaw(context: Context, id: Source, on: bool)
      requires Valid()
      modifies `mem
      ensures mem == Plic.Store(old(mem), context, SwitchAction(id, on))
      ensures OneBitWritten(old(mem), mem, 0x2000 + 0x80 * context + 4 * (id / 32), id % 32, on)
    {
      StoreWrites(mem, context, SwitchAction(id, on));
      var current := Load(mem, EnableAddr(context, id));
      mem := mem[EnableAddr(context, id) := EnableWord(current, id, on)];
    }

    method SetPriority(id: Source, priority: Word) returns (rc: int)
      requires Valid()
      modifies `mem
      ensures Dev() == Execute(cfg, old(Dev()), Call.SetPriority(id, priority))
      ensures rc == if priority < cfg.maxPriority then 0 else -1
      ensures if rc == 0 then OneWordWritten(old(mem), mem, 4 * id, priority) else mem == old(mem)
    {
      if cfg.maxPriority != 0 && priority < cfg.maxPriority {
        mem := mem[PriorityAddr(id) := priority];
        return 0;
      }
      return -1;
    }

    method SetThreshold(context: Context, level: Word) returns (rc: int)
      requires Valid()
      modifies `mem
      ensures Dev() == Execute(cfg, old(Dev()), Call.SetThreshold(context, level)) && rc == 0
      ensures OneWordWritten(old(mem), mem, 0x20_0000 + 0x1000 * context, level)
    {
      mem := mem[ThresholdAddr(context) := level];
      return 0;
    }

    /** The public enable and disable calls. */
    method Switch(context: Context, id: nat, on: bool) returns (rc: int)
      requires Valid()
      modifies `mem
      ensures Dev() == Execute(cfg, old(Dev()), Call.Switch(context, id, on))
      ensures rc == if id < cfg.numInterrupts then 0 else -1
      ensures if rc == 0 then OneBitWritten(old(mem), mem, 0x2000 + 0x80 * context + 4 * (id / 32), id % 32, on)
              else mem == old(mem)
    {
      if id >= cfg.numInterrupts {
        return -1;
      }
      EnableRaw(context, id, on);
      return 0;
    }

    /** Affinity enable and disable: the returned mask is all ones on error and zero otherwise. */
    method SwitchMask(mask: nat, id: nat, on: bool) returns (failed: bool, ret: nat)
      requires Valid() && BitLength(mask) <= 64
      modifies `mem
      ensures Dev() == Execute(cfg, old(Dev()), Call.SwitchMask(mask, id, on))
      ensures failed == (id >= cfg.numInterrupts) && ret == 0
    {
      ret := 0;
      if id >= cfg.numInterrupts {
        return true, 0;
      }
      var context, rest := 0, mask;
      while rest != 0
        invariant context + BitLength(rest) == BitLength(mask)
        invariant mem == AffinityUpTo(old(mem), SwitchAction(id, on), context)
        invariant ret == 0
      {
        if context != 0 {
          EnableRaw(context, id, on);
          ret := Or(ret, Shl(And(0, 1), context));
          ShlZero(context);
        }
        context, rest := context + 1, rest / 2;
      }
      return false, ret;
    }

    method ThresholdMask(mask: nat, level: Word)
      requires Valid() && BitLength(mask) <= 64
      modifies `mem
      ensures Dev() == Execute(cfg, old(Dev()), Call.ThresholdMask(mask, level))
    {
      var context, rest := 0, mask;
      while rest != 0
        invariant context + BitLength(rest) == BitLength(mask)
        invariant mem == AffinityUpTo(old(mem), Threshold(level), context)
      {
        if context != 0 {
          var rc := SetThreshold(context, level);
        }
        context, rest := context + 1, rest / 2;
      }
    }

    /** One source of one parent context: off, and if the source exists, priority and tables reset. */
    method InitSource(parent: Context, i: Source)
      requires Valid()
      modifies `mem, `exint, `exintData, `subInt
      ensures Valid() && mem == Plic.InitSource(old(mem), cfg, parent, i)
      ensures if i < cfg.numInterrupts
              then exint == old(exint)[i := NoHandler] && subInt == old(subInt)[i := 0]
                   && exintData == old(exintData)[i := 0]
              else exint == old(exint) && subInt == old(subInt) && exintData == old(exintData)
    {
      EnableRaw(parent, i, false);
      if i < cfg.numInterrupts {
        var rc := SetPriority(i, 0);
        exint, subInt, exintData := exint[i := NoHandler], subInt[i := 0], exintData[i := 0];
      }
    }

    /** The handler tables are reset. */
    ghost predicate TablesReset(n: nat)
      requires Valid()
      reads this
    {
      forall i :: 0 <= i < n && i < cfg.numInterrupts ==> exint[i] == NoHandler && exintData[i] == 0 && subInt[i] == 0
    }

    method InitContext(parent: Context)
      requires Valid()
      modifies `mem, `exint, `exintData, `subInt
      ensures Valid() && mem == InitParent(old(mem), cfg, parent) && TablesReset(SOURCES)
    {
      for i := 0 to SOURCES
        invariant Valid() && mem == InitSources(old(mem), cfg, parent, i) && TablesReset(i)
      {
        InitSource(parent, i);
      }
      var rc := SetThreshold(parent, 0);
    }

    /** The driver's initialisation; registration with the parent controllers is not part of it. */
    method Init()
      requires Valid()
      modifies `mem, `initDone, `exint, `exintData, `subInt
      ensures Valid() && Dev() == Execute(cfg, old(Dev()), Call.Init)
      ensures !old(initDone) && cfg.parents > 0 ==> TablesReset(cfg.numInterrupts)
      ensures old(initDone) || cfg.parents == 0 ==>
        exint == old(exint) && exintData == old(exintData) && subInt == old(subInt)
    {
      if !initDone {
        for parent := 0 to cfg.parents
          invariant Valid() && mem == InitParents(old(mem), cfg, parent)
          invariant if parent > 0 then TablesReset(SOURCES)
                    else exint == old(exint) && exintData == old(exintData) && subInt == old(subInt)
        {
          InitContext(parent);
        }
        initDone := true;
      }
    }

    /** Register a handler, or the default one when `isr` is NoHandler. */
    method Register(id: nat, isr: Handler, priv: nat) returns (rc: int)
      requires Valid() && !isr.DefaultHandler?
      modifies `mem, `exint, `exintData, `subInt
      ensures Valid() && Dev() == Execute(cfg, old(Dev()), Call.Register(id, isr.Isr?))
      ensures rc == if id < cfg.numInterrupts then 0 else -1
      ensures rc == 0 && isr.Isr? ==>
        exint == old(exint)[id := isr] && exintData == old(exintData)[id := priv] && subInt == old(subInt)
      ensures rc == 0 && !isr.Isr? ==>
        exint == old(exint)[id := DefaultHandler] && subInt == old(subInt)[id := priv] && exintData == old(exintData)
      ensures rc != 0 ==> exint == old(exint) && exintData == old(exintData) && subInt == old(subInt)
    {
      if id >= cfg.numInterrupts {
        return -1;
      }
      var ignored := SetPriority(id, SmallPriority(isr.Isr?));
      if isr.Isr? {
        exint := exint[id := isr];
        exintData := exintData[id := priv];
      } else {
        exint := exint[id := DefaultHandler];
        subInt := subInt[id := priv];
      }
      return 0;
    }

    /** One load of the claim register; the device answers `claimed`. */
    method ReadClaim(context: Context, claimed: Word) returns (id: Word)
      modifies `log
      ensures id == claimed && log == old(log) + [Claimed(context, claimed)]
    {
      log := log + [Claimed(context, claimed)];
      id := claimed;
    }

    /** The call of a source's handler. The handler's own effects are not modelled. */
    method Dispatch(id: Word)
      requires Valid() && id < cfg.numInterrupts
      modifies `log
      ensures log == old(log) + [Called(exint[id], id, exintData[id])]
    {
      log := log + [Called(exint[id], id, exintData[id])];
    }

    /** One store to the claim register. */
    method WriteClaim(context: Context, id: Word)
      modifies `mem, `log
      ensures mem == old(mem)[0x20_0004 + 0x1000 * context := id] && log == old(log) + [Completed(context, id)]
      ensures View(mem) == View(old(mem))
    {
      CompletionInvisible(mem, context, id);
      mem := mem[ClaimAddr(context) := id];
      log := log + [Completed(context, id)];
    }

    /**
     The trap handler: claim, dispatch if the claimed source has a handler, and complete exactly
     what was claimed, whatever the claimed number is.
     */
    method Handle(context: Context, claimed: Word)
      requires Valid()
      modifies `mem, `log
      ensures Dev() == Execute(cfg, old(Dev()), Complete(context, claimed))
      ensures View(mem) == old(View(mem))
      ensures log == old(log) + [Claimed(context, claimed)]
        + (if claimed < cfg.numInterrupts && exint[claimed] != NoHandler
           then [Called(exint[claimed], claimed, exintData[claimed])] else [])
        + [Completed(context, claimed)]
    {
      var id := ReadClaim(context, claimed);
      if id < cfg.numInterrupts && exint[id] != NoHandler {
        Dispatch(id);
      }
      WriteClaim(context, id);
    }
  }

  lemma {:induction false} ShlZero(s: nat)
    ensures Shl(0, s) == 0
  {
    if s > 0 {
      ShlZero(s - 1);
    }
  }
}
