/**
 Factoring the repeated registers of the interrupt controller (scripts/omtools/om/devices/plic.py):
 a list of registers at a constant distance becomes one register, a stride and a count.
 */
module RegStride {
  import opened Bits
  import opened RegFields
  import opened Wrappers

  datatype Problem = NoRegister | SizeDiffers | StrideDiffers | ResetDiffers | AccessDiffers | Hole

  datatype Outcome<T> = Good(value: T) | Bad(problem: Problem)

  datatype Factored = Factored(reg: RegField, stride: int, count: nat)

  /** The registers are `count` copies of `reg`, each `stride` bits after the one before. */
  predicate Expands(reg: RegField, stride: int, count: nat, regs: seq<RegField>) {
    && |regs| == count
    && forall i :: 0 <= i < count ==> IsCopy(reg, stride, i, regs[i])
  }

  predicate IsCopy(reg: RegField, stride: int, i: int, copy: RegField) {
    && copy.offset == reg.offset + stride * i
    && copy.size == reg.size && copy.reset == reg.reset && copy.access == reg.access
  }

  /** Some stride makes the registers copies of the first. */
  ghost predicate Regular(regs: seq<RegField>) {
    regs != [] && exists stride: int :: Expands(regs[0], stride, |regs|, regs)
  }

  /** What is wrong with register i, in the order the code looks. */
  function ProblemAt(regs: seq<RegField>, i: nat): Option<Problem>
    requires i < |regs|
  {
    var base, reg := regs[0], regs[i];
    if i == 0 then None
    else if reg.size != base.size then Some(SizeDiffers)
    else if i > 1 && reg.offset - base.offset != (regs[1].offset - base.offset) * i then Some(StrideDiffers)
    else if reg.reset != base.reset then Some(ResetDiffers)
    else if reg.access != base.access then Some(AccessDiffers)
    else None
  }

  /** The list is regular exactly when no register has a problem. */
  lemma RegularIff(regs: seq<RegField>)
    ensures Regular(regs) <==> regs != [] && forall i :: 0 <= i < |regs| ==> ProblemAt(regs, i).None?
  {
    if regs != [] {
      if forall i :: 0 <= i < |regs| ==> ProblemAt(regs, i).None? {
        var stride := if |regs| > 1 then regs[1].offset - regs[0].offset else 0;
        forall i | 0 <= i < |regs| ensures IsCopy(regs[0], stride, i, regs[i]) {
          assert ProblemAt(regs, i).None?;
        }
        assert Expands(regs[0], stride, |regs|, regs);
      }
      if Regular(regs) {
        var stride :| Expands(regs[0], stride, |regs|, regs);
        if |regs| > 1 {
          assert IsCopy(regs[0], stride, 1, regs[1]);
        }
        forall i | 0 <= i < |regs| ensures ProblemAt(regs, i).None? {
          assert IsCopy(regs[0], stride, i, regs[i]);
        }
      }
    }
  }

  /**
   `_ext_factorize_registers`. It returns exactly when the list is regular, and what it returns
   expands back to every register of the list. Otherwise it raises for the first register that does
   not fit. A list of one register gets the register width as its stride.
   */
  method Factorize(regs: seq<RegField>, regwidth: nat) returns (r: Outcome<Factored>, ghost at: nat)
    ensures r.Good? <==> Regular(regs)
    ensures r.Good? ==> r.value.reg == regs[0] && Expands(r.value.reg, r.value.stride, r.value.count, regs)
    ensures r.Good? && |regs| == 1 ==> r.value.stride == regwidth
    ensures r.Bad? && regs == [] ==> r.problem == NoRegister
    ensures r.Bad? && regs != [] ==> at < |regs| && ProblemAt(regs, at) == Some(r.problem)
                                     && forall j :: 0 <= j < at ==> ProblemAt(regs, j).None?
  {
    RegularIff(regs);
    at := 0;
    if regs == [] {
      return Bad(NoRegister), 0;
    }
    var basereg, stride := regs[0], None;
    var pos := 1;
    while pos < |regs|
      invariant 1 <= pos <= |regs|
      invariant stride == if pos > 1 then Some(regs[1].offset - regs[0].offset) else None
      invariant forall j :: 0 <= j < pos ==> ProblemAt(regs, j).None?
    {
      var reg := regs[pos];
      at := pos;
      if reg.size != basereg.size {
        return Bad(SizeDiffers), at;
      }
      if stride.None? {
        stride := Some(reg.offset - basereg.offset);
      } else if reg.offset - basereg.offset != stride.value * pos {
        return Bad(StrideDiffers), at;
      }
      if reg.reset != basereg.reset {
        return Bad(ResetDiffers), at;
      }
      if reg.access != basereg.access {
        return Bad(AccessDiffers), at;
      }
      pos := pos + 1;
    }
    var step := if stride.None? then regwidth else stride.value;
    forall i | 0 <= i < |regs| ensures IsCopy(basereg, step, i, regs[i]) {
      assert ProblemAt(regs, i).None?;
    }
    r := Good(Factored(basereg, step, |regs|));
  }

  /**
   What each error means: the register at fault has another size, or lies off the progression of the
   first two, or differs in reset value or access, and nothing that is looked at before differs.
   */
  lemma ProblemMeaning(regs: seq<RegField>, i: nat)
    requires 0 < i < |regs|
    ensures var (base, reg, p) := (regs[0], regs[i], ProblemAt(regs, i));
            var onLine := reg.offset - base.offset == (regs[1].offset - base.offset) * i;
            && (p == Some(SizeDiffers) <==> reg.size != base.size)
            && (p == Some(StrideDiffers) <==> reg.size == base.size && !onLine)
            && (p == Some(ResetDiffers) <==> reg.size == base.size && onLine && reg.reset != base.reset)
            && (p == Some(AccessDiffers) <==>
                  reg.size == base.size && onLine && reg.reset == base.reset && reg.access != base.access)
  {
    var d := regs[1].offset - regs[0].offset;
    assert i == 1 ==> d * i == d;
  }

  /** With two registers or more, only one stride expands to the list: the factoring is unique. */
  lemma StrideIsUnique(reg: RegField, s: int, s': int, regs: seq<RegField>)
    requires |regs| >= 2 && Expands(reg, s, |regs|, regs) && Expands(reg, s', |regs|, regs)
    ensures s == s'
  {
    assert IsCopy(reg, s, 1, regs[1]) && IsCopy(reg, s', 1, regs[1]);
  }

  // ---- fusing the words of one register ----

  predicate SameAccess(regs: seq<RegField>) {
    forall i :: 0 < i < |regs| ==> regs[i].access == regs[0].access
  }

  /**
   `_fuse_registers`: one register over the whole run when the words follow one another and agree on
   access, an error when they do not, and nothing for an empty list.
   */
  method FuseRegisters(regs: seq<RegField>) returns (r: Outcome<Option<RegField>>)
    ensures r.Good? <==> Contiguous(regs) && SameAccess(regs)
    ensures r.Good? ==> r.value == if regs == [] then None
                                   else Some(RegField(regs[0].offset, TotalSize(regs), regs[0].reset, regs[0].access))
    ensures r.Bad? ==> r.problem == Hole || r.problem == AccessDiffers
  {
    if regs == [] {
      return Good(None);
    }
    var fusereg, fsize := regs[0], regs[0].size;
    var i := 1;
    while i < |regs|
      invariant 1 <= i <= |regs|
      invariant fusereg.offset + fsize == regs[i - 1].offset + regs[i - 1].size
      invariant fsize + TotalSize(regs[i..]) == TotalSize(regs)
      invariant forall j :: 0 <= j < i - 1 ==> regs[j + 1].offset == regs[j].offset + regs[j].size
      invariant forall j :: 0 < j < i ==> regs[j].access == regs[0].access
    {
      var reg := regs[i];
      if reg.offset != fusereg.offset + fsize {
        assert regs[i - 1 + 1].offset != regs[i - 1].offset + regs[i - 1].size;
        return Bad(Hole);
      }
      if reg.access != fusereg.access {
        return Bad(AccessDiffers);
      }
      fsize := fsize + reg.size;
      assert regs[i..][1..] == regs[i + 1..];
      i := i + 1;
    }
    r := Good(Some(RegField(fusereg.offset, fsize, fusereg.reset, fusereg.access)));
  }

  predicate FitsOwnSize(f: RegField) {
    f.reset.Some? ==> f.reset.value < Pow2(f.size)
  }

  /** Adding pieces above a reset value only adds to it, and adds nothing exactly when they are all zero. */
  lemma {:induction false} ResetGrows(acc: RegField, rest: seq<RegField>)
    requires Contiguous([acc] + rest) && forall i :: 0 <= i < |rest| ==> rest[i].access == acc.access
    requires acc.reset.Some? && FitsOwnSize(acc) && forall i :: 0 <= i < |rest| ==> FitsOwnSize(rest[i])
    ensures FuseFrom(acc, rest).Ok? && FuseFrom(acc, rest).value.reset.Some?
    ensures var v := FuseFrom(acc, rest).value.reset.value;
            && v >= acc.reset.value
            && (v == acc.reset.value <==> forall i :: 0 <= i < |rest| ==> AddsNothing(rest[i]))
    decreases |rest|
  {
    if rest != [] {
      var run, next := [acc] + rest, rest[0];
      assert run[0 + 1].offset == run[0].offset + run[0].size;
      var acc' := acc.(size := acc.size + next.size, reset := JoinReset(acc.reset, next.reset, acc.size));
      JoinAdds(acc, next);
      forall i | 0 <= i < |rest| - 1 ensures ([acc'] + rest[1..])[i + 1].offset
                                          == ([acc'] + rest[1..])[i].offset + ([acc'] + rest[1..])[i].size {
        assert run[i + 1 + 1].offset == run[i + 1].offset + run[i + 1].size;
      }
      ResetGrows(acc', rest[1..]);
      assert (forall i :: 0 <= i < |rest| ==> AddsNothing(rest[i]))
        <==> AddsNothing(next) && forall i :: 0 <= i < |rest[1..]| ==> AddsNothing(rest[1..][i]) by {
        if AddsNothing(next) && forall i :: 0 <= i < |rest[1..]| ==> AddsNothing(rest[1..][i]) {
          forall i | 0 <= i < |rest| ensures AddsNothing(rest[i]) {
            if i > 0 {
              assert rest[1..][i - 1] == rest[i];
            }
          }
        }
      }
    }
  }

  predicate AddsNothing(f: RegField) {
    f.reset.Some? ==> f.reset.value == 0
  }

  lemma JoinAdds(acc: RegField, next: RegField)
    requires acc.reset.Some? && FitsOwnSize(acc) && FitsOwnSize(next)
    ensures var j := JoinReset(acc.reset, next.reset, acc.size);
            && j.Some? && j.value < Pow2(acc.size + next.size) && j.value >= acc.reset.value
            && (j.value == acc.reset.value <==> AddsNothing(next))
  {
    Pow2Grows(acc.size, acc.size + next.size);
    if next.reset.Some? {
      var v := Shl(next.reset.value, acc.size);
      OrAbove(acc.reset.value, next.reset.value, acc.size);
      ShlIsProduct(next.reset.value, acc.size);
      if next.reset.value > 0 {
        ProductSize(next.reset.value, Pow2(acc.size));
      }
      forall i: nat | i >= acc.size + next.size ensures !Bit(v, i) {
        BitOfShl(next.reset.value, acc.size, i);
        HighBitsClear(next.reset.value, next.size, i - acc.size);
      }
      FitsWhenHighBitsClear(v, acc.size + next.size);
      OrFits(acc.reset.value, v, acc.size + next.size);
    }
  }

  /**
   The reset value of a fused interrupt-controller register is that of its first word alone: the code
   that would add the others never runs. So it is the reset value of the whole register, as the
   general parser computes it, exactly when no later word adds anything to it: a zero adds nothing
   to a reset value, but it does make one where the first word has none.
   */
  lemma FusedResetIff(regs: seq<RegField>)
    requires regs != [] && Contiguous(regs) && SameAccess(regs)
    requires forall i :: 0 <= i < |regs| ==> FitsOwnSize(regs[i])
    ensures FuseRun(regs).Ok?
    ensures FuseRun(regs).value.reset == regs[0].reset
       <==> forall i :: 0 < i < |regs| ==> AddsNothing(regs[i]) && (regs[0].reset.None? ==> regs[i].reset.None?)
  {
    var rest := regs[1..];
    assert [regs[0]] + rest == regs;
    assert forall i :: 0 <= i < |rest| ==> rest[i] == regs[i + 1];
    assert forall i :: 0 < i < |regs| ==> regs[i] == rest[i - 1];
    if regs[0].reset.Some? {
      ResetGrows(regs[0], rest);
    } else {
      FuseIff(regs[0], rest);
      ResetAppears(regs[0], rest);
    }
  }

  /** A register without a reset value gets one as soon as one of its words has one, and keeps it. */
  lemma {:induction false} ResetAppears(acc: RegField, rest: seq<RegField>)
    requires FuseFrom(acc, rest).Ok?
    ensures FuseFrom(acc, rest).value.reset.None?
       <==> acc.reset.None? && forall i :: 0 <= i < |rest| ==> rest[i].reset.None?
    decreases |rest|
  {
    if rest != [] {
      var acc' := acc.(size := acc.size + rest[0].size, reset := JoinReset(acc.reset, rest[0].reset, acc.size));
      ResetAppears(acc', rest[1..]);
      assert (forall i :: 0 <= i < |rest| ==> rest[i].reset.None?)
        <==> rest[0].reset.None? && forall i :: 0 <= i < |rest[1..]| ==> rest[1..][i].reset.None? by {
        if rest[0].reset.None? && forall i :: 0 <= i < |rest[1..]| ==> rest[1..][i].reset.None? {
          forall i | 0 <= i < |rest| ensures rest[i].reset.None? {
            assert i > 0 ==> rest[1..][i - 1] == rest[i];
          }
        }
      }
    }
  }
}
