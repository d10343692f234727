/**
 Wide register fields: splitting them into words for the generated headers
 (scripts/omtools/om/generator.py) and fusing the pieces of a field back into one when a register
 map is parsed (scripts/omtools/om/parser.py).

 Offsets and sizes count bits. A register width is a power of two, 2^k bits, as the code's
 `offset & (width - 1)` alignment tests assume. Names are reduced to what the code compares: the
 radix of a field's name, that is, the name without its numeric suffixes.
 */
module RegFields {
  import opened Bits
  import opened Wrappers

  datatype Result<T> = Ok(value: T) | Err(error: Error)

  datatype Error = WideUnaligned | IncoherentAccess | Unsupported | AttributeError

  datatype Access = R | RW | W | OneToClear

  datatype RegField = RegField(offset: nat, size: nat, reset: Option<nat>, access: Option<Access>)

  datatype Named = Named(radix: nat, field: RegField)

  // ---- splitting ----

  function Min(a: nat, b: nat): nat {
    if a < b then a else b
  }

  /** The piece of f that starts `idx` bits in, when registers are w bits wide. */
  function PieceAt(f: RegField, w: nat, idx: nat): RegField
    requires idx < f.size
  {
    RegField(f.offset + idx,
             Min(w, f.size - idx),
             if f.reset.Some? then Some(Field(f.reset.value, idx, w)) else None,
             f.access)
  }

  function PiecesFrom(f: RegField, w: nat, idx: nat): seq<RegField>
    requires w > 0
    decreases if idx < f.size then f.size - idx else 0
  {
    if idx < f.size then [PieceAt(f, w, idx)] + PiecesFrom(f, w, idx + w) else []
  }

  /** The first position from `idx` on, in steps of w, that is not below `size`. */
  function RoundUp(size: nat, w: nat, idx: nat): (e: nat)
    requires w > 0
    ensures size <= e && (idx <= size ==> e < size + w)
    decreases if idx < size then size - idx else 0
  {
    if idx < size then RoundUp(size, w, idx + w) else idx
  }

  lemma NextMultiple(at: nat, w: nat)
    requires w > 0 && at % w == 0
    ensures (at + w) % w == 0
  {
    assert at == at / w * w + at % w;
    assert at + w == (at / w + 1) * w + 0;
    QuotientUnique(at + w, w, at / w + 1, 0);
  }

  /** The least multiple of w that is not below `size`: whole words that hold `size` bits. */
  predicate LeastMultiple(end: nat, size: nat, w: nat)
    requires w > 0
  {
    size <= end < size + w && end % w == 0
  }

  lemma WordsCover(size: nat, w: nat)
    requires w > 0
    ensures LeastMultiple(RoundUp(size, w, 0), size, w)
  {
    RoundUpIsMultiple(size, w, 0);
  }

  lemma {:induction false} RoundUpIsMultiple(size: nat, w: nat, idx: nat)
    requires w > 0 && idx % w == 0
    ensures RoundUp(size, w, idx) % w == 0
    decreases if idx < size then size - idx else 0
  {
    if idx < size {
      NextMultiple(idx, w);
      RoundUpIsMultiple(size, w, idx + w);
    }
  }

  /**
   `split_registers` on one field. A field that fits is kept; a wide one must start on a register
   boundary, and is cut into pieces that run from its first bit to its last.
   */
  method SplitField(f: RegField, k: nat) returns (r: Result<seq<RegField>>)
    ensures r == if f.size <= Pow2(k) then Ok([f])
                 else if f.offset % Pow2(k) != 0 then Err(WideUnaligned)
                 else Ok(PiecesFrom(f, Pow2(k), 0))
  {
    var bitsize := Pow2(k);
    MaskOps(f.offset, k);
    OnesIsPow2(k);
    if f.size <= bitsize {
      return Ok([f]);
    }
    if And(f.offset, Ones(k)) != 0 {
      return Err(WideUnaligned);
    }
    var pieces := CutPieces(f, bitsize);
    r := Ok(pieces);
  }

  /** The loop over the pieces of a wide field. */
  method CutPieces(f: RegField, bitsize: nat) returns (out: seq<RegField>)
    requires bitsize > 0
    ensures out == PiecesFrom(f, bitsize, 0)
  {
    var idx := 0;
    out := [];
    while idx < f.size
      invariant out + PiecesFrom(f, bitsize, idx) == PiecesFrom(f, bitsize, 0)
    {
      PieceAsWritten(f, bitsize, idx);
      var wreset := if f.reset.Some? then Some(And(Shr(f.reset.value, idx), Ones(bitsize))) else None;
      var piece := RegField(f.offset + idx, Min(bitsize, f.size - idx), wreset, f.access);
      assert out + PiecesFrom(f, bitsize, idx) == (out + [piece]) + PiecesFrom(f, bitsize, idx + bitsize);
      out, idx := out + [piece], idx + bitsize;
    }
    assert out + [] == out;
  }

  lemma PieceAsWritten(f: RegField, w: nat, idx: nat)
    requires idx < f.size
    ensures PieceAt(f, w, idx)
         == RegField(f.offset + idx, Min(w, f.size - idx),
                     if f.reset.Some? then Some(And(Shr(f.reset.value, idx), Ones(w))) else None, f.access)
  {
    if f.reset.Some? {
      MaskOps(Shr(f.reset.value, idx), w);
    }
  }

  /** Pieces that run on from bit `at` without a gap, each inside one w-bit word, up to bit `end`. */
  predicate Tile(pieces: seq<RegField>, w: nat, at: nat, end: nat)
    requires w > 0
    decreases |pieces|
  {
    if pieces == [] then at == end
    else
      && pieces[0].offset == at && 0 < pieces[0].size && at % w + pieces[0].size <= w
      && Tile(pieces[1..], w, at + pieces[0].size, end)
  }

  /** Splitting a word-aligned field tiles its bits, and no piece crosses a word boundary. */
  lemma {:induction false} SplitTiles(f: RegField, w: nat, idx: nat)
    requires w > 0 && (f.offset + idx) % w == 0
    ensures idx <= f.size ==> Tile(PiecesFrom(f, w, idx), w, f.offset + idx, f.offset + f.size)
    decreases if idx < f.size then f.size - idx else 0
  {
    if idx < f.size {
      NextMultiple(f.offset + idx, w);
      SplitTiles(f, w, idx + w);
      if f.size <= idx + w {
        assert PiecesFrom(f, w, idx + w) == [];
      }
      assert PiecesFrom(f, w, idx)[1..] == PiecesFrom(f, w, idx + w);
    }
  }

  lemma {:induction false} NthPiece(f: RegField, w: nat, idx: nat, i: nat)
    requires w > 0 && idx + i * w < f.size
    ensures i < |PiecesFrom(f, w, idx)| && PiecesFrom(f, w, idx)[i] == PieceAt(f, w, idx + i * w)
    decreases i
  {
    if i > 0 {
      assert idx + i * w == (idx + w) + (i - 1) * w;
      NthPiece(f, w, idx + w, i - 1);
      assert PiecesFrom(f, w, idx)[1..] == PiecesFrom(f, w, idx + w);
    }
  }

  /**
   Piece i of a wide field, in numbers: it starts i words in, is a whole word unless the field ends
   before, has the field's access, and resets to the i-th word of the field's reset value.
   */
  lemma PieceIs(f: RegField, w: nat, i: nat)
    requires w > 0 && i * w < f.size
    ensures i < |PiecesFrom(f, w, 0)|
    ensures var piece := PiecesFrom(f, w, 0)[i];
            && piece.offset == f.offset + i * w && piece.access == f.access
            && piece.size == (if f.size - i * w < w then f.size - i * w else w)
            && (piece.reset.Some? <==> f.reset.Some?)
            && (f.reset.Some? ==> piece.reset.value == f.reset.value / Pow2(i * w) % Pow2(w))
  {
    NthPiece(f, w, 0, i);
    if f.reset.Some? {
      ShrIsQuotient(f.reset.value, i * w);
      ShrIsQuotient(Shr(f.reset.value, i * w), w);
    }
  }

  // ---- fusing one run of pieces ----

  /** The reset value after a piece with reset `next` is added above the `nsize` bits so far. */
  function JoinReset(reset: Option<nat>, next: Option<nat>, nsize: nat): Option<nat> {
    if next.None? then reset
    else if reset.None? then Some(Shl(next.value, nsize))
    else Some(Or(reset.value, Shl(next.value, nsize)))
  }

  /** The result of fusing `acc` with the pieces that follow it. */
  function FuseFrom(acc: RegField, rest: seq<RegField>): Result<RegField>
    decreases |rest|
  {
    if rest == [] then Ok(acc)
    else if rest[0].offset != acc.offset + acc.size then Err(Unsupported)
    else if rest[0].access != acc.access then Err(IncoherentAccess)
    else
      FuseFrom(acc.(size := acc.size + rest[0].size, reset := JoinReset(acc.reset, rest[0].reset, acc.size)),
               rest[1..])
  }

  function FuseRun(run: seq<RegField>): Result<RegField>
    requires run != []
  {
    FuseFrom(run[0], run[1..])
  }

  method FusePieces(run: seq<RegField>) returns (r: Result<RegField>)
    requires run != []
    ensures r == FuseRun(run)
  {
    var breg, nreset := run[0], run[0].reset;
    var nsize: nat, i := run[0].size, 1;
    while i < |run|
      invariant 1 <= i <= |run|
      invariant FuseFrom(breg.(size := nsize, reset := nreset), run[i..]) == FuseRun(run)
    {
      var lreg := run[i];
      if lreg.offset == breg.offset + nsize {
        if lreg.access != breg.access {
          return Err(IncoherentAccess);
        }
        if lreg.reset.Some? {
          if nreset.None? {
            nreset := Some(Shl(lreg.reset.value, nsize));
          } else {
            nreset := Some(Or(nreset.value, Shl(lreg.reset.value, nsize)));
          }
        }
        nsize := nsize + lreg.size;
      } else {
        return Err(Unsupported);
      }
      assert run[i..][1..] == run[i + 1..];
      i := i + 1;
    }
    r := Ok(RegField(breg.offset, nsize, nreset, breg.access));
  }

  /** `exp_pos` tracking: may the run from here on be fused, when the previous piece ended at `pos`? */
  function FusibleFrom(run: seq<RegField>, pos: nat, k: nat): bool
    decreases |run|
  {
    if run == [] then true
    else if pos == 0 && run[0].offset % Pow2(k) != 0 then false
    else if pos != 0 && run[0].offset != pos then false
    else FusibleFrom(run[1..], run[0].offset + run[0].size, k)
  }

  method Fusible(run: seq<RegField>, k: nat) returns (fusion: bool)
    ensures fusion == FusibleFrom(run, 0, k)
  {
    fusion := true;
    var expPos: nat, i := 0, 0;
    while i < |run|
      invariant 0 <= i <= |run| && FusibleFrom(run, 0, k) == FusibleFrom(run[i..], expPos, k)
    {
      MaskOps(run[i].offset, k);
      if expPos == 0 && And(run[i].offset, Ones(k)) != 0 {
        return false;
      }
      if expPos != 0 && run[i].offset != expPos {
        return false;
      }
      expPos := run[i].offset + run[i].size;
      assert run[i..][1..] == run[i + 1..];
      i := i + 1;
    }
  }

  predicate Contiguous(run: seq<RegField>) {
    forall i :: 0 <= i < |run| - 1 ==> run[i + 1].offset == run[i].offset + run[i].size
  }

  /** A run of non-empty pieces is fusible exactly when it starts on a register boundary and has no gap. */
  lemma FusibleIff(run: seq<RegField>, k: nat)
    requires run != [] && forall i :: 0 <= i < |run| ==> run[i].size > 0
    ensures FusibleFrom(run, 0, k) <==> run[0].offset % Pow2(k) == 0 && Contiguous(run)
  {
    FollowsIff(run, k);
  }

  lemma {:induction false} FollowsIff(run: seq<RegField>, k: nat)
    requires run != [] && forall i :: 0 <= i < |run| ==> run[i].size > 0
    ensures FusibleFrom(run[1..], run[0].offset + run[0].size, k) <==> Contiguous(run)
    decreases |run|
  {
    var rest := run[1..];
    if rest != [] {
      FollowsIff(rest, k);
      assert Contiguous(run) <==> rest[0].offset == run[0].offset + run[0].size && Contiguous(rest) by {
        assert forall i :: 0 <= i < |rest| ==> rest[i] == run[i + 1];
        if rest[0].offset == run[0].offset + run[0].size && Contiguous(rest) {
          forall i | 0 <= i < |run| - 1 ensures run[i + 1].offset == run[i].offset + run[i].size {
            if i > 0 {
              assert rest[i - 1 + 1].offset == rest[i - 1].offset + rest[i - 1].size;
            }
          }
        }
        if Contiguous(run) {
          forall i | 0 <= i < |rest| - 1 ensures rest[i + 1].offset == rest[i].offset + rest[i].size {
            assert run[i + 1 + 1].offset == run[i + 1].offset + run[i + 1].size;
          }
          assert run[0 + 1].offset == run[0].offset + run[0].size;
        }
      }
    }
  }

  function TotalSize(run: seq<RegField>): nat {
    if run == [] then 0 else run[0].size + TotalSize(run[1..])
  }

  /**
   A contiguous run fuses exactly when its access modes agree, into one field that starts where the
   run starts and covers all of it.
   */
  lemma {:induction false} FuseIff(acc: RegField, rest: seq<RegField>)
    requires Contiguous([acc] + rest)
    ensures FuseFrom(acc, rest).Ok? <==> forall i :: 0 <= i < |rest| ==> rest[i].access == acc.access
    ensures FuseFrom(acc, rest).Ok? ==>
              var r := FuseFrom(acc, rest).value;
              r.offset == acc.offset && r.size == acc.size + TotalSize(rest) && r.access == acc.access
    ensures FuseFrom(acc, rest).Err? ==> FuseFrom(acc, rest).error == IncoherentAccess
    decreases |rest|
  {
    if rest != [] {
      var run := [acc] + rest;
      assert run[0 + 1].offset == run[0].offset + run[0].size;
      var acc' := acc.(size := acc.size + rest[0].size, reset := JoinReset(acc.reset, rest[0].reset, acc.size));
      var run' := [acc'] + rest[1..];
      forall i | 0 <= i < |run'| - 1 ensures run'[i + 1].offset == run'[i].offset + run'[i].size {
        assert run[i + 1 + 1].offset == run[i + 1].offset + run[i + 1].size;
      }
      FuseIff(acc', rest[1..]);
      assert forall i :: 0 <= i < |rest| - 1 ==> rest[1..][i] == rest[i + 1];
      if rest[0].access == acc.access && forall i :: 0 <= i < |rest| - 1 ==> rest[1..][i].access == acc.access {
        forall i | 0 <= i < |rest| ensures rest[i].access == acc.access {
          if i > 0 {
            assert rest[1..][i - 1] == rest[i];
          }
        }
      }
    }
  }

  /** Bit b of a field's reset value, when it has one. */
  predicate ResetBit(f: RegField, b: nat) {
    f.reset.Some? && Bit(f.reset.value, b)
  }

  /** The bit at position `at` of the register map is one of the field's, and its reset value is one. */
  predicate ResetsAt(f: RegField, at: nat) {
    at >= f.offset && ResetBit(f, at - f.offset)
  }

  lemma {:induction false} FusedBit(acc: RegField, rest: seq<RegField>, b: nat)
    requires FuseFrom(acc, rest).Ok?
    ensures ResetBit(FuseFrom(acc, rest).value, b)
       <==> ResetBit(acc, b) || exists j :: 0 <= j < |rest| && ResetsAt(rest[j], acc.offset + b)
    ensures FuseFrom(acc, rest).value.reset.Some?
       <==> acc.reset.Some? || exists j :: 0 <= j < |rest| && rest[j].reset.Some?
    decreases |rest|
  {
    if rest != [] {
      var next := rest[0];
      var acc' := acc.(size := acc.size + next.size, reset := JoinReset(acc.reset, next.reset, acc.size));
      FusedBit(acc', rest[1..], b);
      JoinBit(acc, next, b);
      assert rest == [next] + rest[1..];
      forall j | 0 <= j < |rest[1..]| ensures rest[1..][j] == rest[j + 1] {
      }
    }
  }

  lemma JoinBit(acc: RegField, next: RegField, b: nat)
    requires next.offset == acc.offset + acc.size
    ensures ResetBit(acc.(reset := JoinReset(acc.reset, next.reset, acc.size)), b)
       <==> ResetBit(acc, b) || ResetsAt(next, acc.offset + b)
  {
    if next.reset.Some? {
      BitOfShl(next.reset.value, acc.size, b);
      if acc.reset.Some? {
        BitOfOr(acc.reset.value, Shl(next.reset.value, acc.size), b);
      }
    }
  }

  /**
   The fused field resets each bit as the pieces do: a bit of its reset value is one exactly when some
   piece's reset value has a one there, and it has a reset value exactly when some piece has one.
   */
  lemma FusedResetBits(run: seq<RegField>, b: nat)
    requires run != [] && FuseRun(run).Ok?
    ensures ResetBit(FuseRun(run).value, b) <==> exists j :: 0 <= j < |run| && ResetsAt(run[j], run[0].offset + b)
    ensures FuseRun(run).value.reset.Some? <==> exists j :: 0 <= j < |run| && run[j].reset.Some?
  {
    FusedBit(run[0], run[1..], b);
    assert run == [run[0]] + run[1..];
    forall j | 0 <= j < |run[1..]| ensures run[1..][j] == run[j + 1] {
    }
    if ResetBit(run[0], b) {
      assert ResetsAt(run[0], run[0].offset + b);
    }
  }

  // ---- fusing the pieces of one field ----

  /** Adding a word of reset bits above the low idx bits gives the low idx + w bits. */
  lemma JoinLow(v: nat, idx: nat, w: nat)
    ensures Or(Low(v, idx), Shl(Field(v, idx, w), idx)) == Low(v, idx + w)
  {
    var a, b := Or(Low(v, idx), Shl(Field(v, idx, w), idx)), Low(v, idx + w);
    forall i: nat ensures Bit(a, i) == Bit(b, i) {
      BitOfOr(Low(v, idx), Shl(Field(v, idx, w), idx), i);
      BitOfLow(v, idx, i);
      BitOfLow(v, idx + w, i);
      BitOfShl(Field(v, idx, w), idx, i);
      if i >= idx {
        BitOfField(v, idx, w, i - idx);
      }
    }
    Extensional(a, b);
  }

  /** Cut a reset value to n bits. */
  function CutReset(reset: Option<nat>, n: nat): Option<nat> {
    if reset.Some? then Some(Low(reset.value, n)) else None
  }

  lemma {:induction false} FusePiecesFrom(f: RegField, w: nat, idx: nat)
    requires 0 < w <= idx
    ensures FuseFrom(f.(size := if idx < f.size then idx else f.size, reset := CutReset(f.reset, idx)),
                     PiecesFrom(f, w, idx))
         == Ok(f.(reset := CutReset(f.reset, RoundUp(f.size, w, idx))))
    decreases if idx < f.size then f.size - idx else 0
  {
    if idx < f.size {
      var acc := f.(size := idx, reset := CutReset(f.reset, idx));
      var piece, rest := PieceAt(f, w, idx), PiecesFrom(f, w, idx + w);
      assert PiecesFrom(f, w, idx)[1..] == rest;
      if f.reset.Some? {
        JoinLow(f.reset.value, idx, w);
      }
      assert JoinReset(acc.reset, piece.reset, idx) == CutReset(f.reset, idx + w);
      assert idx + piece.size == if idx + w < f.size then idx + w else f.size;
      FusePiecesFrom(f, w, idx + w);
    }
  }

  /** A wide field has more than one piece, so its pieces are considered for fusion at all. */
  lemma WideHasPieces(f: RegField, w: nat)
    requires 0 < w < f.size
    ensures |PiecesFrom(f, w, 0)| >= 2
  {
    assert |PiecesFrom(f, w, w)| >= 1;
  }

  lemma {:induction false} PiecesContiguous(f: RegField, w: nat, idx: nat)
    requires w > 0
    ensures var pieces := PiecesFrom(f, w, idx);
            && (forall i :: 0 <= i < |pieces| ==> pieces[i].size > 0) && Contiguous(pieces)
            && (idx < f.size ==> pieces != [] && pieces[0] == PieceAt(f, w, idx))
    decreases if idx < f.size then f.size - idx else 0
  {
    if idx < f.size {
      var pieces, rest := PiecesFrom(f, w, idx), PiecesFrom(f, w, idx + w);
      PiecesContiguous(f, w, idx + w);
      forall i | 0 <= i < |pieces| - 1 ensures pieces[i + 1].offset == pieces[i].offset + pieces[i].size {
        if i > 0 {
          assert rest[i - 1 + 1].offset == rest[i - 1].offset + rest[i - 1].size;
        }
      }
    }
  }

  // ---- fusing a whole group ----

  type Run = s: seq<RegField> | s != [] witness [RegField(0, 1, None, None)]

  datatype Candidate = Candidate(radix: nat, run: Run)

  function Tagged(c: Candidate): seq<Named> {
    seq(|c.run|, i requires 0 <= i < |c.run| => Named(c.radix, c.run[i]))
  }

  /** The fields of all candidates, in order. */
  function Members(cands: seq<Candidate>): seq<Named> {
    if cands == [] then [] else Members(cands[..|cands| - 1]) + Tagged(cands[|cands| - 1])
  }

  predicate NeighboursDiffer(cands: seq<Candidate>) {
    forall j :: 0 < j < |cands| ==> cands[j].radix != cands[j - 1].radix
  }

  /**
   Gather neighbours with the same radix: every field lands in exactly one candidate, in order, and
   neighbouring candidates have different radices.
   */
  method GatherRadices(group: seq<Named>) returns (cands: seq<Candidate>)
    ensures Members(cands) == group && NeighboursDiffer(cands)
  {
    cands := [];
    for i := 0 to |group|
      invariant Members(cands) == group[..i] && NeighboursDiffer(cands)
    {
      var n := |cands|;
      if n == 0 || cands[n - 1].radix != group[i].radix {
        var c := Candidate(group[i].radix, [group[i].field]);
        assert (cands + [c])[..n] == cands && Tagged(c) == [group[i]];
        cands := cands + [c];
      } else {
        var c := cands[n - 1].(run := cands[n - 1].run + [group[i].field]);
        assert Tagged(c) == Tagged(cands[n - 1]) + [group[i]];
        assert (cands[..n - 1] + [c])[..n - 1] == cands[..n - 1];
        cands := cands[..n - 1] + [c];
      }
    }
  }

  /**
   The loop over the runs, as written: a run that cannot be fused ends the loop, and fusing walks
   over everything stored so far, which fails on a field stored before.
   */
  function FuseLoop(runs: seq<Run>, out: seq<RegField>, k: nat): Result<seq<RegField>>
    decreases |runs|
  {
    if runs == [] then Ok(out)
    else if |runs[0]| == 1 then FuseLoop(runs[1..], out + runs[0], k)
    else if !FusibleFrom(runs[0], 0, k) then Ok(out + runs[0])
    else if out != [] then Err(AttributeError)
    else
      match FuseRun(runs[0])
      case Ok(r) => FuseLoop(runs[1..], [r], k)
      case Err(e) => Err(e)
  }

  method FuseGroup(runs: seq<Run>, k: nat) returns (r: Result<seq<RegField>>)
    ensures r == FuseLoop(runs, [], k)
  {
    var out: seq<RegField>, i := [], 0;
    while i < |runs|
      invariant 0 <= i <= |runs| && FuseLoop(runs[i..], out, k) == FuseLoop(runs, [], k)
    {
      var run := runs[i];
      assert runs[i..][0] == run && runs[i..][1..] == runs[i + 1..];
      i := i + 1;
      if |run| == 1 {
        out := out + run;
        continue;
      }
      var fusion := Fusible(run, k);
      if !fusion {
        out := out + run;
        return Ok(out);
      }
      if out != [] {
        return Err(AttributeError);
      }
      var fused := FusePieces(run);
      if fused.Err? {
        return Err(fused.error);
      }
      out := [fused.value];
    }
    r := Ok(out);
  }

  /** A run that the parser means to fuse. */
  predicate ToFuse(run: Run, k: nat) {
    |run| > 1 && FusibleFrom(run, 0, k)
  }

  /** What fusing is for: every fusible run becomes one field, and every other field is kept. */
  function Intended(runs: seq<Run>, k: nat): Result<seq<RegField>>
    decreases |runs|
  {
    if runs == [] then Ok([])
    else
      match (if ToFuse(runs[0], k) then Fused(runs[0]) else Ok(runs[0]), Intended(runs[1..], k))
      case (Err(e), _) => Err(e)
      case (_, Err(e)) => Err(e)
      case (Ok(a), Ok(b)) => Ok(a + b)
  }

  function Fused(run: Run): Result<seq<RegField>> {
    match FuseRun(run)
    case Ok(r) => Ok([r])
    case Err(e) => Err(e)
  }

  /** A run after which nothing more may come: more than one field, and not fusible. */
  predicate Stops(run: Run, k: nat) {
    |run| > 1 && !FusibleFrom(run, 0, k)
  }

  predicate StopsOnlyAtEnd(runs: seq<Run>, k: nat) {
    forall i :: 0 <= i < |runs| - 1 ==> !Stops(runs[i], k)
  }

  predicate NoneToFuse(runs: seq<Run>, k: nat) {
    forall i :: 0 <= i < |runs| ==> !ToFuse(runs[i], k)
  }

  /**
   Parsing a group gives what is intended exactly when only the first run is to be fused, and a
   multi-field run that cannot be fused comes last. Otherwise it fails or drops fields.
   */
  lemma FuseGroupIff(runs: seq<Run>, k: nat)
    requires Intended(runs, k).Ok?
    ensures FuseLoop(runs, [], k) == Intended(runs, k)
       <==> StopsOnlyAtEnd(runs, k) && (runs != [] ==> NoneToFuse(runs[1..], k))
  {
    if runs != [] {
      var first := runs[0];
      if ToFuse(first, k) {
        LoopIff(runs[1..], [FuseRun(first).value], k);
        StopsTail(runs, k);
      } else if Stops(first, k) {
        IntendedLength(runs[1..], k);
        assert FuseLoop(runs, [], k) == Ok([] + first) && [] + first == first == first + [];
        if |runs| > 1 {
          assert !StopsOnlyAtEnd(runs, k);
          assert |first| < |Intended(runs, k).value|;
        } else {
          assert runs[1..] == [];
        }
      } else {
        assert [] + first == first;
        LoopIff(runs[1..], first, k);
        StopsTail(runs, k);
      }
    }
  }

  /** The loop gets as far as run i: no earlier run ends it. */
  predicate Reached(runs: seq<Run>, i: nat, k: nat) {
    i < |runs| && forall j :: 0 <= j < i ==> !Stops(runs[j], k)
  }

  predicate ReachesToFuse(runs: seq<Run>, first: nat, k: nat) {
    exists i :: first <= i < |runs| && Reached(runs, i, k) && ToFuse(runs[i], k)
  }

  /** Once something is stored, the loop fails exactly when it gets to a run to be fused. */
  lemma {:induction false} LoopErrIff(runs: seq<Run>, out: seq<RegField>, k: nat)
    requires out != []
    ensures FuseLoop(runs, out, k).Err? <==> ReachesToFuse(runs, 0, k)
    ensures FuseLoop(runs, out, k).Err? ==> FuseLoop(runs, out, k).error == AttributeError
    decreases |runs|
  {
    if runs != [] {
      var rest := runs[1..];
      if ToFuse(runs[0], k) {
        assert Reached(runs, 0, k);
      } else if !Stops(runs[0], k) {
        LoopErrIff(rest, out + runs[0], k);
        ReachedTail(runs, k);
      }
    }
  }

  lemma ReachedTail(runs: seq<Run>, k: nat)
    requires runs != [] && !Stops(runs[0], k)
    ensures ReachesToFuse(runs[1..], 0, k) <==> ReachesToFuse(runs, 1, k)
  {
    var rest := runs[1..];
    if ReachesToFuse(rest, 0, k) {
      var i :| 0 <= i < |rest| && Reached(rest, i, k) && ToFuse(rest[i], k);
      forall j | 0 <= j < i + 1 ensures !Stops(runs[j], k) {
        assert j > 0 ==> rest[j - 1] == runs[j];
      }
      assert Reached(runs, i + 1, k) && ToFuse(runs[i + 1], k);
    }
    if ReachesToFuse(runs, 1, k) {
      var i :| 1 <= i < |runs| && Reached(runs, i, k) && ToFuse(runs[i], k);
      forall j | 0 <= j < i - 1 ensures !Stops(rest[j], k) {
        assert rest[j] == runs[j + 1];
      }
      assert Reached(rest, i - 1, k) && ToFuse(rest[i - 1], k);
    }
  }

  predicate SameModes(run: seq<RegField>) {
    forall i :: 0 <= i < |run| ==> run[i].access == run[0].access
  }

  /** A run to be fused fails exactly when its access modes differ. */
  lemma FusionFailsIff(run: Run, k: nat)
    requires ToFuse(run, k) && forall i :: 0 <= i < |run| ==> run[i].size > 0
    ensures FuseRun(run) == Err(IncoherentAccess) <==> !SameModes(run)
    ensures FuseRun(run).Ok? <==> SameModes(run)
  {
    FusibleIff(run, k);
    var rest := run[1..];
    assert [run[0]] + rest == run;
    FuseIff(run[0], rest);
    assert forall i :: 0 <= i < |rest| ==> rest[i] == run[i + 1];
    if forall i :: 0 <= i < |rest| ==> rest[i].access == run[0].access {
      forall i | 0 <= i < |run| ensures run[i].access == run[0].access {
        assert i > 0 ==> rest[i - 1] == run[i];
      }
    }
  }

  /**
   When a group fails: with incoherent access modes if the first run is to be fused and its modes
   differ; else with an attribute error if the loop reaches a later run to be fused; else never.
   */
  lemma GroupFailsIff(runs: seq<Run>, k: nat)
    requires forall i, j :: 0 <= i < |runs| && 0 <= j < |runs[i]| ==> runs[i][j].size > 0
    ensures var incoherent := runs != [] && ToFuse(runs[0], k) && !SameModes(runs[0]);
            var r := FuseLoop(runs, [], k);
            && (r == Err(IncoherentAccess) <==> incoherent)
            && (r == Err(AttributeError) <==> !incoherent && ReachesToFuse(runs, 1, k))
            && (r.Ok? <==> !incoherent && !ReachesToFuse(runs, 1, k))
  {
    if runs != [] {
      var first := runs[0];
      if ToFuse(first, k) {
        FusionFailsIff(first, k);
        ReachedTail(runs, k);
        if SameModes(first) {
          LoopErrIff(runs[1..], [FuseRun(first).value], k);
        }
      } else if Stops(first, k) {
        assert forall i :: 1 <= i < |runs| ==> !Reached(runs, i, k);
      } else {
        assert [] + first == first;
        LoopErrIff(runs[1..], first, k);
        ReachedTail(runs, k);
      }
    }
  }

  /** What comes after a run that ends the loop does not matter. */
  lemma {:induction false} StopCuts(runs: seq<Run>, out: seq<RegField>, k: nat, n: nat)
    requires Reached(runs, n, k) && Stops(runs[n], k)
    ensures FuseLoop(runs, out, k) == FuseLoop(runs[..n + 1], out, k)
    decreases |runs|
  {
    var cut := runs[..n + 1];
    assert cut[0] == runs[0];
    if n > 0 {
      var rest := runs[1..];
      assert cut[1..] == rest[..n] && rest[n - 1] == runs[n];
      forall j | 0 <= j < n - 1 ensures !Stops(rest[j], k) {
        assert rest[j] == runs[j + 1];
      }
      if |runs[0]| == 1 {
        StopCuts(rest, out + runs[0], k, n - 1);
      } else if out == [] && FuseRun(runs[0]).Ok? {
        StopCuts(rest, [FuseRun(runs[0]).value], k, n - 1);
      }
    }
  }

  function Plain(offset: nat): RegField {
    RegField(offset, 8, None, None)
  }

  /** Eight-bit fields at 0, 8 and 16: with the last two the pieces of one field, the group is refused. */
  lemma GroupRefused()
    ensures FuseLoop([[Plain(0)], [Plain(8), Plain(16)]], [], 3) == Err(AttributeError)
    ensures Intended([[Plain(0)], [Plain(8), Plain(16)]], 3) == Ok([Plain(0), RegField(8, 16, None, None)])
  {
    var a, bc := [Plain(0)], [Plain(8), Plain(16)];
    var runs: seq<Run> := [a, bc];
    FusibleIff(bc, 3);
    assert Pow2(3) == 8 && Contiguous(bc);
    assert bc[1..] == [Plain(16)] && FuseRun(bc) == FuseFrom(Plain(8), [Plain(16)]);
    assert FuseRun(bc) == Ok(RegField(8, 16, None, None));
    assert runs[1..] == [bc] && runs[1..][1..] == [];
    assert FuseLoop(runs, [], 3) == FuseLoop([bc], [] + a, 3);
    assert Intended([bc], 3) == Ok([RegField(8, 16, None, None)] + []);
    assert a + ([RegField(8, 16, None, None)] + []) == [Plain(0), RegField(8, 16, None, None)];
  }

  /** Eight-bit fields at 4, 12 and 32, the first two gathered: they cannot be fused, and the third is dropped. */
  lemma GroupCut()
    ensures FuseLoop([[Plain(4), Plain(12)], [Plain(32)]], [], 3) == Ok([Plain(4), Plain(12)])
    ensures Intended([[Plain(4), Plain(12)], [Plain(32)]], 3) == Ok([Plain(4), Plain(12), Plain(32)])
  {
    var ab, c := [Plain(4), Plain(12)], [Plain(32)];
    var runs: seq<Run> := [ab, c];
    FusibleIff(ab, 3);
    assert Pow2(3) == 8;
    assert runs[1..] == [c] && runs[1..][1..] == [];
    assert FuseLoop(runs, [], 3) == Ok([] + ab) && [] + ab == ab;
    assert Intended([c], 3) == Ok(c + []) && ab + (c + []) == [Plain(4), Plain(12), Plain(32)];
  }

  lemma StopsTail(runs: seq<Run>, k: nat)
    requires runs != [] && !Stops(runs[0], k)
    ensures StopsOnlyAtEnd(runs, k) <==> StopsOnlyAtEnd(runs[1..], k)
  {
    var rest := runs[1..];
    if StopsOnlyAtEnd(rest, k) {
      forall i | 0 <= i < |runs| - 1 ensures !Stops(runs[i], k) {
        if i > 0 {
          assert rest[i - 1] == runs[i];
        }
      }
    }
  }

  lemma {:induction false} LoopIff(runs: seq<Run>, out: seq<RegField>, k: nat)
    requires out != [] && Intended(runs, k).Ok?
    ensures FuseLoop(runs, out, k) == Ok(out + Intended(runs, k).value)
       <==> StopsOnlyAtEnd(runs, k) && NoneToFuse(runs, k)
    decreases |runs|
  {
    if runs == [] {
      assert out + [] == out;
    } else {
      var first, rest := runs[0], runs[1..];
      IntendedLength(rest, k);
      if ToFuse(first, k) {
        assert !NoneToFuse(runs, k);
      } else if Stops(first, k) {
        if |runs| > 1 {
          assert !StopsOnlyAtEnd(runs, k);
          assert |out + first| < |out + Intended(runs, k).value|;
        } else {
          assert rest == [] && Intended(runs, k).value == first + [] == first;
        }
      } else {
        LoopIff(rest, out + first, k);
        assert (out + first) + Intended(rest, k).value == out + (first + Intended(rest, k).value);
        StopsTail(runs, k);
        assert NoneToFuse(runs, k) <==> NoneToFuse(rest, k) by {
          if NoneToFuse(rest, k) {
            forall i | 0 <= i < |runs| ensures !ToFuse(runs[i], k) {
              if i > 0 {
                assert rest[i - 1] == runs[i];
              }
            }
          }
        }
      }
    }
  }

  lemma {:induction false} IntendedLength(runs: seq<Run>, k: nat)
    requires Intended(runs, k).Ok?
    ensures |Intended(runs, k).value| >= |runs|
    decreases |runs|
  {
    if runs != [] {
      IntendedLength(runs[1..], k);
    }
  }

  // ---- splitting and parsing back ----

  /**
   The round trip. For a wide field split into 2^k-bit words and parsed with 2^p-bit registers:
   the pieces are fused exactly when the field starts on a 2^p-bit boundary, and fusing them gives
   back the offset, size and access; otherwise they are kept as they are. The reset value comes back
   cut to whole words, so the field itself comes back exactly when its reset value fits in the
   words it occupies.
   */
  lemma RoundTrip(f: RegField, k: nat, p: nat)
    requires f.size > Pow2(k)
    ensures var pieces, end := PiecesFrom(f, Pow2(k), 0), RoundUp(f.size, Pow2(k), 0);
            && |pieces| >= 2 && LeastMultiple(end, f.size, Pow2(k))
            && FuseRun(pieces) == Ok(f.(reset := CutReset(f.reset, end)))
            && FuseLoop([pieces], [], p)
               == Ok(if f.offset % Pow2(p) == 0 then [f.(reset := CutReset(f.reset, end))] else pieces)
            && (FuseRun(pieces) == Ok(f) <==> (f.reset.Some? ==> f.reset.value < Pow2(end)))
  {
    var w := Pow2(k);
    var pieces := PiecesFrom(f, w, 0);
    FusePieceRun(f, w);
    WordsCover(f.size, w);
    PiecesContiguous(f, w, 0);
    OneRunLoop(pieces, p);
    ResetFits(f, RoundUp(f.size, w, 0));
  }

  /** All pieces of a wide field fuse into the field, its reset value cut to whole words. */
  lemma FusePieceRun(f: RegField, w: nat)
    requires 0 < w < f.size
    ensures |PiecesFrom(f, w, 0)| >= 2
    ensures FuseRun(PiecesFrom(f, w, 0)) == Ok(f.(reset := CutReset(f.reset, RoundUp(f.size, w, 0))))
  {
    WideHasPieces(f, w);
    assert PiecesFrom(f, w, 0)[1..] == PiecesFrom(f, w, w);
    assert f.reset.Some? ==> Shr(f.reset.value, 0) == f.reset.value;
    FusePiecesFrom(f, w, w);
  }

  lemma ResetFits(f: RegField, end: nat)
    ensures f.(reset := CutReset(f.reset, end)) == f <==> (f.reset.Some? ==> f.reset.value < Pow2(end))
  {
    if f.reset.Some? {
      LowFixesIffFits(f.reset.value, end);
    }
  }

  /** A group that is one run of pieces: fused when it starts on the parser's boundary, kept otherwise. */
  lemma OneRunLoop(pieces: Run, p: nat)
    requires |pieces| >= 2 && Contiguous(pieces) && forall i :: 0 <= i < |pieces| ==> pieces[i].size > 0
    requires FuseRun(pieces).Ok?
    ensures FuseLoop([pieces], [], p) == Ok(if pieces[0].offset % Pow2(p) == 0 then [FuseRun(pieces).value] else pieces)
  {
    FusibleIff(pieces, p);
    var runs: seq<Run> := [pieces];
    assert runs[0] == pieces && runs[1..] == [] && [] + pieces == pieces;
  }

  /** A reset value within the field's own size always comes back. */
  lemma ResetWithinSize(f: RegField, k: nat)
    requires f.size > Pow2(k) && f.reset.Some? && f.reset.value < Pow2(f.size)
    ensures FuseRun(PiecesFrom(f, Pow2(k), 0)) == Ok(f)
  {
    RoundTrip(f, k, k);
    Pow2Grows(f.size, RoundUp(f.size, Pow2(k), 0));
  }

  /** Fields that all share a radix make a single candidate. */
  lemma OneRadix(cands: seq<Candidate>, radix: nat, pieces: Run)
    requires NeighboursDiffer(cands) && Members(cands) == Tagged(Candidate(radix, pieces))
    ensures cands == [Candidate(radix, pieces)]
  {
    var group, n := Tagged(Candidate(radix, pieces)), |cands| - 1;
    assert group[0].radix == radix;
    assert group == Members(cands[..n]) + Tagged(cands[n]);
    if n > 0 {
      SharedRadix(cands[..n], cands[n], group, radix);
      assert false;
    }
    TaggedInjective(cands[0], Candidate(radix, pieces));
  }

  /** Two neighbours in a group of one radix have that radix. */
  lemma SharedRadix(before: seq<Candidate>, last: Candidate, group: seq<Named>, radix: nat)
    requires before != [] && group == Members(before) + Tagged(last)
    requires forall i :: 0 <= i < |group| ==> group[i].radix == radix
    ensures before[|before| - 1].radix == radix == last.radix
  {
    LastMember(before);
    var m := |Members(before)|;
    assert group[m - 1] == Members(before)[m - 1];
    assert group[m] == Tagged(last)[0];
  }

  lemma TaggedInjective(a: Candidate, b: Candidate)
    requires Tagged(a) == Tagged(b)
    ensures a == b
  {
    assert Tagged(a)[0] == Tagged(b)[0];
    assert |a.run| == |Tagged(a)| == |Tagged(b)| == |b.run|;
    forall i | 0 <= i < |a.run| ensures a.run[i] == b.run[i] {
      assert Tagged(a)[i] == Tagged(b)[i];
    }
    assert a.run == b.run;
  }

  lemma LastMember(cands: seq<Candidate>)
    ensures cands != [] ==>
              Members(cands) != [] && Members(cands)[|Members(cands)| - 1].radix == cands[|cands| - 1].radix
  {
    if cands != [] {
      var last := cands[|cands| - 1];
      assert Tagged(last)[|last.run| - 1].radix == last.radix;
    }
  }

  /**
   The generator's split followed by the parser, end to end: a wide field on a register boundary
   comes back whole, and one that is not on the parser's boundary stays in its pieces.
   */
  method SplitAndParse(f: RegField, radix: nat, k: nat, p: nat) returns (r: Result<seq<RegField>>)
    requires f.size > Pow2(k)
    ensures f.offset % Pow2(k) != 0 ==> r == Err(WideUnaligned)
    ensures f.offset % Pow2(k) == 0 ==>
      var end := RoundUp(f.size, Pow2(k), 0);
      r == Ok(if f.offset % Pow2(p) == 0 then [f.(reset := CutReset(f.reset, end))] else PiecesFrom(f, Pow2(k), 0))
  {
    var split := SplitField(f, k);
    if split.Err? {
      return Err(split.error);
    }
    RoundTrip(f, k, p);
    ghost var pieces := PiecesFrom(f, Pow2(k), 0);
    var group := seq(|split.value|, i requires 0 <= i < |split.value| => Named(radix, split.value[i]));
    assert group == Tagged(Candidate(radix, pieces));
    var cands := GatherRadices(group);
    OneRadix(cands, radix, pieces);
    var runs: seq<Run> := [cands[0].run];
    r := FuseGroup(runs, p);
  }
}
