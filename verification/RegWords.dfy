/**
 Fields within register words: partitioning a group of fields by word
 (scripts/omtools/om/parser.py) and laying the fields of a word out as a padded list of bitfields
 (scripts/omtools/om/generator.py).
 */
module RegWords {
  import opened Bits
  import opened RegFields
  import opened Wrappers

  function End(f: RegField): nat {
    f.offset + f.size
  }

  function Word(f: RegField, w: nat): nat
    requires w > 0
  {
    f.offset / w
  }

  /** The field runs past the end of the word it starts in. */
  predicate Crosses(f: RegField, w: nat)
    requires w > 0
  {
    f.offset % w + f.size > w
  }

  predicate SortedByOffset(fields: seq<RegField>) {
    forall i :: 0 < i < |fields| ==> fields[i - 1].offset <= fields[i].offset
  }

  function Concat(groups: seq<seq<RegField>>): seq<RegField> {
    if groups == [] then [] else Concat(groups[..|groups| - 1]) + groups[|groups| - 1]
  }

  /** A group holds at least one field, all of them in one word and none crossing its end. */
  predicate OneWord(g: seq<RegField>, w: nat)
    requires w > 0
  {
    g != [] && forall i :: 0 <= i < |g| ==> Word(g[i], w) == Word(g[0], w) && !Crosses(g[i], w)
  }

  /** One group for each word, in order of the words. */
  predicate ByWord(groups: seq<seq<RegField>>, w: nat)
    requires w > 0
  {
    && (forall j :: 0 <= j < |groups| ==> OneWord(groups[j], w))
    && (forall j :: 0 < j < |groups| ==> Word(groups[j - 1][0], w) < Word(groups[j][0], w))
  }

  /** A position is less than w above a multiple of w, not below it, exactly when it is in that word. */
  lemma SameWord(x: nat, base: nat, w: nat)
    requires w > 0 && base % w == 0 && base <= x
    ensures x - base < w <==> x / w == base / w
    ensures x - base < w ==> x - base == x % w
    ensures x / w >= base / w
  {
    assert x == x / w * w + x % w && base == base / w * w;
    var d := x / w - base / w;
    assert x - base == d * w + x % w by {
      assert d * w == x / w * w - base / w * w;
    }
    ProductSize(d, w);
  }

  lemma FloorMultiple(x: nat, w: nat)
    requires w > 0
    ensures x % w <= x && (x - x % w) % w == 0 && (x - x % w) / w == x / w
  {
    assert x - x % w == x / w * w + 0;
    QuotientUnique(x - x % w, w, x / w, 0);
  }

  /** Rounding down to a multiple of 2^k stays in the same word. */
  lemma AlignDown(x: nat, k: nat)
    ensures var base := AndNot(x, Ones(k)); base <= x && IsBase(base, x, Pow2(k)) && base == x - x % Pow2(k)
  {
    MaskOps(x, k);
    FloorMultiple(x, Pow2(k));
  }

  /** `base` is the start of the word that holds bit x. */
  predicate IsBase(base: nat, x: nat, w: nat)
    requires w > 0
  {
    base <= x && base % w == 0 && base / w == x / w
  }

  /** The groups closed so far, and the one being filled for the word that starts at `base`. */
  ghost predicate Progress(groups: seq<seq<RegField>>, cur: seq<RegField>, base: nat, w: nat)
    requires w > 0
  {
    && ByWord(groups, w)
    && OneWord(cur, w) && IsBase(base, cur[0].offset, w) && base <= cur[|cur| - 1].offset
    && (groups != [] ==> Word(groups[|groups| - 1][0], w) < Word(cur[0], w))
  }

  lemma StartFirst(f: RegField, base: nat, w: nat)
    requires w > 0 && IsBase(base, f.offset, w)
    ensures Crosses(f, w) <==> f.offset - base + f.size > w
    ensures !Crosses(f, w) ==> Progress([], [f], base, w)
  {
    SameWord(f.offset, base, w);
  }

  lemma AddToCurrent(groups: seq<seq<RegField>>, cur: seq<RegField>, base: nat, w: nat, f: RegField)
    requires w > 0 && Progress(groups, cur, base, w)
    requires cur[|cur| - 1].offset <= f.offset < base + w
    ensures Crosses(f, w) <==> f.offset - base + f.size > w
    ensures !Crosses(f, w) ==> Progress(groups, cur + [f], base, w)
  {
    SameWord(f.offset, base, w);
    if !Crosses(f, w) {
      var next := cur + [f];
      forall i | 0 <= i < |next| ensures Word(next[i], w) == Word(next[0], w) && !Crosses(next[i], w) {
        if i < |cur| {
          assert next[i] == cur[i];
        }
      }
    }
  }

  lemma StartNext(groups: seq<seq<RegField>>, cur: seq<RegField>, base: nat, w: nat, f: RegField, base': nat)
    requires w > 0 && Progress(groups, cur, base, w)
    requires f.offset >= base + w && IsBase(base', f.offset, w)
    ensures Crosses(f, w) <==> f.offset - base' + f.size > w
    ensures !Crosses(f, w) ==> Progress(groups + [cur], [f], base', w)
  {
    SameWord(f.offset, base, w);
    SameWord(f.offset, base', w);
    Close(groups, cur, base, w);
  }

  lemma Close(groups: seq<seq<RegField>>, cur: seq<RegField>, base: nat, w: nat)
    requires w > 0 && Progress(groups, cur, base, w)
    ensures ByWord(groups + [cur], w)
  {
    var all := groups + [cur];
    forall j | 0 < j < |all| ensures Word(all[j - 1][0], w) < Word(all[j][0], w) {
      if j < |groups| {
        assert all[j - 1] == groups[j - 1] && all[j] == groups[j];
      }
    }
  }

  /**
   `_scatgat_fields` on one group, with registers of 2^k bits. None means the group is left as it
   is. Whatever the input, no field is lost, duplicated or moved. For fields sorted by offset, the
   group is left alone exactly when some field crosses a word boundary, and is otherwise split into
   one group for each word.
   */
  method ScatGat(fields: seq<RegField>, k: nat) returns (r: Option<seq<seq<RegField>>>)
    ensures r.Some? ==> Concat(r.value) == fields
    ensures SortedByOffset(fields) ==> (r.None? <==> exists i :: 0 <= i < |fields| && Crosses(fields[i], Pow2(k)))
    ensures SortedByOffset(fields) && r.Some? ==> ByWord(r.value, Pow2(k))
  {
    var groups: seq<seq<RegField>>, cur: seq<RegField>, base := [], [], 0;
    var i := 0;
    while i < |fields|
      invariant Partitioned(fields, i, groups, cur, base, Pow2(k))
    {
      var skip;
      groups, cur, base, skip := PlaceField(fields, i, k, groups, cur, base);
      if skip {
        return None;
      }
      i := i + 1;
    }
    assert fields[..|fields|] == fields;
    if cur != [] {
      if SortedByOffset(fields) {
        Close(groups, cur, base, Pow2(k));
      }
      assert (groups + [cur])[..|groups|] == groups;
      groups := groups + [cur];
    }
    r := Some(groups);
  }

  /** The state of the loop after i fields. */
  ghost predicate Partitioned(fields: seq<RegField>, i: nat, groups: seq<seq<RegField>>, cur: seq<RegField>,
                              base: nat, w: nat)
    requires w > 0
  {
    && i <= |fields| && Concat(groups) + cur == fields[..i]
    && (cur == [] <==> i == 0) && (i == 0 ==> groups == [])
    && (SortedByOffset(fields) ==>
         && (i > 0 ==> Progress(groups, cur, base, w) && cur[|cur| - 1] == fields[i - 1])
         && forall j :: 0 <= j < i ==> !Crosses(fields[j], w))
  }

  /**
   The loop body: place field i in the current group, or close that group and start one with it when
   the field lies in a later word. `skip` means the field crosses the end of its word.
   */
  method PlaceField(fields: seq<RegField>, i: nat, k: nat, groups: seq<seq<RegField>>, cur: seq<RegField>, base: nat)
    returns (groups': seq<seq<RegField>>, cur': seq<RegField>, base': nat, skip: bool)
    requires i < |fields| && Partitioned(fields, i, groups, cur, base, Pow2(k))
    ensures !skip ==> Partitioned(fields, i + 1, groups', cur', base', Pow2(k))
    ensures SortedByOffset(fields) ==> skip == Crosses(fields[i], Pow2(k))
  {
    var rwidth, f := Pow2(k), fields[i];
    groups', cur', base' := groups, cur, base;
    if cur == [] || f.offset - base >= rwidth {
      if cur != [] {
        assert (groups + [cur])[..|groups|] == groups;
        groups' := groups + [cur];
      }
      cur', base' := [], AndNot(f.offset, Ones(k));
      AlignDown(f.offset, k);
    }
    assert Concat(groups') + cur' == fields[..i];
    if SortedByOffset(fields) {
      if cur == [] {
        StartFirst(f, base', rwidth);
      } else if cur' == [] {
        StartNext(groups, cur, base, rwidth, f, base');
      } else {
        AddToCurrent(groups, cur, base, rwidth, f);
      }
    }
    skip := f.offset - base' + f.size > rwidth;
    assert Concat(groups') + (cur' + [f]) == fields[..i] + [f] == fields[..i + 1];
    cur' := cur' + [f];
  }

  // ---- laying out one word ----

  /** One line of the generated structure: a field, or reserved bits between fields. */
  datatype Entry = Entry(pos: int, size: int, reserved: bool)

  /** Entries that follow one another without a gap or an overlap from bit `at` to bit `end`. */
  predicate Tiles(bits: seq<Entry>, at: int, end: int)
    decreases |bits|
  {
    if bits == [] then at == end
    else bits[|bits| - 1].size >= 0 && bits[|bits| - 1].pos + bits[|bits| - 1].size == end
         && Tiles(bits[..|bits| - 1], at, bits[|bits| - 1].pos)
  }

  /** The entries that are fields. */
  function Declared(bits: seq<Entry>): seq<Entry> {
    if bits == [] then []
    else
      var last := bits[|bits| - 1];
      Declared(bits[..|bits| - 1]) + (if last.reserved then [] else [last])
  }

  /** The fields at their positions in the word that starts at `base`. */
  function Placed(fields: seq<RegField>, base: int): seq<Entry> {
    if fields == [] then []
    else
      var last := fields[|fields| - 1];
      Placed(fields[..|fields| - 1], base) + [Entry(last.offset - base, last.size, false)]
  }

  /** Entry i stands for field i, at the field's own distance from `base`. */
  lemma {:induction false} PlacedAt(fields: seq<RegField>, base: int, i: nat)
    requires i < |fields|
    ensures |Placed(fields, base)| == |fields|
    ensures Placed(fields, base)[i] == Entry(fields[i].offset - base, fields[i].size, false)
  {
    var head := fields[..|fields| - 1];
    if head == [] {
      assert Placed(head, base) == [];
    } else {
      PlacedAt(head, base, if i < |head| then i else 0);
    }
  }

  /** Where the field before field i ends. */
  function EndBefore(fields: seq<RegField>, base: int, i: nat): int
    requires i <= |fields|
  {
    if i == 0 then 0 else End(fields[i - 1]) - base
  }

  /** Each field starts at or after the end of the one before, and the last ends within w bits of `base`. */
  predicate FitsInOrder(fields: seq<RegField>, base: int, w: nat) {
    InOrder(fields, base, |fields|) && EndBefore(fields, base, |fields|) <= w
  }

  predicate InOrder(fields: seq<RegField>, base: int, n: nat)
    requires n <= |fields|
  {
    forall i :: 0 <= i < n ==> EndBefore(fields, base, i) <= fields[i].offset - base
  }

  datatype Layout = Nothing | TooLarge | Bitfields(bits: seq<Entry>)

  function Base(fields: seq<RegField>, w: nat): nat
    requires w > 0
  {
    if fields == [] then 0 else fields[0].offset - fields[0].offset % w
  }

  /** The list after reserved bits up to `offset`, when there are any. */
  function Padded(bits: seq<Entry>, at: int, offset: int): seq<Entry> {
    if offset > at then bits + [Entry(at, offset - at, true)] else bits
  }

  lemma PadStep(bits: seq<Entry>, at: int, offset: int)
    ensures Declared(Padded(bits, at, offset)) == Declared(bits)
    ensures Tiles(bits, 0, at) && at <= offset ==> Tiles(Padded(bits, at, offset), 0, offset)
  {
    if offset > at {
      var all := Padded(bits, at, offset);
      assert all[..|all| - 1] == bits;
      assert Declared(bits) + [] == Declared(bits);
    }
  }

  /** One field, with the reserved bits before it: what the list declares, and that it still tiles. */
  lemma FieldStep(bits: seq<Entry>, at: int, offset: int, size: nat)
    ensures var next := Padded(bits, at, offset) + [Entry(offset, size, false)];
            && Declared(next) == Declared(bits) + [Entry(offset, size, false)]
            && (Tiles(bits, 0, at) && at <= offset ==> Tiles(next, 0, offset + size))
  {
    PadStep(bits, at, offset);
    var next := Padded(bits, at, offset) + [Entry(offset, size, false)];
    assert next[..|next| - 1] == Padded(bits, at, offset);
  }

  /** Some field is wider than the register. */
  predicate HasTooLarge(fields: seq<RegField>, w: int) {
    exists i :: 0 <= i < |fields| && fields[i].size > w
  }

  /**
   The list after i fields. `overlap` counts the bits that are declared twice because a field starts
   before the one before it ends.
   */
  ghost predicate Listed(fields: seq<RegField>, base: int, i: nat, bits: seq<Entry>, lastPos: int, overlap: int) {
    && i <= |fields| && lastPos == EndBefore(fields, base, i) && overlap >= 0
    && (overlap == 0 <==> InOrder(fields, base, i))
    && (overlap == 0 ==> Tiles(bits, 0, lastPos))
    && Declared(bits) == Placed(fields[..i], base)
  }

  lemma ListedNext(fields: seq<RegField>, base: int, i: nat, bits: seq<Entry>, lastPos: int, overlap: int)
    requires i < |fields| && Listed(fields, base, i, bits, lastPos, overlap)
    ensures var offset := fields[i].offset - base;
            Listed(fields, base, i + 1, Padded(bits, lastPos, offset) + [Entry(offset, fields[i].size, false)],
                   offset + fields[i].size, if offset < lastPos then overlap + lastPos - offset else overlap)
  {
    FieldStep(bits, lastPos, fields[i].offset - base, fields[i].size);
    assert fields[..i + 1][..i] == fields[..i];
    assert InOrder(fields, base, i + 1)
      <==> InOrder(fields, base, i) && EndBefore(fields, base, i) <= fields[i].offset - base;
  }

  lemma ListedAll(fields: seq<RegField>, base: int, bits: seq<Entry>, lastPos: int, overlap: int, w: int)
    requires w > 0 && Listed(fields, base, |fields|, bits, lastPos, overlap)
    ensures Declared(Padded(bits, lastPos, w)) == Placed(fields, base)
    ensures lastPos + overlap <= w && lastPos <= w && overlap == 0 ==> Tiles(Padded(bits, lastPos, w), 0, w)
    ensures FitsInOrder(fields, base, w) <==> overlap == 0 && lastPos <= w
    ensures Padded(bits, lastPos, w) != []
  {
    assert fields[..|fields|] == fields;
    PadStep(bits, lastPos, w);
    if fields == [] {
      assert lastPos == 0;
    } else {
      assert Placed(fields, base) != [];
      assert Declared([]) == [];
    }
  }

  /** The loop over the fields of one register of w bits that starts at bit `base`. */
  method LayOut(fields: seq<RegField>, base: int, w: int) returns (r: Layout)
    requires w > 0
    ensures r.TooLarge? <==> HasTooLarge(fields, w)
    ensures !r.TooLarge? ==> (r.Bitfields? <==> FitsInOrder(fields, base, w))
    ensures r.Bitfields? ==> Tiles(r.bits, 0, w) && Declared(r.bits) == Placed(fields, base)
  {
    var lastPos, bitcount := 0, 0;
    var bits: seq<Entry> := [];
    ghost var overlap := 0;
    var i := 0;
    while i < |fields|
      invariant i <= |fields| && Listed(fields, base, i, bits, lastPos, overlap) && bitcount == lastPos + overlap
      invariant forall j :: 0 <= j < i ==> fields[j].size <= w
    {
      if fields[i].size > w {
        return TooLarge;
      }
      bits, lastPos, bitcount, overlap := AddField(fields, base, i, bits, lastPos, bitcount, overlap);
      i := i + 1;
    }
    ListedAll(fields, base, bits, lastPos, overlap, w);
    bits, bitcount := Pad(bits, lastPos, w, bitcount);
    if bitcount > w {
      return Nothing;
    }
    if bits == [] {
      return Nothing;
    }
    r := Bitfields(bits);
  }

  /** Reserve the bits from `at` up to `offset`, if there are any. */
  method Pad(bits: seq<Entry>, at: int, offset: int, bitcount: int) returns (bits': seq<Entry>, bitcount': int)
    ensures bits' == Padded(bits, at, offset)
    ensures bitcount' == if offset > at then bitcount + (offset - at) else bitcount
  {
    bits', bitcount' := bits, bitcount;
    var padding := offset - at;
    if padding > 0 {
      bitcount' := bitcount' + padding;
      bits' := bits' + [Entry(at, padding, true)];
    }
  }

  /** The loop body: the reserved bits before field i, then the field. */
  method AddField(fields: seq<RegField>, base: int, i: nat, bits: seq<Entry>, lastPos: int, bitcount: int,
                  ghost overlap: int)
    returns (bits': seq<Entry>, lastPos': int, bitcount': int, ghost overlap': int)
    requires i < |fields| && Listed(fields, base, i, bits, lastPos, overlap) && bitcount == lastPos + overlap
    ensures Listed(fields, base, i + 1, bits', lastPos', overlap') && bitcount' == lastPos' + overlap'
  {
    ListedNext(fields, base, i, bits, lastPos, overlap);
    var field := fields[i];
    var offset := field.offset - base;
    bits', bitcount' := Pad(bits, lastPos, offset, bitcount);
    overlap' := if offset < lastPos then overlap + lastPos - offset else overlap;
    bitcount' := bitcount' + field.size;
    bits' := bits' + [Entry(offset, field.size, false)];
    lastPos' := offset + field.size;
  }

  /**
   `_generate_bits` on one register of 2^k bits. A lone field as wide as the register needs no
   bitfields, and a field wider than the register is an error. Otherwise the structure is emitted
   exactly when the fields come in order, without overlap, within the register; the emitted list
   then tiles the register from its first bit to its last, and its fields are the register's fields,
   each in its place.
   */
  method GenerateBits(fields: seq<RegField>, k: nat) returns (r: Layout)
    ensures var w := Pow2(k);
            var lone := |fields| == 1 && fields[0].size >= w;
            && (r.TooLarge? <==> !lone && exists i :: 0 <= i < |fields| && fields[i].size > w)
            && (!r.TooLarge? ==> (r.Bitfields? <==> !lone && FitsInOrder(fields, Base(fields, w), w)))
            && (r.Bitfields? ==> Tiles(r.bits, 0, w) && Declared(r.bits) == Placed(fields, Base(fields, w)))
  {
    var regwidth := Pow2(k);
    if |fields| == 1 && fields[0].size >= regwidth {
      return Nothing;
    }
    var base := 0;
    if fields != [] {
      AlignDown(fields[0].offset, k);
      base := AndNot(fields[0].offset, Ones(k));
    }
    r := LayOut(fields, base, regwidth);
  }

  /** One entry for each field, as wide as the field and as far into the register as the field is into its word. */
  predicate InPlace(fields: seq<RegField>, entries: seq<Entry>, w: nat)
    requires w > 0
  {
    && |entries| == |fields|
    && forall i :: 0 <= i < |fields| ==>
         entries[i] == Entry(fields[i].offset - fields[0].offset / w * w, fields[i].size, false)
  }

  /** The list that is declared is in place. */
  lemma PlacedInPlace(fields: seq<RegField>, w: nat)
    requires w > 0
    ensures InPlace(fields, Placed(fields, Base(fields, w)), w)
  {
    if fields != [] {
      PlacedAt(fields, Base(fields, w), 0);
      var x := fields[0].offset;
      assert x - x % w == x / w * w;
      forall i | 0 <= i < |fields|
        ensures Placed(fields, Base(fields, w))[i] == Entry(fields[i].offset - x / w * w, fields[i].size, false)
      {
        PlacedAt(fields, Base(fields, w), i);
      }
    }
  }

  /** Fields that do not overlap: each starts at or after the end of the one before it. */
  predicate Disjoint(fields: seq<RegField>) {
    forall i :: 0 < i < |fields| ==> End(fields[i - 1]) <= fields[i].offset
  }

  /** Every group the partition makes of disjoint fields is one the generator can lay out. */
  lemma OneWordFits(g: seq<RegField>, w: nat)
    requires w > 0 && OneWord(g, w) && Disjoint(g)
    ensures FitsInOrder(g, Base(g, w), w)
  {
    var base := Base(g, w);
    assert base == g[0].offset / w * w + 0;
    QuotientUnique(base, w, g[0].offset / w, 0);
    SameWord(g[0].offset, base, w);
    var last := g[|g| - 1];
    FirstIsLowest(g, |g| - 1);
    SameWord(last.offset, base, w);
  }

  lemma {:induction false} FirstIsLowest(g: seq<RegField>, i: nat)
    requires Disjoint(g) && i < |g|
    ensures g[0].offset <= g[i].offset
  {
    if i > 0 {
      FirstIsLowest(g, i - 1);
    }
  }

  /** Parts of a run of disjoint sorted fields are disjoint. */
  lemma {:induction false} ConcatDisjoint(groups: seq<seq<RegField>>, j: nat)
    requires Disjoint(Concat(groups)) && j < |groups|
    ensures Disjoint(groups[j])
    decreases |groups|
  {
    var n := |groups| - 1;
    var all, head, tail := Concat(groups), Concat(groups[..n]), groups[n];
    assert all == head + tail;
    if j == n {
      forall i | 0 < i < |tail| ensures End(tail[i - 1]) <= tail[i].offset {
        assert tail[i - 1] == all[|head| + i - 1] && tail[i] == all[|head| + i];
      }
    } else {
      assert Disjoint(head) by {
        forall i | 0 < i < |head| ensures End(head[i - 1]) <= head[i].offset {
          assert head[i - 1] == all[i - 1] && head[i] == all[i];
        }
      }
      ConcatDisjoint(groups[..n], j);
    }
  }

  /**
   Parser and generator together: for disjoint fields in order, when the partition does not leave
   the group alone, every group it makes is laid out in full.
   */
  lemma PartitionedGroupsAreLaidOut(fields: seq<RegField>, groups: seq<seq<RegField>>, w: nat, j: nat)
    requires w > 0 && Disjoint(fields) && Concat(groups) == fields && ByWord(groups, w) && j < |groups|
    ensures FitsInOrder(groups[j], Base(groups[j], w), w)
  {
    ConcatDisjoint(groups, j);
    OneWordFits(groups[j], w);
  }
}
