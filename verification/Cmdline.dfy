/**
 The command-line tokenizer (tests/hello/src/cmdenv.c): characters come from a device one at a time
 into a fixed buffer, and the words are terminated in place and recorded in a fixed argument vector.
 A pointer into the buffer is an index.
 */
module Cmdline {
  import opened Words
  import opened Wrappers

  const SPACE: Byte := 0x20
  const BUFFER_SIZE: nat := 0x100
  const ARGV_SIZE: nat := 16

  /** An argument: the program's own name, or a string in the buffer. */
  datatype Argument = ProgramName | At(index: nat)

  /** Successive reads of the device register, cut to a character. */
  type Input = nat -> Byte

  /** The characters that can be stored: up to the first NUL, or as many as the buffer holds. */
  function TextLength(input: Input, i: nat): (n: nat)
    requires i <= BUFFER_SIZE
    ensures i <= n <= BUFFER_SIZE
    ensures forall j :: i <= j < n ==> input(j) != 0
    ensures n < BUFFER_SIZE ==> input(n) == 0
    decreases BUFFER_SIZE - i
  {
    if i < BUFFER_SIZE && input(i) != 0 then TextLength(input, i + 1) else i
  }

  function Text(input: Input): (text: seq<Byte>)
    ensures |text| <= BUFFER_SIZE
  {
    seq(TextLength(input, 0), (j: nat) => input(j))
  }

  /** The text is the input up to its first NUL, or as much of it as the buffer holds. */
  ghost predicate IsText(text: seq<Byte>, input: Input) {
    && |text| <= 256
    && (forall i :: 0 <= i < |text| ==> text[i] == input(i) != 0)
    && (|text| < 256 ==> input(|text|) == 0)
  }

  lemma TextIsText(input: Input)
    ensures IsText(Text(input), input)
  {
  }

  /** A word: a space-free stretch that cannot be made longer on either side. */
  predicate IsWord(text: seq<Byte>, s: nat, e: nat) {
    && s < e <= |text|
    && (forall j :: s <= j < e ==> text[j] != 0x20)
    && (s == 0 || text[s - 1] == 0x20)
    && (e == |text| || text[e] == 0x20)
  }

  /** The first words of the text in order: all of them, or the first fifteen. */
  ghost predicate FirstWords(words: seq<(nat, nat)>, text: seq<Byte>) {
    && |words| <= 15
    && Ordered(words, text)
    && forall s: nat, e: nat :: IsWord(text, s, e) ==>
         (s, e) in words || (|words| == 15 && s > words[|words| - 1].1)
  }

  ghost predicate Ordered(words: seq<(nat, nat)>, text: seq<Byte>) {
    && (forall k {:trigger IsWord(text, words[k].0, words[k].1)} ::
          0 <= k < |words| ==> IsWord(text, words[k].0, words[k].1))
    && (forall k, m :: 0 <= k < m < |words| ==> words[k].1 < words[m].0)
  }

  /** Two words that share a character are the same word. */
  lemma WordsMeet(text: seq<Byte>, s: nat, e: nat, s': nat, e': nat)
    requires IsWord(text, s, e) && IsWord(text, s', e') && s < e' && s' < e
    ensures s == s' && e == e'
  {
  }

  /** The text determines its first words. */
  lemma FirstWordsUnique(a: seq<(nat, nat)>, b: seq<(nat, nat)>, text: seq<Byte>)
    requires FirstWords(a, text) && FirstWords(b, text)
    ensures a == b
  {
    if |a| <= |b| {
      SamePrefix(a, b, text, |a|);
      NoMore(a, b, text);
    } else {
      SamePrefix(b, a, text, |b|);
      NoMore(b, a, text);
    }
  }

  lemma {:induction false} SamePrefix(a: seq<(nat, nat)>, b: seq<(nat, nat)>, text: seq<Byte>, k: nat)
    requires FirstWords(a, text) && FirstWords(b, text) && k <= |a| && k <= |b|
    ensures a[..k] == b[..k]
    decreases k
  {
    if k > 0 {
      SamePrefix(a, b, text, k - 1);
      NotBefore(a, b, text, k - 1);
      NotBefore(b, a, text, k - 1);
      var x, y := a[k - 1], b[k - 1];
      WordsMeet(text, x.0, x.1, y.0, y.1);
      assert a[..k] == a[..k - 1] + [x] && b[..k] == b[..k - 1] + [y];
    }
  }

  /** After a common prefix, the next word of a does not start before the next word of b. */
  lemma NotBefore(a: seq<(nat, nat)>, b: seq<(nat, nat)>, text: seq<Byte>, k: nat)
    requires FirstWords(a, text) && FirstWords(b, text) && k < |a| && k < |b| && a[..k] == b[..k]
    ensures a[k].0 >= b[k].0
  {
    var x := a[k];
    assert IsWord(text, x.0, x.1) && IsWord(text, b[k].0, b[k].1);
    if (x.0, x.1) in b {
      var m :| 0 <= m < |b| && b[m] == x;
      Distinct(a, b, text, k);
      assert m >= k;
      assert m > k ==> b[k].1 < b[m].0;
    } else {
      assert k < |b| - 1 ==> b[k].1 < b[|b| - 1].0;
      assert IsWord(text, b[|b| - 1].0, b[|b| - 1].1);
    }
  }

  /** A word of a is not among the earlier words of b, when those are the earlier words of a. */
  lemma Distinct(a: seq<(nat, nat)>, b: seq<(nat, nat)>, text: seq<Byte>, k: nat)
    requires Ordered(a, text) && k < |a| && k <= |b| && a[..k] == b[..k]
    ensures forall j :: 0 <= j < k ==> b[j] != a[k]
  {
    forall j | 0 <= j < k ensures b[j] != a[k] {
      assert b[j] == b[..k][j] == a[..k][j] == a[j];
      assert IsWord(text, a[j].0, a[j].1) && a[j].1 < a[k].0;
    }
  }

  lemma NoMore(a: seq<(nat, nat)>, b: seq<(nat, nat)>, text: seq<Byte>)
    requires FirstWords(a, text) && FirstWords(b, text) && |a| <= |b| && a[..|a|] == b[..|a|]
    ensures a == b
  {
    var n := |a|;
    if n < |b| {
      assert IsWord(text, b[n].0, b[n].1);
      Distinct(b, a, text, n);
      assert false;
    }
  }

  /** The state after i characters: `words` are the words ended so far, and `first` starts the open one. */
  ghost predicate Scanned(text: seq<Byte>, i: nat, words: seq<(nat, nat)>, first: Option<nat>) {
    && i <= |text|
    && Ordered(words, text)
    && (forall k :: 0 <= k < |words| ==> words[k].1 < i)
    && (forall s: nat, e: nat :: IsWord(text, s, e) && e < i ==> (s, e) in words)
    && (first.None? ==> i == 0 || text[i - 1] == SPACE)
    && (first.Some? ==> Open(text, first.value, i) && forall k :: 0 <= k < |words| ==> words[k].1 < first.value)
  }

  /** A space-free stretch that starts a word at `s` and has reached `i`. */
  predicate Open(text: seq<Byte>, s: nat, i: nat) {
    s < i <= |text| && (forall j :: s <= j < i ==> text[j] != SPACE) && (s == 0 || text[s - 1] == SPACE)
  }

  /** A word that ends at i is the open one. */
  lemma EndsHere(text: seq<Byte>, i: nat, first: Option<nat>, s: nat, words: seq<(nat, nat)>)
    requires Scanned(text, i, words, first) && IsWord(text, s, i)
    ensures first == Some(s)
  {
    assert text[i - 1] != SPACE;
  }

  lemma ScanSpace(text: seq<Byte>, i: nat, words: seq<(nat, nat)>, first: Option<nat>)
    requires Scanned(text, i, words, first) && i < |text| && text[i] == SPACE
    ensures Scanned(text, i + 1, if first.Some? then words + [(first.value, i)] else words, None)
  {
    var next := if first.Some? then words + [(first.value, i)] else words;
    OrderedNext(text, i, words, first);
    forall s: nat, e: nat | IsWord(text, s, e) && e < i + 1 ensures (s, e) in next {
      FoundBySpace(text, i, words, first, s, e);
    }
  }

  lemma FoundBySpace(text: seq<Byte>, i: nat, words: seq<(nat, nat)>, first: Option<nat>, s: nat, e: nat)
    requires Scanned(text, i, words, first) && IsWord(text, s, e) && e <= i
    ensures (s, e) in if first.Some? then words + [(first.value, i)] else words
  {
    if e == i {
      EndsHere(text, i, first, s, words);
      assert (words + [(s, e)])[|words|] == (s, e);
    } else {
      assert (s, e) in words;
    }
  }

  lemma ScanLetter(text: seq<Byte>, i: nat, words: seq<(nat, nat)>, first: Option<nat>)
    requires Scanned(text, i, words, first) && i < |text| && text[i] != SPACE
    ensures Scanned(text, i + 1, words, if first.Some? then first else Some(i))
  {
    assert forall s: nat :: !IsWord(text, s, i);
  }

  /** What the loop has found: the words ended, and where the open word starts. */
  datatype Scan = Scan(words: seq<(nat, nat)>, first: Option<nat>)

  function NextScan(scan: Scan, c: Byte, i: nat): Scan {
    if c != SPACE then Scan(scan.words, if scan.first.Some? then scan.first else Some(i))
    else Scan(if scan.first.Some? then scan.words + [(scan.first.value, i)] else scan.words, None)
  }

  function ScanTo(text: seq<Byte>, i: nat): Scan
    requires i <= |text|
  {
    if i == 0 then Scan([], None) else NextScan(ScanTo(text, i - 1), text[i - 1], i - 1)
  }

  lemma ScanNext(text: seq<Byte>, i: nat, scan: Scan)
    requires i < |text| && Scanned(text, i, scan.words, scan.first)
    ensures var next := NextScan(scan, text[i], i); Scanned(text, i + 1, next.words, next.first)
  {
    if text[i] == SPACE {
      ScanSpace(text, i, scan.words, scan.first);
    } else {
      ScanLetter(text, i, scan.words, scan.first);
    }
  }

  lemma NothingScanned(text: seq<Byte>)
    ensures Scanned(text, 0, [], None)
  {
  }

  lemma {:induction false} ScanToIsScanned(text: seq<Byte>, i: nat)
    requires i <= |text|
    ensures var scan := ScanTo(text, i); Scanned(text, i, scan.words, scan.first)
  {
    if i == 0 {
      NothingScanned(text);
    } else {
      ScanToIsScanned(text, i - 1);
      ScanNext(text, i - 1, ScanTo(text, i - 1));
    }
  }

  /** The words once the open one, if any, is ended at i. */
  function Ended(scan: Scan, i: nat): seq<(nat, nat)> {
    if scan.first.Some? then scan.words + [(scan.first.value, i)] else scan.words
  }

  /** At the end of the text, or of the argument vector, the words found are the first words. */
  lemma ScanEnds(text: seq<Byte>, i: nat)
    requires i <= |text| && |Ended(ScanTo(text, i), i)| <= ARGV_SIZE - 1
    requires i == |text| || (ScanTo(text, i).first.None? && |ScanTo(text, i).words| == ARGV_SIZE - 1)
    ensures FirstWords(Ended(ScanTo(text, i), i), text)
  {
    ScanToIsScanned(text, i);
    var words, first := ScanTo(text, i).words, ScanTo(text, i).first;
    var all := Ended(ScanTo(text, i), i);
    forall s: nat, e: nat | IsWord(text, s, e)
      ensures (s, e) in all || (|all| == ARGV_SIZE - 1 && s > all[|all| - 1].1)
    {
      if e <= i {
        FoundBySpace(text, i, words, first, s, e);
      } else {
        LateWord(text, i, words, s, e);
      }
    }
    OrderedNext(text, i, words, first);
  }

  lemma OrderedNext(text: seq<Byte>, i: nat, words: seq<(nat, nat)>, first: Option<nat>)
    requires Scanned(text, i, words, first) && (first.Some? ==> IsWord(text, first.value, i))
    ensures Ordered(if first.Some? then words + [(first.value, i)] else words, text)
  {
  }

  /** A word that ends after i starts after every word ended before i. */
  lemma LateWord(text: seq<Byte>, i: nat, words: seq<(nat, nat)>, s: nat, e: nat)
    requires Scanned(text, i, words, None) && IsWord(text, s, e) && e > i && words != []
    ensures s > words[|words| - 1].1
  {
    assert words[|words| - 1].1 < i;
    assert text[i - 1] == SPACE;
  }

  // ---- words that run into the end of the buffer ----

  /** The loop ends at most one word with each character, and has none open right after. */
  lemma {:induction false} ReachesCount(text: seq<Byte>, i: nat, n: nat) returns (j: nat)
    requires i <= |text| && 0 < n <= |ScanTo(text, i).words|
    ensures j <= i && |ScanTo(text, j).words| == n && ScanTo(text, j).first.None?
  {
    if |ScanTo(text, i - 1).words| >= n {
      j := ReachesCount(text, i - 1, n);
    } else {
      j := i;
    }
  }

  /** Whether the last word of a full buffer is recorded although no NUL can follow it. */
  predicate LosesNul(text: seq<Byte>) {
    && |text| == BUFFER_SIZE && text[BUFFER_SIZE - 1] != SPACE
    && |ScanTo(text, BUFFER_SIZE).words| < ARGV_SIZE - 1
  }

  /**
   Every recorded word ends inside the buffer, where a NUL follows it, if and only if not: the text
   fills the buffer, its last character is not a space, and at most fourteen words end before it, so
   that the word it belongs to is recorded.
   */
  lemma AllTerminatedIff(words: seq<(nat, nat)>, text: seq<Byte>)
    requires FirstWords(words, text) && |text| <= BUFFER_SIZE
    ensures (forall k :: 0 <= k < |words| ==> words[k].1 < BUFFER_SIZE) <==> !LosesNul(text)
  {
    if |text| == BUFFER_SIZE {
      FullBuffer(words, text);
    } else {
      forall k | 0 <= k < |words| ensures words[k].1 < BUFFER_SIZE {
        assert IsWord(text, words[k].0, words[k].1);
      }
    }
  }

  lemma FullBuffer(words: seq<(nat, nat)>, text: seq<Byte>)
    requires FirstWords(words, text) && |text| == BUFFER_SIZE
    ensures (forall k :: 0 <= k < |words| ==> words[k].1 < BUFFER_SIZE) <==> !LosesNul(text)
  {
    var n := BUFFER_SIZE;
    var scan := ScanTo(text, n);
    ScanToIsScanned(text, n);
    if |scan.words| >= ARGV_SIZE - 1 {
      var j := ReachesCount(text, n, ARGV_SIZE - 1);
      ScanEnds(text, j);
      FirstWordsUnique(words, ScanTo(text, j).words, text);
      ScanToIsScanned(text, j);
    } else {
      ScanEnds(text, n);
      FirstWordsUnique(words, Ended(scan, n), text);
      assert scan.first.Some? ==> Ended(scan, n)[|scan.words|].1 == n;
    }
  }

  /** 256 letters without a space: one word, recorded, that ends where the buffer does. */
  lemma FullBufferLosesNul(input: Input)
    requires forall i :: 0 <= i < BUFFER_SIZE ==> input(i) == 0x61
    ensures LosesNul(Text(input)) && FirstWords([(0, BUFFER_SIZE)], Text(input))
  {
    var text := Text(input);
    TextIsText(input);
    LettersOnly(text, BUFFER_SIZE);
    ScanEnds(text, BUFFER_SIZE);
  }

  lemma {:induction false} LettersOnly(text: seq<Byte>, i: nat)
    requires i <= |text| && forall j :: 0 <= j < i ==> text[j] != SPACE
    ensures ScanTo(text, i) == Scan([], if i == 0 then None else Some(0))
  {
    if i > 0 {
      LettersOnly(text, i - 1);
    }
  }

  predicate EndsAt(words: seq<(nat, nat)>, j: nat) {
    exists k :: 0 <= k < |words| && words[k].1 == j
  }

  lemma EndsAtNext(words: seq<(nat, nat)>, s: nat, e: nat, j: nat)
    ensures EndsAt(words + [(s, e)], j) <==> j == e || EndsAt(words, j)
  {
    var next := words + [(s, e)];
    assert next[|words|] == (s, e);
    assert forall k :: 0 <= k < |words| ==> next[k] == words[k];
  }

  class Loader {
    const buffer: array<Byte>
    const argv: array<Argument>
    var argc: nat

    constructor ()
      ensures buffer.Length == BUFFER_SIZE && argv.Length == ARGV_SIZE
    {
      buffer := new Byte[BUFFER_SIZE](_ => 0);
      argv := new Argument[ARGV_SIZE](_ => ProgramName);
      argc := 0;
    }

    /** The words are recorded, their characters are in the buffer, and a NUL follows each. */
    ghost predicate Stored(text: seq<Byte>, words: seq<(nat, nat)>)
      reads this, buffer, argv
    {
      && buffer.Length == BUFFER_SIZE && argv.Length == ARGV_SIZE
      && argc == 1 + |words| <= ARGV_SIZE && argv[0] == ProgramName
      && (forall k :: 0 <= k < |words| ==> argv[k + 1] == At(words[k].0))
      && (forall k :: 0 <= k < |words| ==> Holds(text, words[k].0, words[k].1) && Terminated(words[k].1))
    }

    ghost predicate Holds(text: seq<Byte>, s: nat, e: nat)
      reads buffer
    {
      e <= |text| && e <= buffer.Length && forall j :: s <= j < e ==> buffer[j] == text[j]
    }

    ghost predicate Terminated(e: nat)
      reads buffer
    {
      e < buffer.Length ==> buffer[e] == 0
    }

    /** The first n characters are in the buffer, except that a NUL took the place of the space after a word. */
    ghost predicate Copied(text: seq<Byte>, words: seq<(nat, nat)>, n: nat)
      reads buffer
    {
      && n <= |text| && n <= buffer.Length
      && forall j :: 0 <= j < n ==> buffer[j] == if EndsAt(words, j) then 0 else text[j]
    }

    /** The state of the loop after `ptr` characters. */
    ghost predicate Loading(text: seq<Byte>, scan: Scan, ptr: nat, last: Byte)
      reads this, buffer, argv
    {
      && Stored(text, scan.words) && (forall k :: 0 <= k < |scan.words| ==> scan.words[k].1 < ptr)
      && Copied(text, scan.words, ptr)
      && (scan.first.Some? ==> last != SPACE && Holds(text, scan.first.value, ptr) && argc < ARGV_SIZE)
    }

    /** The word that starts at s ends at `ptr`, where a space has been stored: a NUL takes its place. */
    method EndWord(ptr: nat, s: nat, ghost last: Byte, ghost text: seq<Byte>, ghost scan: Scan)
      requires Loading(text, scan, ptr, last) && scan.first == Some(s)
      requires ptr < |text| <= BUFFER_SIZE
      modifies this, buffer, argv
      ensures ptr < buffer.Length && buffer[ptr] == 0
      ensures Loading(text, Scan(scan.words + [(s, ptr)], None), ptr + 1, 0)
    {
      forall j: nat ensures EndsAt(scan.words + [(s, ptr)], j) <==> j == ptr || EndsAt(scan.words, j) {
        EndsAtNext(scan.words, s, ptr, j);
      }
      buffer[ptr] := 0;
      argv[argc] := At(s);
      argc := argc + 1;
    }

    /** The loop body, for a character that is not NUL. */
    method Accept(ptr: nat, c: Byte, first: Option<nat>, last: Byte, ghost text: seq<Byte>, ghost scan: Scan)
      returns (first': Option<nat>)
      requires Loading(text, scan, ptr, last) && scan.first == first && argc < ARGV_SIZE
      requires ptr < |text| <= BUFFER_SIZE && text[ptr] == c
      modifies this, buffer, argv
      ensures ptr < buffer.Length && first' == NextScan(scan, c, ptr).first
      ensures Loading(text, NextScan(scan, c, ptr), ptr + 1, buffer[ptr])
    {
      first' := first;
      buffer[ptr] := c;
      if buffer[ptr] == SPACE {
        if last != SPACE && first.Some? {
          EndWord(ptr, first.value, last, text, scan);
          first' := None;
        }
      } else if first.None? {
        first' := Some(ptr);
      }
    }

    /**
     `load_cmdline`. For every input: argv[1..] are the first words of the text in order, at most
     fifteen; each is in the buffer, followed by a NUL whenever it ends inside the buffer; and argc
     counts them and the program name, so it never exceeds sixteen.
     */
    method LoadCmdline(input: Input) returns (ghost words: seq<(nat, nat)>, ghost read: nat)
      requires buffer.Length == BUFFER_SIZE && argv.Length == ARGV_SIZE
      modifies this, buffer, argv
      ensures FirstWords(words, Text(input)) && Stored(Text(input), words)
      ensures argc == 1 + |words| <= 16 && |words| <= 15
      ensures Copied(Text(input), words, read) && (read == |Text(input)| || argc == 16)
    {
      ghost var text := Text(input);
      TextIsText(input);
      var ptr, first;
      ghost var last;
      ptr, first, last := ReadWords(input, text);
      ScanEnds(text, ptr);
      words, read := Ended(ScanTo(text, ptr), ptr), ptr;
      Finish(ptr, first, last, text, ScanTo(text, ptr));
    }

    /** The NUL that ends the input is stored behind the text. */
    method StoreNul(ptr: nat, ghost text: seq<Byte>, ghost scan: Scan, ghost last: Byte)
      requires Loading(text, scan, ptr, last) && ptr < buffer.Length
      modifies buffer
      ensures Loading(text, scan, ptr, last) && Terminated(ptr)
    {
      buffer[ptr] := 0;
    }

    /** The vector before the first character. */
    method StartVector(ghost text: seq<Byte>)
      requires buffer.Length == BUFFER_SIZE && argv.Length == ARGV_SIZE
      modifies this, argv
      ensures Loading(text, Scan([], None), 0, 0) && argc == 1
    {
      argv[0] := ProgramName;
      argc := 1;
      argv[argc] := At(0);
    }

    /** The state of the loop at character `ptr`, in terms of the text alone. */
    ghost predicate Before(text: seq<Byte>, ptr: nat, first: Option<nat>, last: Byte)
      reads this, buffer, argv
    {
      ptr <= |text| <= BUFFER_SIZE && first == ScanTo(text, ptr).first && Loading(text, ScanTo(text, ptr), ptr, last)
    }

    /** One character read and, unless it ends the text, accepted. */
    method ReadOne(input: Input, ptr: nat, first: Option<nat>, last: Byte, ghost text: seq<Byte>)
      returns (first': Option<nat>, last': Byte, stop: bool)
      requires IsText(text, input) && Before(text, ptr, first, last) && ptr < BUFFER_SIZE && argc < ARGV_SIZE
      modifies this, buffer, argv
      ensures stop <==> ptr == |text|
      ensures if stop then first' == first && Before(text, ptr, first, last') && Terminated(ptr)
              else Before(text, ptr + 1, first', last')
    {
      var c := input(ptr);
      if c == 0 {
        StoreNul(ptr, text, ScanTo(text, ptr), last);
        return first, last, true;
      }
      first' := Accept(ptr, c, first, last, text, ScanTo(text, ptr));
      last', stop := buffer[ptr], false;
    }

    /** The loop: read until NUL, until the buffer is full, or until the argument vector is. */
    method ReadWords(input: Input, ghost text: seq<Byte>) returns (ptr: nat, first: Option<nat>, ghost last: Byte)
      requires buffer.Length == BUFFER_SIZE && argv.Length == ARGV_SIZE && IsText(text, input)
      modifies this, buffer, argv
      ensures ptr <= |text| && first == ScanTo(text, ptr).first && Loading(text, ScanTo(text, ptr), ptr, last)
      ensures ptr == |text| || (first.None? && argc == ARGV_SIZE)
      ensures first.Some? ==> Terminated(ptr)
    {
      StartVector(text);
      ptr, first := 0, None;
      var previous: Byte, stop := 0, false;
      while ptr < buffer.Length && argc < argv.Length && !stop
        invariant buffer.Length == BUFFER_SIZE && argv.Length == ARGV_SIZE && Before(text, ptr, first, previous)
        invariant stop ==> ptr == |text| && Terminated(ptr)
        decreases BUFFER_SIZE - ptr, !stop
      {
        first, previous, stop := ReadOne(input, ptr, first, previous, text);
        ptr := if stop then ptr else ptr + 1;
      }
      last := previous;
    }

    /** Record the word that is still open when the loop ends. */
    method Finish(ptr: nat, first: Option<nat>, ghost last: Byte, ghost text: seq<Byte>, ghost scan: Scan)
      requires Loading(text, scan, ptr, last) && scan.first == first && (first.Some? ==> Terminated(ptr))
      modifies this, argv
      ensures Stored(text, Ended(scan, ptr)) && Copied(text, Ended(scan, ptr), ptr)
    {
      if first.Some? {
        forall j: nat ensures EndsAt(scan.words + [(first.value, ptr)], j) <==> j == ptr || EndsAt(scan.words, j) {
          EndsAtNext(scan.words, first.value, ptr, j);
        }
      }
      if first.Some? {
        argv[argc] := At(first.value);
        argc := argc + 1;
      }
    }
  }
}
