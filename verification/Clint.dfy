/**
 Timer access through 32-bit registers (metal/src/drivers/riscv_clint0.c).

 `mtime` is a 64-bit counter read as two words while it advances. The counter is described by the
 value it has at each successive load: any non-decreasing sequence of 64-bit values.
 */
module Clint {

  const WORD: nat := 0x1_0000_0000

  function Hi(v: nat): nat {
    v / WORD
  }

  function Lo(v: nat): nat {
    v % WORD
  }

  type Counter = nat -> nat

  /** The counter never runs backwards and does not wrap. */
  ghost predicate Advances(c: Counter) {
    (forall i: nat, j: nat :: i <= j ==> c(i) <= c(j)) && (forall i: nat :: c(i) < WORD * WORD)
  }

  /**
   `__metal_clint0_mtime_get`: load high, low and high again until the high words agree. Load k of
   the device is `c(k)`; the call starts at load `start` and stops before load `next`.

   The result is the value the counter held at the low-word load, so the read is linearizable. The
   retries are no more than the high-word increments during the call.
   */
  method MtimeGet(c: Counter, start: nat) returns (time: nat, retries: nat)
    requires Advances(c)
    ensures time == c(start + 3 * retries + 1)
    ensures retries <= Hi(c(start + 3 * retries)) - Hi(c(start))
  {
    retries := 0;
    var k := start;
    var hi, lo, check := Hi(c(k)), Lo(c(k + 1)), Hi(c(k + 2));
    HiAdvances(c, k, k + 2);
    while check != hi
      invariant k == start + 3 * retries
      invariant hi == Hi(c(k)) && lo == Lo(c(k + 1)) && check == Hi(c(k + 2)) && hi <= check < WORD
      invariant retries <= hi - Hi(c(start))
      decreases WORD - hi
    {
      HiAdvances(c, k + 2, k + 3);
      retries, k := retries + 1, k + 3;
      hi, lo, check := Hi(c(k)), Lo(c(k + 1)), Hi(c(k + 2));
      HiAdvances(c, k, k + 2);
    }
    HalvesMatch(c, k);
    time := hi * WORD + lo;
  }

  /** When the two high-word loads agree, the low word loaded between them completes one counter value. */
  lemma HalvesMatch(c: Counter, k: nat)
    requires Advances(c) && Hi(c(k)) == Hi(c(k + 2))
    ensures Hi(c(k)) * WORD + Lo(c(k + 1)) == c(k + 1)
  {
    HiAdvances(c, k, k + 1);
    HiAdvances(c, k + 1, k + 2);
  }

  lemma HiAdvances(c: Counter, i: nat, j: nat)
    requires Advances(c) && i <= j
    ensures c(i) <= c(j) && Hi(c(i)) <= Hi(c(j)) < WORD && c(j) == Hi(c(j)) * WORD + Lo(c(j))
  {
    HiMono(c(i), c(j));
  }

  lemma HiMono(a: nat, b: nat)
    requires a <= b
    ensures Hi(a) <= Hi(b) && a == Hi(a) * WORD + Lo(a)
  {
  }

  /** Two reads, one after the other, never go backwards. */
  method ReadTwice(c: Counter, start: nat) returns (first: nat, second: nat)
    requires Advances(c)
    ensures c(start) <= first <= second
  {
    var retries: nat;
    first, retries := MtimeGet(c, start);
    var k, next := start + 3 * retries + 1, start + 3 * retries + 3;
    var retries': nat;
    second, retries' := MtimeGet(c, next);
    assert c(start) <= c(k) <= c(next + 3 * retries' + 1);
  }

  /** Without the retry, the two halves name the counter's value exactly when no carry came between them. */
  lemma UnguardedReadIff(c: Counter, k: nat)
    requires Advances(c)
    ensures Hi(c(k)) * WORD + Lo(c(k + 1)) == c(k + 1) <==> Hi(c(k)) == Hi(c(k + 1))
  {
    HiAdvances(c, k, k + 1);
  }

  // ---- the compare register ----

  /** The timer interrupt of a hart is pending when the counter has reached the hart's compare value. */
  predicate Pending(time: nat, cmp: nat) {
    time >= cmp
  }

  /** The compare registers, and the combined value each store to one of them left. */
  class Timer {
    var cmpHi: map<nat, nat>
    var cmpLo: map<nat, nat>
    ghost var seen: seq<nat>

    ghost predicate Valid(hart: nat)
      reads this
    {
      hart in cmpHi && hart in cmpLo && cmpHi[hart] < WORD && cmpLo[hart] < WORD
    }

    ghost function Cmp(hart: nat): nat
      requires Valid(hart)
      reads this
    {
      cmpHi[hart] * WORD + cmpLo[hart]
    }

    /** One store to the high word of a compare register. */
    method StoreHi(hart: nat, w: nat)
      requires Valid(hart) && w < WORD
      modifies `cmpHi, `seen
      ensures Valid(hart) && cmpHi == old(cmpHi)[hart := w] && seen == old(seen) + [Cmp(hart)]
    {
      cmpHi := cmpHi[hart := w];
      seen := seen + [Cmp(hart)];
    }

    /** One store to the low word of a compare register. */
    method StoreLo(hart: nat, w: nat)
      requires Valid(hart) && w < WORD
      modifies `cmpLo, `seen
      ensures Valid(hart) && cmpLo == old(cmpLo)[hart := w] && seen == old(seen) + [Cmp(hart)]
    {
      cmpLo := cmpLo[hart := w];
      seen := seen + [Cmp(hart)];
    }

    /**
     `mtimecmp_set`: high word to its maximum, then the low word, then the high word. Every store
     records the value the register then has. None of the three is below both the old and the new
     one, so a counter that has reached any of them has reached the old or the new one: no store can
     raise an interrupt that neither setting calls for.
     */
    method MtimecmpSet(hart: nat, time: nat)
      requires Valid(hart) && time < WORD * WORD
      modifies this
      ensures Valid(hart) && Cmp(hart) == time
      ensures cmpHi == old(cmpHi)[hart := Hi(time)] && cmpLo == old(cmpLo)[hart := Lo(time)]
      ensures |seen| == |old(seen)| + 3 && seen[..|old(seen)|] == old(seen) && seen[|old(seen)| + 2] == time
      ensures forall v :: v in seen[|old(seen)|..] ==> v >= old(Cmp(hart)) || v >= time
      ensures forall v, t: nat :: v in seen[|old(seen)|..] && Pending(t, v) ==>
                Pending(t, old(Cmp(hart))) || Pending(t, time)
    {
      HiMono(time, WORD * WORD - 1);
      StoreHi(hart, 0xFFFF_FFFF);
      StoreLo(hart, time % WORD);
      StoreHi(hart, time / WORD);
      ghost var n := |old(seen)|;
      assert seen[n..] == [seen[n], seen[n + 1], seen[n + 2]];
    }
  }

  /**
   Storing only the low and then the high word is not safe: it passes through a value below both
   settings exactly when the high word rises and the new low word is below the old one.
   */
  lemma LowThenHighDips(old_: nat, new_: nat)
    requires old_ < WORD * WORD && new_ < WORD * WORD
    ensures var mid := Hi(old_) * WORD + Lo(new_);
            mid < old_ && mid < new_ <==> Hi(old_) < Hi(new_) && Lo(new_) < Lo(old_)
  {
    HiMono(old_, WORD * WORD);
    HiMono(new_, WORD * WORD);
  }
}
