/**
 Clock ticks to seconds and microseconds (gloss/src/sys_times.c, metal/src/time.c). All arithmetic
 is on unsigned 64-bit values and wraps.
 */
module TimeOfDay {
  import opened Arith
  import opened Words

  const WORD: nat := 0x1_0000_0000_0000_0000
  const MILLION: nat := 1_000_000

  /** The remainder's share, `(r * num) / den`. */
  function Share(r: nat, num: U64, den: U64): nat
    requires den > 0
  {
    Wrap(Product(r, num)) / den
  }

  function Wrap(x: nat): U64 {
    x % WORD
  }

  function Product(a: nat, b: nat): nat {
    MulMono(0, a, b);
    a * b
  }

  /** `muldiv`: v * num / den by the split v = v % den + (v / den) * den. */
  function Muldiv(v: U64, num: U64, den: U64): U64
    requires den > 0
  {
    Wrap(Share(v % den, num, den) + Wrap(Product(v / den, num)))
  }

  /** The split, without wrapping: v * num / den is the sum of the two terms. */
  lemma SplitQuotient(v: nat, num: nat, den: nat)
    requires den > 0
    ensures v * num / den == v % den * num / den + v / den * num
  {
    var q, r := v / den, v % den;
    assert v * num == r * num + q * num * den by {
      assert v == r + q * den;
      assert (r + q * den) * num == r * num + q * den * num;
      assert q * den * num == q * num * den;
    }
    DivShift(r * num, q * num, den);
  }

  /**
   `muldiv` is v * num / den, modulo 2^64, exactly when the product with the remainder does not
   wrap.
   */
  lemma MuldivIff(v: U64, num: U64, den: U64)
    requires den > 0
    ensures Muldiv(v, num, den) == v * num / den % WORD <==> v % den * num < WORD
  {
    SplitQuotient(v, num, den);
    MulMono(0, v / den, num);
    ShareIff(v % den, num, den);
    SumsDiffer(Share(v % den, num, den), v % den * num / den, v / den * num);
  }

  /** The wrapped share is below the true one, unless nothing wraps. */
  lemma ShareIff(r: nat, num: U64, den: U64)
    requires r < den
    ensures 0 <= r * num
    ensures Share(r, num, den) <= r * num / den <= num
    ensures Share(r, num, den) == r * num / den <==> r * num < WORD
  {
    MulMono(0, r, num);
    QuotientBelow(r, num, den);
    WrapDiffers(r * num, den);
  }

  /** A remainder scaled by num and divided by den stays below num. */
  lemma QuotientBelow(r: nat, num: nat, den: nat)
    requires r < den
    ensures 0 <= r * num / den <= num
  {
    MulMono(r, den, num);
    MulMono(0, r, num);
    FloorIff(r * num, den, num + 1);
    FloorIff(r * num, den, 0);
    assert (num + 1) * den == num * den + den;
  }

  /** Wrapping the product loses at least one from the quotient. */
  lemma WrapDiffers(x: nat, den: nat)
    requires 0 < den < WORD
    ensures x < WORD ==> x % WORD / den == x / den
    ensures x >= WORD ==> 0 <= x % WORD / den < x / den
  {
    if x >= WORD {
      DivShift(x - den, 1, den);
      DivMono(x % WORD, x - den, den);
      FloorIff(x % WORD, den, 0);
    }
  }

  lemma SumsDiffer(a: nat, b: nat, y: nat)
    requires a <= b < WORD
    ensures Wrap(a + Wrap(y)) == Wrap(b + y) <==> a == b
  {
    assert (a + y % WORD) % WORD == (a + y) % WORD;
    CloseRemainders(a + y, b + y);
  }

  lemma CloseRemainders(p: nat, q: nat)
    requires p <= q < p + WORD
    ensures p % WORD == q % WORD <==> p == q
  {
  }

  /** Whenever num * den fits in 64 bits, as the code's comment asks, `muldiv` is exact for every v. */
  lemma MuldivExact(v: U64, num: U64, den: U64)
    requires den > 0 && num * den < WORD
    ensures Muldiv(v, num, den) == v * num / den % WORD
  {
    MulMono(v % den, den, num);
    MuldivIff(v, num, den);
  }

  // ---- time of day ----

  /**
   The seconds as `time_t` holds them. It is signed and counts from -limit up to limit - 1; a value
   outside is reduced to it, as two's complement does.
   */
  function ToTime(q: nat, limit: nat): int
    requires limit > 0
  {
    (q + limit) % (2 * limit) - limit
  }

  lemma ToTimeIs(q: nat, limit: nat)
    requires limit > 0
    ensures 0 <= ToTime(q, limit) + limit < 2 * limit && (ToTime(q, limit) == q <==> q < limit)
    ensures exists k: nat :: q == ToTime(q, limit) + k * (2 * limit)
  {
    Reduced(q + limit, 2 * limit);
    if q < limit {
      InRange(q + limit, 2 * limit);
    }
  }

  lemma Reduced(x: nat, m: nat)
    requires m > 0
    ensures exists k: nat :: x == x % m + k * m
  {
    assert x == x % m + x / m * m;
  }

  lemma InRange(x: nat, m: nat)
    requires x < m
    ensures x % m == x
  {
  }

  class Timeval {
    var sec: int
    var usec: nat
  }

  function Microseconds(sec: int, usec: nat): int {
    sec * MILLION + usec
  }

  /** A read of the timer: the value, or an error code. */
  datatype Reading = Failed | Value(value: U64)

  /**
   `metal_gettimeofday`. On success the microseconds are below a million, and seconds and
   microseconds together are the exact number of elapsed microseconds, rounded down, exactly when the
   product with the remainder does not wrap and `time_t` holds the seconds. On failure nothing is
   stored.
   */
  method GetTimeOfDay(tp: Timeval, cycles: Reading, timebase: Reading, limit: nat) returns (rv: int)
    requires limit > 0 && (timebase.Value? ==> timebase.value > 0)
    modifies tp
    ensures rv == if cycles.Value? && timebase.Value? then 0 else -1
    ensures rv != 0 ==> tp.sec == old(tp.sec) && tp.usec == old(tp.usec)
    ensures rv == 0 ==> IsTime(tp.sec, tp.usec, cycles.value, timebase.value, limit)
    ensures rv == 0 ==> Microseconds(tp.sec, tp.usec) == Stored(cycles.value, timebase.value, limit)
  {
    if cycles.Failed? {
      return -1;
    }
    if timebase.Failed? {
      return -1;
    }
    var sec, usec := Split(cycles.value, timebase.value, limit);
    tp.sec := sec;
    tp.usec := usec;
    rv := 0;
  }

  /** While `time_t` holds the seconds, the parts together are also what `muldiv` gives, modulo 2^64. */
  ghost predicate IsTime(sec: int, usec: nat, mcc: U64, base: U64, limit: nat)
    requires base > 0
  {
    && 0 <= sec + limit < 2 * limit && usec < MILLION
    && (mcc / base < limit ==> sec >= 0 && Wrap(Microseconds(sec, usec)) == Muldiv(mcc, MILLION, base))
    && (Microseconds(sec, usec) == mcc * MILLION / base <==> mcc % base * MILLION < WORD && mcc / base < limit)
  }

  method Split(mcc: U64, base: U64, limit: nat) returns (sec: int, usec: nat)
    requires base > 0 && limit > 0
    ensures IsTime(sec, usec, mcc, base, limit)
    ensures Microseconds(sec, usec) == Stored(mcc, base, limit)
  {
    SplitIsTime(mcc, base, limit);
    sec, usec := ToTime(mcc / base, limit), Share(mcc % base, MILLION, base);
  }

  lemma SplitIsTime(mcc: U64, base: U64, limit: nat)
    requires base > 0 && limit > 0
    ensures IsTime(ToTime(mcc / base, limit), Share(mcc % base, MILLION, base), mcc, base, limit)
  {
    SplitQuotient(mcc, MILLION, base);
    TimeParts(mcc / base, mcc % base, base, mcc * MILLION / base);
    ToTimeIs(mcc / base, limit);
    FloorIff(mcc % base * MILLION, base, 0);
  }

  lemma TimeParts(q: nat, r: nat, base: U64, total: int)
    requires r < base && total == r * MILLION / base + q * MILLION
    ensures var usec := Share(r, MILLION, base);
            && usec < MILLION
            && Wrap(Microseconds(q, usec)) == Wrap(usec + Wrap(Product(q, MILLION)))
            && (Microseconds(q, usec) == total <==> r * MILLION < WORD)
  {
    ShareIff(r, MILLION, base);
    ShareBelow(r, base);
    AddWrapped(Share(r, MILLION, base), q * MILLION);
  }

  lemma AddWrapped(x: nat, y: nat)
    ensures Wrap(x + Wrap(y)) == Wrap(y + x)
  {
  }

  lemma ShareBelow(r: nat, base: U64)
    requires r < base
    ensures Share(r, MILLION, base) < MILLION
  {
    FloorIff(r * MILLION, base, MILLION);
    DivMono(Wrap(r * MILLION), r * MILLION, base);
  }

  /** The time stored for a counter value, in microseconds. */
  function Stored(mcc: U64, base: U64, limit: nat): int
    requires base > 0 && limit > 0
  {
    Microseconds(ToTime(mcc / base, limit), Share(mcc % base, MILLION, base))
  }

  /** Every number of seconds that a counter can reach fits a `time_t`. */
  predicate SecondsFit(base: U64, limit: nat)
    requires base > 0
  {
    (WORD - 1) / base < limit
  }

  lemma SecondsFitEach(m: U64, base: U64, limit: nat)
    requires base > 0 && limit > 0 && SecondsFit(base, limit)
    ensures m / base < limit && ToTime(m / base, limit) == m / base
  {
    DivMono(m, WORD - 1, base);
    ToTimeIs(m / base, limit);
  }

  /** The counter value at which the quotient reaches the limit. */
  lemma LimitReached(base: U64, limit: nat) returns (n: nat)
    requires base > 0 && limit > 0
    ensures n > 0 && n / base == limit && n % base == 0 && (n - 1) / base == limit - 1
    ensures !SecondsFit(base, limit) ==> n < WORD
  {
    n := Product(limit, base);
    FloorIff(WORD - 1, base, limit);
    MulMono(1, limit, base);
    QuotientOf(n, base, limit, 0);
    OneLess(limit, base);
    QuotientOf(n - 1, base, limit - 1, base - 1);
  }

  /** There the seconds leave `time_t` and turn negative. */
  lemma SecondsOverflow(base: U64, limit: nat) returns (n: U64)
    requires base > 0 && limit > 0 && !SecondsFit(base, limit)
    ensures n > 0 && n / base == limit && Stored(n, base, limit) < 0 <= Stored(n - 1, base, limit)
  {
    n := LimitReached(base, limit);
    ToTimeIs(limit - 1, limit);
    FirstNegative(limit);
    NoRemainder(base);
  }

  lemma OneLess(limit: nat, base: nat)
    requires limit > 0
    ensures limit * base - 1 == (limit - 1) * base + (base - 1)
  {
  }

  lemma FirstNegative(limit: nat)
    requires limit > 0
    ensures ToTime(limit, limit) + limit == 0
  {
    QuotientOf(limit + limit, 2 * limit, 1, 0);
  }

  lemma NoRemainder(base: U64)
    requires base > 0
    ensures Share(0, MILLION, base) == 0
  {
    FloorIff(0, base, 0);
    FloorIff(0, base, 1);
  }

  lemma QuotientOf(n: nat, base: nat, q: nat, r: nat)
    requires r < base && n == q * base + r
    ensures n / base == q && n % base == r
  {
    FloorIff(n, base, q);
    FloorIff(n, base, q + 1);
    assert (q + 1) * base == q * base + base;
    assert n == n / base * base + n % base;
  }

  /**
   Time is exact for every counter value exactly when the largest remainder does not wrap and
   `time_t` holds the largest number of seconds.
   */
  lemma TimeIsExactIff(base: U64, limit: nat)
    requires base > 0 && limit > 0
    ensures (forall m: U64 :: Stored(m, base, limit) == m * MILLION / base)
       <==> MILLION * (base - 1) < WORD && SecondsFit(base, limit)
  {
    forall m: U64
      ensures Stored(m, base, limit) == m * MILLION / base <==> m % base * MILLION < WORD && m / base < limit
    {
      SplitIsTime(m, base, limit);
    }
    if !SecondsFit(base, limit) {
      var n := SecondsOverflow(base, limit);
      assert Stored(n, base, limit) != n * MILLION / base;
    } else if MILLION * (base - 1) < WORD {
      forall m: U64 ensures Stored(m, base, limit) == m * MILLION / base {
        SecondsFitEach(m, base, limit);
        MulMono(m % base, base - 1, MILLION);
      }
    } else {
      var m: U64 := base - 1;
      OwnRemainder(m, base);
      assert Stored(m, base, limit) != m * MILLION / base;
    }
  }

  lemma OwnRemainder(m: U64, base: U64)
    requires m < base
    ensures m % base == m && m / base == 0
  {
  }

  /** The products that wrap are multiples of 64, so above this timebase the wrapped share is always zero. */
  const ALL_SHARES_VANISH: nat := WORD - 64

  /**
   The stored time does not run backwards, whatever two counter values are read one after the other,
   if and only if `time_t` holds every number of seconds, and the timebase is so small that no product
   wraps, or so large that no share is left.
   */
  lemma TimeIsMonotoneIff(base: U64, limit: nat)
    requires base > 0 && limit > 0
    ensures (forall m: U64, n: U64 :: m <= n ==> Stored(m, base, limit) <= Stored(n, base, limit))
       <==> SecondsFit(base, limit) && (MILLION * (base - 1) < WORD || base > ALL_SHARES_VANISH)
  {
    if !SecondsFit(base, limit) {
      var n := SecondsOverflow(base, limit);
      assert Stored(n - 1, base, limit) > Stored(n, base, limit);
    } else if MILLION * (base - 1) < WORD {
      TimeIsExactIff(base, limit);
      forall m: U64, n: U64 | m <= n ensures Stored(m, base, limit) <= Stored(n, base, limit) {
        DivMono(m * MILLION, n * MILLION, base);
      }
    } else if base > ALL_SHARES_VANISH {
      forall m: U64, n: U64 | m <= n ensures Stored(m, base, limit) <= Stored(n, base, limit) {
        NoShare(m, base, limit);
        NoShare(n, base, limit);
        DivMono(m, n, base);
      }
    } else {
      var m, n := TimeFalls(base, limit);
      assert Stored(m, base, limit) > Stored(n, base, limit);
    }
  }

  /** A wrapped product is a multiple of 64 below 2^64, so a larger timebase divides it to zero. */
  lemma NoShare(m: U64, base: U64, limit: nat)
    requires base > ALL_SHARES_VANISH && limit > 0 && SecondsFit(base, limit)
    ensures Stored(m, base, limit) == m / base * MILLION
  {
    var x := m % base * MILLION;
    assert x % 64 == 0;
    WrapOf64(x);
    FloorIff(Wrap(x), base, 1);
    FloorIff(Wrap(x), base, 0);
    SecondsFitEach(m, base, limit);
  }

  lemma WrapOf64(x: nat)
    requires x % 64 == 0
    ensures Wrap(x) <= WORD - 64
  {
    var y, k := x / 64, x / WORD;
    assert x == 64 * y && x == WORD * k + Wrap(x);
    assert Wrap(x) == 64 * (y - 0x400_0000_0000_0000 * k);
  }

  /** The first counter value whose product with a million wraps, and the one before it. */
  const FIRST_WRAP: U64 := 18446744073710

  /** A counter value whose product wraps to 2^64 - 64, so that the next one wraps to 999936. */
  const LAST_WRAP: U64 := 211750175222111943

  /** Two neighbouring counter values between which the stored time falls. */
  lemma TimeFalls(base: U64, limit: nat) returns (m: U64, n: U64)
    requires MILLION * (base - 1) >= WORD && base <= ALL_SHARES_VANISH && limit > 0
    ensures m < n && Stored(m, base, limit) > Stored(n, base, limit)
  {
    if base <= 18446744073709000000 {
      m, n := FIRST_WRAP - 1, FIRST_WRAP;
      FallsBetween(m, n, base, limit);
    } else {
      m, n := LAST_WRAP, LAST_WRAP + 1;
      FallsBetween(m, n, base, limit);
    }
  }

  lemma FallsBetween(m: U64, n: U64, base: U64, limit: nat)
    requires m <= n < base && Wrap(n * MILLION) < base <= Wrap(m * MILLION) && limit > 0
    ensures Stored(m, base, limit) > Stored(n, base, limit)
  {
    OwnRemainder(m, base);
    OwnRemainder(n, base);
    FloorIff(Wrap(m * MILLION), base, 1);
    FloorIff(Wrap(n * MILLION), base, 1);
  }

  /** For instance with a timebase of 2^45: both times are below a second, and the later one is smaller. */
  lemma TimeGoesBack(limit: nat)
    requires limit > 0
    ensures Stored(18446744073709, 35184372088832, limit) == 524287
    ensures Stored(18446744073710, 35184372088832, limit) == 0
  {
    OwnRemainder(18446744073709, 35184372088832);
    OwnRemainder(18446744073710, 35184372088832);
    ToTimeIs(0, limit);
  }

  /** A 32-bit `time_t` and a timebase of 32768 Hz: after 2^31 seconds the time is negative. */
  lemma SecondsTurnNegative()
    ensures Stored(0x4000_0000_0000 - 1, 32768, 0x8000_0000) == 0x7FFF_FFFF * MILLION + 999969
    ensures Stored(0x4000_0000_0000, 32768, 0x8000_0000) == -0x8000_0000 * MILLION
  {
  }

  class Tms {
    var utime: nat
    var stime: nat
    var cutime: nat
    var cstime: nat
  }

  /** `_times`: the elapsed microseconds as user time, and nothing else; exact modulo 2^64 on the same condition. */
  method Times(buf: Tms, mcc: U64, timebase: U64) returns (r: nat)
    requires timebase > 0
    modifies buf
    ensures r == buf.utime == Muldiv(mcc, MILLION, timebase)
    ensures r == mcc * MILLION / timebase % WORD <==> mcc % timebase * MILLION < WORD
    ensures buf.stime == 0 && buf.cutime == 0 && buf.cstime == 0
  {
    MuldivIff(mcc, MILLION, timebase);
    var elapsed := Muldiv(mcc, MILLION, timebase);
    buf.stime := 0;
    buf.cutime := 0;
    buf.cstime := 0;
    buf.utime := elapsed;
    r := elapsed;
  }
}
