/**
 The FE310 PLL driver (metal/src/drivers/sifive_fe310-g000_pll.c): choosing a table row, encoding
 it into the registers, and decoding the rate back. `long` is 32 bits wide.
 */
module Pll {
  import opened Arith
  import opened Bits
  import opened PllTable

  const LONG_MAX: int := 0x7FFF_FFFF
  const PLL_CONFIG_NOT_VALID: int := -1

  /** The register fields, as (lowest bit, width). */
  const R := (0, 3)
  const F := (4, 6)
  const Q := (10, 2)
  const SEL := (16, 1)
  const REFSEL := (17, 1)
  const BYPASS := (18, 1)
  const LOCK := (31, 1)
  const DIV_DIV := (0, 6)
  const DIV_1 := (8, 1)

  function MaskOf(field: (nat, nat)): nat {
    Mask(field.0, field.1)
  }

  function Get(reg: nat, field: (nat, nat)): nat {
    Field(reg, field.0, field.1)
  }

  /** The driver reads a field with the generic mask macro. */
  method ReadField(reg: nat, field: (nat, nat)) returns (v: nat)
    requires field.1 > 0
    ensures v == Get(reg, field)
  {
    GetFieldReads(reg, field.0, field.1);
    v := GetField(reg, MaskOf(field));
  }

  // ---- choosing a row ----

  predicate Valid(refHz: int, i: nat)
    requires i < ROWS
  {
    Config(i).minInput <= refHz <= Config(i).maxInput
  }

  /** `get_pll_config_freq`, with the product reduced to 32 bits. */
  function ConfigFreq(refHz: nat, c: Row): int
    requires c.divisor > 0
  {
    if refHz < c.minInput || refHz > c.maxInput then PLL_CONFIG_NOT_VALID
    else refHz * c.multiplier % 0x1_0000_0000 / c.divisor
  }

  function Predicted(refHz: nat, i: nat): int
    requires i < ROWS
  {
    TableConsistent(i);
    ConfigFreq(refHz, Config(i))
  }

  function Abs(x: int): nat {
    if x < 0 then -x else x
  }

  function Miss(refHz: nat, rate: int, i: nat): nat
    requires i < ROWS
  {
    Abs(Predicted(refHz, i) - rate)
  }

  /** Row `best` is valid, no valid row is nearer, and no valid row as near has a higher index. */
  predicate IsClosest(refHz: nat, rate: int, best: int) {
    if best == -1 then forall i: nat :: i < ROWS ==> !Valid(refHz, i)
    else
      && 0 <= best < ROWS && Valid(refHz, best)
      && forall i: nat :: i < ROWS && Valid(refHz, i) ==>
           Miss(refHz, rate, best) < Miss(refHz, rate, i)
           || (Miss(refHz, rate, best) == Miss(refHz, rate, i) && i <= best)
  }

  lemma ClosestIsUnique(refHz: nat, rate: int, a: int, b: int)
    requires IsClosest(refHz, rate, a) && IsClosest(refHz, rate, b)
    ensures a == b
  {
    if a != -1 && b != -1 {
      assert Valid(refHz, a) && Valid(refHz, b);
    }
  }

  /** On a valid row nothing wraps: the prediction is the exact scaled input, positive and 31-bit. */
  lemma FreqExact(refHz: nat, c: Row)
    requires c.Consistent() && c.minInput <= refHz <= c.maxInput
    ensures refHz * c.multiplier < 0x7FFF_FFFF
    ensures ConfigFreq(refHz, c) == refHz * c.multiplier / c.divisor
    ensures 1 <= ConfigFreq(refHz, c) < LONG_MAX
  {
    MulMono(refHz, c.maxInput, c.multiplier);
    MulMono(c.minInput, refHz, c.multiplier);
    var p := refHz * c.multiplier;
    assert p % 0x1_0000_0000 == p;
    FloorIff(p, c.divisor, 1);
    FloorIff(p, c.divisor, 0x7FFF_FFFF);
    MulMono(1, c.divisor, 0x7FFF_FFFF);
  }

  /** a is no farther from zero than b. */
  predicate NoFarther(a: int, b: int) {
    (a <= b || a <= -b) && (-a <= b || -a <= -b)
  }

  /** How far row i's exact rate, input times multiplier over divisor, lies above the rate asked for. */
  function Above(refHz: nat, rate: int, i: nat): int
    requires i < ROWS
  {
    TableConsistent(i);
    refHz * Config(i).multiplier / Config(i).divisor - rate
  }

  /** Row `best` takes this input, no other that does is nearer, and the last of those as near is chosen. */
  ghost predicate IsNearest(refHz: nat, rate: int, best: int) {
    if best == -1 then forall i: nat :: i < ROWS ==> !(Config(i).minInput <= refHz <= Config(i).maxInput)
    else
      && 0 <= best < ROWS && Config(best).minInput <= refHz <= Config(best).maxInput
      && forall i: nat {:trigger Config(i)} :: i < ROWS && Config(i).minInput <= refHz <= Config(i).maxInput ==>
           && NoFarther(Above(refHz, rate, best), Above(refHz, rate, i))
           && (NoFarther(Above(refHz, rate, i), Above(refHz, rate, best)) ==> i <= best)
  }

  /** The closest row by the driver's predictions is the nearest by the exact quotients. */
  lemma ClosestIsNearest(refHz: nat, rate: int, best: int)
    requires IsClosest(refHz, rate, best)
    ensures IsNearest(refHz, rate, best)
  {
    forall i: nat | i < ROWS && Valid(refHz, i) ensures Miss(refHz, rate, i) == Abs(Above(refHz, rate, i)) {
      TableConsistent(i);
      FreqExact(refHz, Config(i));
    }
    if best == -1 {
      forall i: nat | i < ROWS ensures !(Config(i).minInput <= refHz <= Config(i).maxInput) {
        assert !Valid(refHz, i);
      }
    } else {
      forall i: nat {:trigger Config(i)} | i < ROWS && Config(i).minInput <= refHz <= Config(i).maxInput
        ensures NoFarther(Above(refHz, rate, best), Above(refHz, rate, i))
        ensures NoFarther(Above(refHz, rate, i), Above(refHz, rate, best)) ==> i <= best
      {
        assert Valid(refHz, i);
      }
    }
  }

  /** `find_closest_config` */
  method FindClosestConfig(refHz: nat, rate: int) returns (closest: int)
    requires 0 <= rate <= LONG_MAX
    ensures IsClosest(refHz, rate, closest) && IsNearest(refHz, rate, closest)
  {
    closest := -1;
    var closestDiff: int := LONG_MAX;
    var i := ROWS - 1;
    while i >= 0
      invariant -1 <= i < ROWS && ClosestAbove(refHz, rate, i, closest, closestDiff)
    {
      closest, closestDiff := Consider(refHz, rate, i, closest, closestDiff);
      i := i - 1;
    }
    ClosestIsNearest(refHz, rate, closest);
  }

  /** The best of the rows after row i, and how far it misses. */
  predicate ClosestAbove(refHz: nat, rate: int, i: int, closest: int, diff: int)
    requires -1 <= i
  {
    if closest == -1 then diff == LONG_MAX && forall j: nat :: i < j < ROWS ==> !Valid(refHz, j)
    else
      && i < closest < ROWS && Valid(refHz, closest) && diff == Miss(refHz, rate, closest)
      && forall j: nat :: i < j < ROWS && Valid(refHz, j) ==>
           diff < Miss(refHz, rate, j) || (diff == Miss(refHz, rate, j) && j <= closest)
  }

  /** The loop body: row i replaces the best so far only when it is strictly nearer. */
  method Consider(refHz: nat, rate: int, i: nat, closest: int, diff: int) returns (closest': int, diff': int)
    requires i < ROWS && 0 <= rate <= LONG_MAX && ClosestAbove(refHz, rate, i, closest, diff)
    ensures ClosestAbove(refHz, rate, i - 1, closest', diff')
  {
    closest', diff' := closest, diff;
    var freq := Predicted(refHz, i);
    PredictionCases(refHz, rate, i);
    if freq != PLL_CONFIG_NOT_VALID {
      var miss := Abs(freq - rate);
      if miss < diff {
        closest', diff' := i, miss;
      }
    }
  }

  /** A row is valid exactly when its prediction is, and then it misses by less than the starting bound. */
  lemma PredictionCases(refHz: nat, rate: int, i: nat)
    requires i < ROWS && 0 <= rate <= LONG_MAX
    ensures Valid(refHz, i) <==> Predicted(refHz, i) != PLL_CONFIG_NOT_VALID
    ensures Valid(refHz, i) ==> Miss(refHz, rate, i) < LONG_MAX
  {
    TableConsistent(i);
    RowCases(refHz, rate, Config(i));
  }

  lemma RowCases(refHz: nat, rate: int, c: Row)
    requires c.Consistent() && 0 <= rate <= LONG_MAX
    ensures c.minInput <= refHz <= c.maxInput <==> ConfigFreq(refHz, c) != PLL_CONFIG_NOT_VALID
    ensures c.minInput <= refHz <= c.maxInput ==> Abs(ConfigFreq(refHz, c) - rate) < LONG_MAX
  {
    if c.minInput <= refHz <= c.maxInput {
      FreqExact(refHz, c);
    }
  }

  // ---- decoding the registers ----

  /** `get_rate_hz`: the muxes, then divide by r + 1, multiply by 2(f + 1), divide by 2^q and by the final divider. */
  function DecodedRate(cfg: nat, div: nat, pllref: int, pllsel0: int): int {
    if Get(cfg, SEL) == 0 then pllsel0
    else
      var refHz := if Get(cfg, REFSEL) != 0 then pllref else pllsel0;
      if Get(cfg, BYPASS) != 0 then refHz
      else if Get(cfg, Q) == 0 then -1
      else
        var pllout := refHz / (Get(cfg, R) + 1) * (2 * (Get(cfg, F) + 1)) / Pow2(Get(cfg, Q));
        if Get(div, DIV_1) != 0 then pllout else pllout / (2 * (Get(div, DIV_DIV) + 1))
  }

  /** The registers hold row c: its fields are encoded and the final divider is set or disabled. */
  predicate Encodes(cfg: nat, div: nat, c: Row) {
    && Get(cfg, R) == c.r && Get(cfg, F) == c.f && Get(cfg, Q) == c.q
    && EncodesDivider(div, c.d)
  }

  predicate EncodesDivider(div: nat, d: int) {
    if d < 0 then Get(div, DIV_1) == 1 else Get(div, DIV_1) == 0 && Get(div, DIV_DIV) == d
  }

  /** What decoding can lose: the remainder of the first division, scaled by the row's ratio. */
  function Slack(c: Row): int
    requires c.divisor > 0
  {
    CeilDiv(c.r * c.multiplier, c.divisor)
  }

  /** Divide by r, multiply by n, divide by q and by d: one division of the truncated input by the ratio m / k. */
  lemma ChainIsOneDivision(x: nat, r: nat, n: nat, q: nat, d: nat, m: nat, k: nat)
    requires r > 0 && q > 0 && d > 0 && k > 0 && m * r * q * d == k * n
    ensures x / r * n / q / d == x / r * r * m / k
  {
    var a := x / r;
    DivDiv(a * n, q, d);
    assert n * k == m * r * (q * d) by {
      assert m * r * q * d == m * r * (q * d);
    }
    SameRatio(a, n, q * d, m * r, k);
    assert a * (m * r) == a * r * m;
  }

  /** The chain lies between the exact scaled input less the scaled remainder bound, and the scaled input. */
  lemma ChainWithinSlack(x: nat, r: nat, n: nat, q: nat, d: nat, m: nat, k: nat)
    requires r > 0 && q > 0 && d > 0 && k > 0 && m * r * q * d == k * n
    ensures x * m / k - CeilDiv((r - 1) * m, k) <= x / r * n / q / d <= x * m / k
  {
    ChainIsOneDivision(x, r, n, q, d, m, k);
    var kept, lost := x / r * r, x % r;
    assert x * m == kept * m + lost * m;
    MulMono(0, lost, m);
    DivAdds(kept * m, lost * m, k);
    MulMono(lost, r - 1, m);
    DivMono(lost * m + k - 1, (r - 1) * m + k - 1, k);
  }

  /**
   Any register contents in plain numbers: the input named by the selection, the input named by the
   reference bit under bypass, -1 for a zero q, and otherwise a rate between the input times
   2(f + 1) / ((r + 1) 2^q d), and that less what dividing by r + 1 first can lose.
   */
  ghost predicate RateOf(cfg: nat, div: nat, pllref: nat, pllsel0: nat, hz: int) {
    var refHz := if Field(cfg, 17, 1) == 0 then pllsel0 else pllref;
    var (r, f, q) := (Field(cfg, 0, 3), Field(cfg, 4, 6), Field(cfg, 10, 2));
    var d := if Field(div, 8, 1) == 0 then 2 * (Field(div, 0, 6) + 1) else 1;
    if Field(cfg, 16, 1) == 0 then hz == pllsel0
    else if Field(cfg, 18, 1) != 0 then hz == refHz
    else if q == 0 then hz == -1
    else InRange(refHz, r, 2 * (f + 1), Pow2(q), d, hz)
  }

  predicate InRange(x: nat, r: nat, n: nat, q: nat, d: nat, hz: int) {
    var k := Product3(r + 1, q, d);
    k > 0 && x * n / k - CeilDiv(r * n, k) <= hz <= x * n / k
  }

  function Product3(a: nat, b: nat, c: nat): nat {
    a * b * c
  }

  lemma ChainInRange(x: nat, r: nat, n: nat, q: nat, d: nat)
    requires q > 0 && d > 0
    ensures InRange(x, r, n, q, d, x / (r + 1) * n / q / d)
  {
    var k := Product3(r + 1, q, d);
    MulMono(1, r + 1, q);
    MulMono(1, (r + 1) * q, d);
    assert n * (r + 1) * q * d == k * n;
    ChainWithinSlack(x, r + 1, n, q, d, n, k);
  }

  lemma DecodedRateIs(cfg: nat, div: nat, pllref: nat, pllsel0: nat)
    ensures RateOf(cfg, div, pllref, pllsel0, DecodedRate(cfg, div, pllref, pllsel0))
  {
    var refHz := if Field(cfg, 17, 1) == 0 then pllsel0 else pllref;
    var d := if Field(div, 8, 1) == 0 then 2 * (Field(div, 0, 6) + 1) else 1;
    ChainInRange(refHz, Field(cfg, 0, 3), 2 * (Field(cfg, 4, 6) + 1), Pow2(Field(cfg, 10, 2)), d);
  }

  lemma RowWithinSlack(refHz: nat, c: Row)
    requires c.Consistent() && c.minInput <= refHz <= c.maxInput
    ensures c.FinalDivide() > 0
    ensures refHz / (c.r + 1) * (2 * (c.f + 1)) < 0x8000_0000
    ensures refHz * c.multiplier / c.divisor - Slack(c)
         <= refHz / (c.r + 1) * (2 * (c.f + 1)) / Pow2(c.q) / c.FinalDivide()
         <= refHz * c.multiplier / c.divisor
  {
    ChainWithinSlack(refHz, c.r + 1, 2 * (c.f + 1), Pow2(c.q), c.FinalDivide(), c.multiplier, c.divisor);
    DivMono(refHz, c.maxInput, c.r + 1);
    MulMono(refHz / (c.r + 1), c.maxInput / (c.r + 1), 2 * (c.f + 1));
  }

  /** Decoding an encoded valid row gives the predicted rate, up to the slack, without 32-bit overflow. */
  lemma EncodedRateWithinSlack(cfg: nat, div: nat, pllref: nat, pllsel0: nat, i: nat)
    requires i < ROWS && Encodes(cfg, div, Config(i))
    requires Get(cfg, SEL) == 1 && Get(cfg, BYPASS) == 0
    requires Valid(if Get(cfg, REFSEL) != 0 then pllref else pllsel0, i)
    ensures var refHz := if Get(cfg, REFSEL) != 0 then pllref else pllsel0;
            && Config(i).divisor > 0
            && refHz / (Config(i).r + 1) * (2 * (Config(i).f + 1)) < 0x8000_0000
            && Predicted(refHz, i) - Slack(Config(i)) <= DecodedRate(cfg, div, pllref, pllsel0) <= Predicted(refHz, i)
  {
    var refHz := if Get(cfg, REFSEL) != 0 then pllref else pllsel0;
    TableConsistent(i);
    FreqExact(refHz, Config(i));
    RowWithinSlack(refHz, Config(i));
    DecodesToChain(cfg, div, pllref, pllsel0, Config(i));
  }

  lemma DecodesToChain(cfg: nat, div: nat, pllref: nat, pllsel0: nat, c: Row)
    requires c.Consistent() && Encodes(cfg, div, c)
    requires Get(cfg, SEL) == 1 && Get(cfg, BYPASS) == 0
    ensures var refHz := if Get(cfg, REFSEL) != 0 then pllref else pllsel0;
            c.FinalDivide() > 0
            && DecodedRate(cfg, div, pllref, pllsel0)
            == refHz / (c.r + 1) * (2 * (c.f + 1)) / Pow2(c.q) / c.FinalDivide()
  {
  }

  // ---- driving the registers ----

  /** Bits of the configuration register that no field of the driver and no lock bit covers. */
  predicate Reserved(i: nat) {
    !(i < 3 || 4 <= i < 12 || i == 16 || i == 18 || i == 31)
  }

  ghost predicate ReservedKept(a: nat, b: nat) {
    forall i: nat :: Reserved(i) ==> Bit(a, i) == Bit(b, i)
  }

  lemma ReservedKeptBy(w: nat, low: nat, width: nat, v: nat)
    requires forall i: nat :: low <= i < low + width ==> !Reserved(i)
    ensures ReservedKept(w, WriteField(w, low, width, v))
    ensures ReservedKept(w, Or(w, Mask(low, width)))
    ensures ReservedKept(w, AndNot(w, Mask(low, width)))
  {
    forall i: nat | Reserved(i)
      ensures Bit(w, i) == Bit(WriteField(w, low, width, v), i)
           == Bit(Or(w, Mask(low, width)), i) == Bit(AndNot(w, Mask(low, width)), i)
    {
      WriteFieldBit(w, low, width, v, i);
      BitOfOr(w, Mask(low, width), i);
      BitOfAndNot(w, Mask(low, width), i);
      BitOfMask(low, width, i);
    }
  }

  lemma ReservedKeptRefsel(a: nat, b: nat)
    requires ReservedKept(a, b)
    ensures Get(a, REFSEL) == Get(b, REFSEL)
  {
    forall i: nat ensures Bit(Get(a, REFSEL), i) == Bit(Get(b, REFSEL), i) {
      BitOfField(a, 17, 1, i);
      BitOfField(b, 17, 1, i);
      if i == 0 {
        assert Reserved(17);
      }
    }
    Extensional(Get(a, REFSEL), Get(b, REFSEL));
  }

  /** Which clock feeds the PLL. */
  function InputRate(cfg: nat, pllref: nat, pllsel0: nat): nat {
    if Get(cfg, REFSEL) != 0 then pllref else pllsel0
  }

  /** Requests within 75% to 125% of the input clock bypass the PLL. */
  predicate InBypassWindow(refHz: nat, rate: int) {
    refHz * 3 / 4 <= rate <= refHz * 5 / 4
  }

  /** In whole numbers, without the divisions. */
  lemma BypassWindowIs(refHz: nat, rate: int)
    ensures InBypassWindow(refHz, rate) <==> 3 * refHz - 3 <= 4 * rate <= 5 * refHz
  {
  }

  lemma WritesKept(w: nat, low: nat, width: nat, v: nat, field: (nat, nat))
    requires low + width <= field.0 || field.0 + field.1 <= low
    ensures Get(WriteField(w, low, width, v), field) == Get(w, field)
    ensures Get(Or(w, Mask(low, width)), field) == Get(w, field)
    ensures Get(AndNot(w, Mask(low, width)), field) == Get(w, field)
  {
    WriteKeepsOthers(w, low, width, v, field.0, field.1);
    SetAndClearKeepOthers(w, low, width, field.0, field.1);
  }

  // ---- the registers over time ----

  datatype Registers = Registers(cfg: nat, div: nat)

  /** While the PLL drives the core clock, before or after a step, the step leaves its settings alone. */
  ghost predicate StepIsSafe(a: Registers, b: Registers) {
    Get(a.cfg, SEL) == 0 == Get(b.cfg, SEL) || (a.div == b.div && SameSettings(a.cfg, b.cfg))
  }

  ghost predicate SameSettings(a: nat, b: nat) {
    Get(a, R) == Get(b, R) && Get(a, F) == Get(b, F) && Get(a, Q) == Get(b, Q) && Get(a, BYPASS) == Get(b, BYPASS)
  }

  lemma DeselectIsSafe(w: nat)
    ensures Get(AndNot(w, MaskOf(SEL)), SEL) == 0 && SameSettings(w, AndNot(w, MaskOf(SEL)))
    ensures ReservedKept(w, AndNot(w, MaskOf(SEL)))
  {
    SetAndClear(w, 16, 1);
    WritesKept(w, 16, 1, 0, R);
    WritesKept(w, 16, 1, 0, F);
    WritesKept(w, 16, 1, 0, Q);
    WritesKept(w, 16, 1, 0, BYPASS);
    ReservedKeptBy(w, 16, 1, 0);
  }

  /** A register write to another field leaves the selection as it was. */
  lemma SelectionKept(w: nat, field: (nat, nat), v: nat)
    requires field.0 + field.1 <= 16 || 17 <= field.0
    ensures Get(AndNot(w, MaskOf(field)), SEL) == Get(w, SEL) == Get(Or(w, MaskOf(field)), SEL)
    ensures Get(WriteField(w, field.0, field.1, v), SEL) == Get(w, SEL)
  {
    WritesKept(w, field.0, field.1, v, SEL);
  }

  class Device {
    var pllcfg: nat
    var plloutdiv: nat
    const pllref: nat
    const pllsel0: nat
    /** The registers' contents after each write so far. */
    ghost var history: seq<Registers>

    constructor (cfg: nat, div: nat, pllref: nat, pllsel0: nat)
      ensures Valid() && pllcfg == cfg && plloutdiv == div && this.pllref == pllref && this.pllsel0 == pllsel0
    {
      pllcfg, plloutdiv, history := cfg, div, [Registers(cfg, div)];
      this.pllref, this.pllsel0 := pllref, pllsel0;
    }

    /** The history ends in the registers' contents, and every step of it is safe. */
    ghost predicate Valid()
      reads `pllcfg, `plloutdiv, `history
    {
      && |history| > 0 && history[|history| - 1] == Registers(pllcfg, plloutdiv)
      && forall i :: 0 < i < |history| ==> StepIsSafe(history[i - 1], history[i])
    }

    /** One write to the configuration register, by the driver or by the device itself. */
    method WriteConfig(w: nat)
      requires Valid() && StepIsSafe(Registers(pllcfg, plloutdiv), Registers(w, plloutdiv))
      modifies `pllcfg, `history
      ensures Valid() && pllcfg == w && old(history) <= history
    {
      pllcfg := w;
      history := history + [Registers(pllcfg, plloutdiv)];
    }

    /** One write to the divider register. */
    method WriteDivider(w: nat)
      requires Valid() && Get(pllcfg, SEL) == 0
      modifies `plloutdiv, `history
      ensures Valid() && plloutdiv == w && old(history) <= history
    {
      plloutdiv := w;
      history := history + [Registers(pllcfg, plloutdiv)];
    }

    /** Clear a field of the configuration register, then or the shifted value in: two register writes. */
    method Encode(field: (nat, nat), v: nat)
      requires Valid() && Get(pllcfg, SEL) == 0 && (field.0 + field.1 <= 16 || 17 <= field.0)
      modifies `pllcfg, `history
      ensures pllcfg == WriteField(old(pllcfg), field.0, field.1, v)
      ensures Valid() && Get(pllcfg, SEL) == 0 && old(history) <= history
    {
      SelectionKept(pllcfg, field, v);
      WriteConfig(AndNot(pllcfg, MaskOf(field)));
      WriteConfig(Or(pllcfg, And(Shl(v, field.0), MaskOf(field))));
    }

    /** The final divider's register: a negative d turns the divider off. */
    method EncodeDivider(d: int)
      requires -1 <= d < 64 && Valid() && Get(pllcfg, SEL) == 0
      modifies `plloutdiv, `history
      ensures EncodesDivider(plloutdiv, d) && Valid() && old(history) <= history
      ensures DividerLeft(old(plloutdiv), plloutdiv, d)
    {
      if d < 0 {
        WriteDivider(Or(plloutdiv, MaskOf(DIV_1)));
      } else {
        WriteDivider(AndNot(plloutdiv, MaskOf(DIV_1)));
      }
      ghost var w := plloutdiv;
      var v := if d < 0 then 1 else d;
      WriteDivider(AndNot(plloutdiv, MaskOf(DIV_DIV)));
      WriteDivider(Or(plloutdiv, And(Shl(v, 0), MaskOf(DIV_DIV))));
      DividerEncoded(old(plloutdiv), w, d);
    }

    /** Poll until the device raises the lock bit, which it does after some number of polls. */
    method WaitForLock(polls: nat)
      requires Valid() && Get(pllcfg, SEL) == 0
      modifies `pllcfg, `history
      ensures pllcfg == old(pllcfg) || pllcfg == Or(old(pllcfg), MaskOf(LOCK))
      ensures And(pllcfg, MaskOf(LOCK)) != 0
      ensures Valid() && old(history) <= history
    {
      var n := 0;
      while And(pllcfg, MaskOf(LOCK)) == 0
        invariant n <= polls || And(pllcfg, MaskOf(LOCK)) != 0
        invariant n <= polls + 1
        invariant pllcfg == old(pllcfg) || (pllcfg == Or(old(pllcfg), MaskOf(LOCK)) && And(pllcfg, MaskOf(LOCK)) != 0)
        invariant Valid() && old(history) <= history
        decreases polls + 1 - n
      {
        if n >= polls {
          OrMeets(pllcfg, MaskOf(LOCK), 31);
          SelectionKept(pllcfg, LOCK, 0);
          WriteConfig(Or(pllcfg, MaskOf(LOCK)));
        }
        n := n + 1;
      }
    }

    /** Set or clear the bypass bit. */
    method SetBypass(on: bool)
      requires Valid() && Get(pllcfg, SEL) == 0
      modifies `pllcfg, `history
      ensures pllcfg == if on then Or(old(pllcfg), MaskOf(BYPASS)) else AndNot(old(pllcfg), MaskOf(BYPASS))
      ensures Valid() && Get(pllcfg, SEL) == 0 && old(history) <= history
    {
      SelectionKept(pllcfg, BYPASS, 0);
      WriteConfig(if on then Or(pllcfg, MaskOf(BYPASS)) else AndNot(pllcfg, MaskOf(BYPASS)));
    }

    /** Set or clear the selection bit. */
    method Select(on: bool)
      requires Valid()
      modifies `pllcfg, `history
      ensures pllcfg == if on then Or(old(pllcfg), MaskOf(SEL)) else AndNot(old(pllcfg), MaskOf(SEL))
      ensures Valid() && old(history) <= history
    {
      SelectKeepsFields(pllcfg);
      DeselectIsSafe(pllcfg);
      WriteConfig(if on then Or(pllcfg, MaskOf(SEL)) else AndNot(pllcfg, MaskOf(SEL)));
    }

    /** `configure_pll` */
    method Configure(c: Row, polls: nat)
      requires c.Consistent() && Valid() && Get(pllcfg, SEL) == 0
      modifies `pllcfg, `plloutdiv, `history
      ensures Configured(old(pllcfg), pllcfg, c) && EncodesDivider(plloutdiv, c.d) && Bit(pllcfg, 31)
      ensures Valid() && old(history) <= history
    {
      Encode(R, c.r);
      Encode(F, c.f);
      Encode(Q, c.q);
      EncodeDivider(c.d);
      SetBypass(false);
      EncodedFields(old(pllcfg), c);
      assert pllcfg == EncodedWord(old(pllcfg), c);
      LockKeepsFields(old(pllcfg), pllcfg, c);
      WaitForLock(polls);
      LockSeen(pllcfg);
    }

    /** `get_rate_hz` */
    method GetRateHz() returns (hz: int)
      ensures hz == DecodedRate(pllcfg, plloutdiv, pllref, pllsel0)
      ensures RateOf(pllcfg, plloutdiv, pllref, pllsel0, hz)
    {
      DecodedRateIs(pllcfg, plloutdiv, pllref, pllsel0);
      var sel := ReadField(pllcfg, SEL);
      if sel == 0 {
        return pllsel0;
      }
      var refsel := ReadField(pllcfg, REFSEL);
      var refHz := if refsel != 0 then pllref else pllsel0;
      var bypass := ReadField(pllcfg, BYPASS);
      if bypass != 0 {
        return refHz;
      }
      var r := ReadField(pllcfg, R);
      var f := ReadField(pllcfg, F);
      var q := ReadField(pllcfg, Q);
      if q == 0 {
        return -1;
      }
      var pllout := refHz / (r + 1) * (2 * (f + 1)) / Pow2(q);
      var div1 := ReadField(plloutdiv, DIV_1);
      if div1 != 0 {
        return pllout;
      }
      var d := ReadField(plloutdiv, DIV_DIV);
      return pllout / (2 * (d + 1));
    }

    /** The core clock leaves the PLL, if it was on it. */
    method Deselect()
      requires Valid()
      modifies `pllcfg, `history
      ensures Valid() && Get(pllcfg, SEL) == 0 && old(history) <= history
      ensures ReservedKept(old(pllcfg), pllcfg)
    {
      if Get(pllcfg, SEL) != 0 {
        DeselectIsSafe(pllcfg);
        Select(false);
      }
    }

    /** The deselected PLL is bypassed, or set to the closest valid row if there is one. */
    method Program(refHz: nat, rate: int, polls: nat) returns (row: int)
      requires 0 <= rate <= LONG_MAX && refHz * 5 <= LONG_MAX && Valid() && Get(pllcfg, SEL) == 0
      modifies `pllcfg, `plloutdiv, `history
      ensures Valid() && old(history) <= history
      ensures ReservedKept(old(pllcfg), pllcfg) && Get(pllcfg, BYPASS) == if row >= 0 then 0 else 1
      ensures if InBypassWindow(refHz, rate) then row == -2 else IsClosest(refHz, rate, row)
      ensures row >= 0 ==> row < ROWS && Encodes(pllcfg, plloutdiv, Config(row)) && Bit(pllcfg, 31)
    {
      if refHz * 3 / 4 <= rate && refHz * 5 / 4 >= rate {
        BypassSet(pllcfg);
        SetBypass(true);
        return -2;
      }
      row := FindClosestConfig(refHz, rate);
      if row != -1 {
        TableConsistent(row);
        Configure(Config(row), polls);
      } else {
        BypassSet(pllcfg);
        SetBypass(true);
      }
    }

    /**
     `set_rate_hz`, end to end. Outside the bypass window the PLL runs the closest valid row and
     the rate it reports lies within that row's slack below the prediction; with no valid row it
     reports the input rate. `row` is -2 when the request was inside the bypass window. By `Valid`,
     no write on the way touches the dividers, the multiplier or the bypass while the PLL is selected.
     */
    method SetRateHz(rate: int, polls: nat) returns (hz: int, row: int)
      requires 0 <= rate <= LONG_MAX && Valid()
      requires InputRate(pllcfg, pllref, pllsel0) * 5 <= LONG_MAX
      modifies `pllcfg, `plloutdiv, `history
      ensures Valid() && old(history) <= history
      ensures ReservedKept(old(pllcfg), pllcfg) && Get(pllcfg, SEL) == 1
      ensures Get(pllcfg, BYPASS) == if row >= 0 then 0 else 1
      ensures hz == DecodedRate(pllcfg, plloutdiv, pllref, pllsel0)
      ensures row >= 0 ==> Bit(pllcfg, 31)
      ensures var refHz := InputRate(old(pllcfg), pllref, pllsel0);
              if 3 * refHz - 3 <= 4 * rate <= 5 * refHz then row == -2 && hz == refHz
              else
                && IsClosest(refHz, rate, row)
                && (row == -1 ==> hz == refHz)
                && (row >= 0 ==>
                      && Encodes(pllcfg, plloutdiv, Config(row)) && Config(row).divisor > 0
                      && Predicted(refHz, row) - Slack(Config(row)) <= hz <= Predicted(refHz, row))
    {
      Deselect();
      ReservedKeptRefsel(old(pllcfg), pllcfg);
      var refHz := if Get(pllcfg, REFSEL) != 0 then pllref else pllsel0;
      row := Program(refHz, rate, polls);
      BypassWindowIs(refHz, rate);
      SelectKeepsFields(pllcfg);
      LockStays(pllcfg);
      Select(true);
      ReservedKeptRefsel(old(pllcfg), pllcfg);
      hz := GetRateHz();
      if row >= 0 {
        EncodedRateWithinSlack(pllcfg, plloutdiv, pllref, pllsel0, row);
      }
    }
  }

  lemma DividerEncoded(before: nat, w: nat, d: int)
    requires -1 <= d < 64 && w == if d < 0 then Or(before, MaskOf(DIV_1)) else AndNot(before, MaskOf(DIV_1))
    ensures EncodesDivider(WriteField(w, 0, 6, if d < 0 then 1 else d), d)
    ensures DividerLeft(before, WriteField(w, 0, 6, if d < 0 then 1 else d), d)
  {
    var v := if d < 0 then 1 else d;
    SetAndClear(before, 8, 1);
    WritesKept(w, 0, 6, v, DIV_1);
    WriteThenRead(w, 0, 6, v);
    assert Ones(1) == 1;
    LowKeepsSmall(v, 6);
    forall i: nat | i >= 6 && i != 8 ensures Bit(WriteField(w, 0, 6, v), i) == Bit(before, i) {
      WriteFieldBit(w, 0, 6, v, i);
      BitOfOr(before, Mask(8, 1), i);
      BitOfAndNot(before, Mask(8, 1), i);
      BitOfMask(8, 1, i);
    }
  }

  /** The divider register: the value in bits 0 to 5, off in bit 8, the rest kept. */
  ghost predicate DividerLeft(before: nat, after: nat, d: int) {
    && Field(after, 0, 6) == (if d < 0 then 1 else d)
    && Field(after, 8, 1) == (if d < 0 then 1 else 0)
    && forall i: nat :: i >= 6 && i != 8 ==> Bit(after, i) == Bit(before, i)
  }

  lemma LockSeen(w: nat)
    requires And(w, MaskOf(LOCK)) != 0
    ensures Bit(w, 31)
  {
    if !Bit(w, 31) {
      forall i: nat ensures Bit(And(w, MaskOf(LOCK)), i) == Bit(0, i) {
        BitOfAnd(w, MaskOf(LOCK), i);
        BitOfMask(31, 1, i);
        BitOfZero(i);
      }
      Extensional(And(w, MaskOf(LOCK)), 0);
    }
  }

  lemma LockStays(w: nat)
    ensures Bit(Or(w, MaskOf(SEL)), 31) == Bit(w, 31)
  {
    BitOfOr(w, MaskOf(SEL), 31);
    BitOfMask(16, 1, 31);
  }

  lemma OrMeets(w: nat, m: nat, i: nat)
    requires m == Mask(i, 1)
    ensures And(Or(w, m), m) != 0
  {
    BitOfAnd(Or(w, m), m, i);
    BitOfOr(w, m, i);
    BitOfMask(i, 1, i);
    BitOfZero(i);
  }

  lemma LowKeepsSmall(v: nat, n: nat)
    requires (v < 64 && n == 6) || (v < 8 && n == 3) || (v < 4 && n == 2)
    ensures Low(v, n) == v
  {
    LowFixesIffFits(v, n);
    assert Pow2(2) == 4 && Pow2(3) == 8;
    assert Pow2(6) == 8 * Pow2(3);
  }

  function EncodedWord(w: nat, c: Row): nat {
    AndNot(WriteField(WriteField(WriteField(w, 0, 3, c.r), 4, 6, c.f), 10, 2, c.q), MaskOf(BYPASS))
  }

  /** Register e holds row c's fields without bypass, and otherwise agrees with w. */
  ghost predicate Configured(w: nat, e: nat, c: Row) {
    && Get(e, R) == c.r && Get(e, F) == c.f && Get(e, Q) == c.q && Get(e, BYPASS) == 0
    && Get(e, SEL) == Get(w, SEL) && ReservedKept(w, e)
  }

  lemma EncodedFields(w: nat, c: Row)
    requires c.Consistent()
    ensures Configured(w, EncodedWord(w, c), c)
  {
    var w1 := WriteField(w, 0, 3, c.r);
    var w2 := WriteField(w1, 4, 6, c.f);
    var w3 := WriteField(w2, 10, 2, c.q);
    WriteThenRead(w, 0, 3, c.r);
    WritesKept(w1, 4, 6, c.f, R);
    WritesKept(w2, 10, 2, c.q, R);
    WritesKept(w3, 18, 1, 0, R);
    WriteThenRead(w1, 4, 6, c.f);
    WritesKept(w2, 10, 2, c.q, F);
    WritesKept(w3, 18, 1, 0, F);
    WriteThenRead(w2, 10, 2, c.q);
    WritesKept(w3, 18, 1, 0, Q);
    SetAndClear(w3, 18, 1);
    WritesKept(w, 0, 3, c.r, SEL);
    WritesKept(w1, 4, 6, c.f, SEL);
    WritesKept(w2, 10, 2, c.q, SEL);
    WritesKept(w3, 18, 1, 0, SEL);
    LowKeepsSmall(c.r, 3);
    LowKeepsSmall(c.f, 6);
    LowKeepsSmall(c.q, 2);
    ReservedKeptBy(w, 0, 3, c.r);
    ReservedKeptBy(w1, 4, 6, c.f);
    ReservedKeptBy(w2, 10, 2, c.q);
    ReservedKeptBy(w3, 18, 1, 0);
  }

  lemma LockKeepsFields(w: nat, e: nat, c: Row)
    requires Configured(w, e, c)
    ensures Configured(w, Or(e, MaskOf(LOCK)), c)
  {
    WritesKept(e, 31, 1, 0, R);
    WritesKept(e, 31, 1, 0, F);
    WritesKept(e, 31, 1, 0, Q);
    WritesKept(e, 31, 1, 0, BYPASS);
    WritesKept(e, 31, 1, 0, SEL);
    ReservedKeptBy(e, 31, 1, 0);
  }

  lemma BypassSet(w: nat)
    ensures Get(Or(w, MaskOf(BYPASS)), BYPASS) == 1 && ReservedKept(w, Or(w, MaskOf(BYPASS)))
  {
    SetAndClear(w, 18, 1);
    assert Ones(1) == 1;
    ReservedKeptBy(w, 18, 1, 0);
  }

  lemma SelectKeepsFields(w: nat)
    ensures var e := Or(w, MaskOf(SEL));
            && Get(e, SEL) == 1 && ReservedKept(w, e) && Get(e, BYPASS) == Get(w, BYPASS)
            && Get(e, R) == Get(w, R) && Get(e, F) == Get(w, F) && Get(e, Q) == Get(w, Q)
  {
    SetAndClear(w, 16, 1);
    assert Ones(1) == 1;
    WritesKept(w, 16, 1, 0, R);
    WritesKept(w, 16, 1, 0, F);
    WritesKept(w, 16, 1, 0, Q);
    WritesKept(w, 16, 1, 0, BYPASS);
    ReservedKeptBy(w, 16, 1, 0);
  }
}
