/** The PLL's configuration table (metal/src/drivers/sifive_fe310-g000_pll.c, `pll_configs`). */
module PllTable {
  import opened Bits

  /** A row; `d` is negative when the final divider is off. */
  datatype Row = Row(multiplier: nat, divisor: nat, minInput: nat, maxInput: nat, r: nat, f: nat, q: nat, d: int) {
    /** The divide ratio of the final divider. */
    function FinalDivide(): nat {
      if d < 0 then 1 else 2 * (d + 1)
    }

    /** Register values fit their fields, and the encoded ratio is the row's multiplier over its divisor. */
    predicate Consistent() {
      && r < 8 && f < 64 && 1 <= q < 4 && -1 <= d < 64
      && divisor > 0 && minInput * multiplier >= divisor
      && maxInput * multiplier < 0x7FFF_FFFF
      && maxInput / (r + 1) * (2 * (f + 1)) < 0x8000_0000
      && multiplier * (r + 1) * Pow2(q) * FinalDivide() == divisor * (2 * (f + 1))
    }
  }

  const ROWS: nat := 68

  function Config(i: nat): Row
    requires i < ROWS
  {
    match i
    case 0 => Row(1, 32, 12000000, 24000000, 1, 31, 3, 63)
    case 1 => Row(1, 32, 24000000, 48000000, 3, 31, 2, 63)
    case 2 => Row(1, 16, 6000000, 12000000, 0, 31, 3, 63)
    case 3 => Row(1, 16, 12000000, 24000000, 1, 31, 2, 63)
    case 4 => Row(1, 16, 24000000, 48000000, 3, 31, 2, 31)
    case 5 => Row(1, 8, 6000000, 12000000, 0, 31, 3, 31)
    case 6 => Row(1, 8, 12000000, 24000000, 1, 31, 2, 31)
    case 7 => Row(1, 8, 24000000, 48000000, 3, 31, 2, 15)
    case 8 => Row(1, 4, 6000000, 12000000, 0, 31, 3, 15)
    case 9 => Row(1, 4, 12000000, 24000000, 1, 31, 2, 15)
    case 10 => Row(1, 4, 24000000, 48000000, 3, 31, 2, 7)
    case 11 => Row(1, 2, 6000000, 12000000, 0, 31, 2, 15)
    case 12 => Row(1, 2, 12000000, 24000000, 1, 31, 1, 15)
    case 13 => Row(1, 2, 24000000, 48000000, 3, 31, 1, 7)
    case 14 => Row(2, 1, 6000000, 12000000, 0, 31, 1, 7)
    case 15 => Row(2, 1, 12000000, 24000000, 1, 31, 1, 3)
    case 16 => Row(2, 1, 24000000, 48000000, 3, 31, 3, -1)
    case 17 => Row(4, 1, 6000000, 12000000, 0, 31, 3, 0)
    case 18 => Row(4, 1, 12000000, 24000000, 1, 31, 3, -1)
    case 19 => Row(4, 1, 24000000, 48000000, 3, 31, 2, -1)
    case 20 => Row(6, 1, 6000000, 10666666, 0, 35, 1, 2)
    case 21 => Row(6, 1, 10666666, 12000000, 0, 23, 3, -1)
    case 22 => Row(6, 1, 12000000, 16000000, 1, 47, 3, -1)
    case 23 => Row(6, 1, 16000000, 18000000, 1, 23, 2, -1)
    case 24 => Row(6, 1, 18000000, 21333333, 2, 35, 2, -1)
    case 25 => Row(8, 1, 6000000, 12000000, 0, 31, 3, -1)
    case 26 => Row(8, 1, 12000000, 24000000, 1, 31, 2, -1)
    case 27 => Row(8, 1, 24000000, 48000000, 3, 31, 1, -1)
    case 28 => Row(10, 1, 6000000, 9600000, 0, 39, 3, -1)
    case 29 => Row(10, 1, 9600000, 12000000, 0, 19, 2, -1)
    case 30 => Row(10, 1, 12000000, 19200000, 1, 39, 2, -1)
    case 31 => Row(10, 1, 19200000, 24000000, 1, 19, 1, -1)
    case 32 => Row(10, 1, 24000000, 38400000, 3, 39, 1, -1)
    case 33 => Row(12, 1, 6000000, 8000000, 0, 47, 3, -1)
    case 34 => Row(12, 1, 8000000, 12000000, 0, 23, 2, -1)
    case 35 => Row(12, 1, 12000000, 16000000, 1, 47, 2, -1)
    case 36 => Row(12, 1, 16000000, 24000000, 1, 23, 1, -1)
    case 37 => Row(12, 1, 24000000, 30000000, 3, 47, 1, -1)
    case 38 => Row(12, 1, 30000000, 32000000, 3, 47, 1, -1)
    case 39 => Row(14, 1, 6000000, 6857142, 0, 55, 3, -1)
    case 40 => Row(14, 1, 6857143, 12000000, 0, 27, 2, -1)
    case 41 => Row(14, 1, 12000000, 13714285, 1, 55, 2, -1)
    case 42 => Row(14, 1, 13714286, 24000000, 1, 27, 1, -1)
    case 43 => Row(14, 1, 24000000, 27428571, 3, 55, 1, -1)
    case 44 => Row(16, 1, 6000000, 12000000, 0, 31, 2, -1)
    case 45 => Row(16, 1, 12000000, 24000000, 1, 31, 1, -1)
    case 46 => Row(18, 1, 6000000, 10666666, 0, 35, 2, -1)
    case 47 => Row(18, 1, 10666667, 12000000, 0, 17, 1, -1)
    case 48 => Row(18, 1, 12000000, 21333333, 1, 35, 1, -1)
    case 49 => Row(20, 1, 6000000, 9600000, 0, 39, 2, -1)
    case 50 => Row(20, 1, 9600000, 12000000, 0, 19, 1, -1)
    case 51 => Row(20, 1, 12000000, 19200000, 1, 39, 1, -1)
    case 52 => Row(22, 1, 6000000, 8727272, 0, 43, 2, -1)
    case 53 => Row(22, 1, 8727273, 12000000, 0, 21, 1, -1)
    case 54 => Row(22, 1, 12000000, 17454545, 1, 43, 1, -1)
    case 55 => Row(24, 1, 6000000, 8000000, 0, 47, 2, -1)
    case 56 => Row(24, 1, 8000000, 12000000, 0, 23, 1, -1)
    case 57 => Row(24, 1, 12000000, 16000000, 1, 47, 1, -1)
    case 58 => Row(26, 1, 6000000, 7384615, 0, 51, 2, -1)
    case 59 => Row(26, 1, 7384616, 12000000, 0, 25, 1, -1)
    case 60 => Row(26, 1, 12000000, 14768230, 1, 51, 1, -1)
    case 61 => Row(28, 1, 6000000, 6857142, 0, 55, 2, -1)
    case 62 => Row(28, 1, 6857143, 12000000, 0, 27, 1, -1)
    case 63 => Row(28, 1, 12000000, 13714285, 1, 55, 1, -1)
    case 64 => Row(30, 1, 6000000, 6400000, 0, 59, 2, -1)
    case 65 => Row(30, 1, 6400000, 12000000, 0, 29, 1, -1)
    case 66 => Row(30, 1, 12000000, 12800000, 1, 59, 1, -1)
    case _ => Row(32, 1, 6000000, 12000000, 0, 31, 1, -1)
  }

  lemma SmallPowers()
    ensures Pow2(1) == 2 && Pow2(2) == 4 && Pow2(3) == 8
  {
  }

  lemma Rows0To16(i: nat)
    requires 0 <= i <= 16
    ensures Config(i).Consistent()
  {
    SmallPowers();
  }

  lemma Rows17To33(i: nat)
    requires 17 <= i <= 33
    ensures Config(i).Consistent()
  {
    SmallPowers();
  }

  lemma Rows34To50(i: nat)
    requires 34 <= i <= 50
    ensures Config(i).Consistent()
  {
    SmallPowers();
  }

  lemma Rows51To67(i: nat)
    requires 51 <= i <= 67
    ensures Config(i).Consistent()
  {
    SmallPowers();
  }

  /** Every row of the table is consistent. */
  lemma TableConsistent(i: nat)
    requires i < ROWS
    ensures Config(i).Consistent()
  {
    if i <= 16 {
      Rows0To16(i);
    } else if i <= 33 {
      Rows17To33(i);
    } else if i <= 50 {
      Rows34To50(i);
    } else {
      Rows51To67(i);
    }
  }
}
