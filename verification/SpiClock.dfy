/** The SPI clock set-up of spl/drivers/spi.c: module divider, its read-back, and the
    controller's own power-of-two divider. */
module SpiClock {
  import opened Ints

  const SUNXI_SPI_DEFAULT_CLK: u32 := 50_000_000

  function ClockGetPll6(): u32 { 600 }

  /** PLL6 in Hz. */
  const SOURCE: u32 := 600_000_000

  /** Unsigned division. */
  function Quot(a: nat, b: nat): (q: nat)
    requires b > 0
  {
    QuotBounds(a, b);
    a / b
  }

  lemma QuotBounds(a: nat, b: nat)
    requires b > 0
    ensures 0 <= a / b && a / b * b <= a < a / b * b + b
  {
    assert a == a / b * b + a % b;
  }

  lemma MulNonNeg(x: nat, y: nat)
    ensures x * y >= 0
  {
  }

  lemma MulGap(x: int, y: int, b: nat)
    ensures x > y ==> x * b >= y * b + b
  {
    if x > y {
      var d: nat := x - y - 1;
      MulNonNeg(d, b);
      assert x == y + 1 + d;
      assert x * b == y * b + b + d * b;
    }
  }

  /** 1 << n */
  function Scale(n: nat): nat
    requires n < 4
    ensures Scale(n) > 0
  {
    if n == 0 then 1 else if n == 1 then 2 else if n == 2 then 4 else 8
  }

  /** The clock register: gate bit, source 1, shift n and factor; the fields do not overlap. */
  function ClkWord(n: nat, factorM: nat): u32
    requires n < 4 && factorM < 16
  {
    0x8000_0000 + 0x100_0000 + n * 0x100 + factorM
  }

  /** The divider for a request, ceil(SOURCE / modClk) but at least 1, with the 32-bit sum of
      the code. */
  function Divider(modClk: u32): (div: nat)
    requires modClk > 0
  {
    var div := Quot((SOURCE + modClk - 1) % U32, modClk);
    if div == 0 then 1 else div
  }

  /** The shift n and the factor m for a divider. */
  function ShiftFor(div: nat): (n: nat)
    ensures n < 4
  {
    if div > 64 then 3 else if div > 32 then 2 else if div > 16 then 1 else 0
  }

  function FactorFor(div: nat): (m: nat)
    ensures 1 <= div <= 128 ==> 1 <= m <= 16
  {
    if div > 64 then div / 8 else if div > 32 then div / 4 else if div > 16 then div / 2 else div
  }

  /** The shift is the least that leaves a factor of at most 16, and the factor is the rest of the
      divider. */
  lemma ShiftIsLeast(div: nat)
    requires 1 <= div <= 128
    ensures var n, m := ShiftFor(div), FactorFor(div);
      && n < 4 && m == (if n == 0 then div else if n == 1 then div / 2 else if n == 2 then div / 4 else div / 8)
      && (div <= 16 ==> n == 0) && (16 < div <= 32 ==> n == 1) && (32 < div <= 64 ==> n == 2) && (64 < div ==> n == 3)
      && m <= 16 && (n > 0 ==> 8 <= m)
  {
  }

  /** The module clock for a divider of at most 128. */
  function ModuleClk(div: nat): nat
    requires 1 <= div <= 128
  {
    Quot(SOURCE / Scale(ShiftFor(div)), FactorFor(div))
  }

  function Decode(word: u32): nat {
    var src := word / 0x100_0000 % 8;
    var clk: nat := if src == 0 then 24000000 else if src == 1 then SOURCE else 0;
    Quot(clk / Scale(word / 0x100 % 4), word % 16 + 1)
  }

  /** The fields written by sunxi_spi_clk_init read back exactly. */
  lemma FieldsReadBack(n: nat, f: nat)
    requires n < 4 && f < 16
    ensures var w := ClkWord(n, f);
      w / 0x8000_0000 == 1 && w / 0x100_0000 % 8 == 1 && w / 0x100 % 4 == n && w % 16 == f
  {
    LowFields(n, f);
    HighFields(ClkWord(n, f) - 0x8100_0000);
  }

  lemma LowFields(n: nat, f: nat)
    requires n < 4 && f < 16
    ensures var w := 0x8100_0000 + n * 0x100 + f; w / 0x100 % 4 == n && w % 16 == f
  {
    assert (0x8100_0000 + n * 0x100 + f) / 0x100 == 0x81_0000 + n;
  }

  lemma HighFields(low: nat)
    requires low < 0x100_0000
    ensures (0x8100_0000 + low) / 0x8000_0000 == 1 && (0x8100_0000 + low) / 0x100_0000 % 8 == 1
  {
    assert (0x8100_0000 + low) / 0x100_0000 == 0x81;
  }

  lemma DecodeIsModuleClk(div: nat)
    requires 1 <= div <= 128
    ensures Decode(ClkWord(ShiftFor(div), FactorFor(div) - 1)) == ModuleClk(div)
  {
    FieldsReadBack(ShiftFor(div), FactorFor(div) - 1);
  }

  function Halvings(clk: nat, limit: nat): (k: nat)
    requires limit > 0
    decreases clk
  {
    if clk > limit then 1 + Halvings(clk / 2, limit) else 0
  }

  function Halved(clk: nat, k: nat): nat
    decreases k
  {
    if k == 0 then clk else Halved(clk / 2, k - 1)
  }

  class SpiController {
    var clkCfg: u32   // ccm->spi0_clk_cfg
    var cdr1: nat     // bits 11..8 of SPI_CLK_CTL_REG
    var drs: bool     // bit 12: divide rate select

    /** sunxi_spi_clk_init */
    method ClkInit(modClk: u32) returns (ret: int)
      requires modClk > 0
      modifies this`clkCfg
      ensures ret == if Divider(modClk) > 128 then -1 else 0
      ensures ret == 0 ==> (var div := Divider(modClk); clkCfg == ClkWord(ShiftFor(div), FactorFor(div) - 1))
      ensures ret != 0 ==> clkCfg == old(clkCfg)
    {
      var sourceClk := ClockGetPll6() * 1000000;
      var div := Quot((sourceClk + modClk - 1) % U32, modClk);
      div := if div == 0 then 1 else div;
      var m, n;
      if div > 128 {
        return -1;
      } else if div > 64 {
        n, m := 3, div / 8;
      } else if div > 32 {
        n, m := 2, div / 4;
      } else if div > 16 {
        n, m := 1, div / 2;
      } else {
        n, m := 0, div;
      }
      var factorM := m - 1;
      clkCfg := ClkWord(n, factorM);
      return 0;
    }

    /** sunxi_get_spic_clk: the module clock decoded from the register. */
    method GetSpicClk() returns (sclkFreq: nat)
      ensures sclkFreq == Decode(clkCfg)
    {
      var src := clkCfg / 0x100_0000 % 8;
      var n := clkCfg / 0x100 % 4;
      var m := clkCfg % 16 + 1;
      var clk: nat := 0;
      if src == 0 {
        clk := 24000000;
      } else if src == 1 {
        clk := ClockGetPll6() * 1000000;
      }
      sclkFreq := Quot(clk / Scale(n), m);
    }

    /** spi_set_clk with cdr 0: halve until the clock is not above the request. */
    method SetClk(spiClk: u32, ahbClk: nat)
      requires spiClk > 0 && Halvings(ahbClk, spiClk) < 16
      modifies this`cdr1, this`drs
      ensures cdr1 == Halvings(ahbClk, spiClk) && !drs
    {
      var divClk: nat, clk: nat := 0, ahbClk;
      while clk > spiClk
        invariant divClk + Halvings(clk, spiClk) == Halvings(ahbClk, spiClk)
      {
        divClk := divClk + 1;
        clk := clk / 2;
      }
      cdr1, drs := divClk, false;
    }

    /** The clock on the wire for the module clock sclk. */
    function WireClk(sclk: nat): nat
      reads this
    {
      Halved(sclk, cdr1)
    }

    /** spi_init with the clock part of spi_claim_bus; frequency 0 selects the default. */
    method SpiInit(frequency: u32) returns (ret: int)
      modifies this
      ensures ret == if Divider(Request(frequency)) > 128 then -1 else 0
      ensures ret == 0 ==> cdr1 == Halvings(ModuleClk(Divider(Request(frequency))), Request(frequency)) && !drs
      ensures ret == 0 ==> Decode(clkCfg) == ModuleClk(Divider(Request(frequency)))
      ensures ret == 0 ==> WireClk(Decode(clkCfg)) == Wire(Request(frequency))
      ensures ret != 0 ==> clkCfg == old(clkCfg) && cdr1 == old(cdr1) && drs == old(drs)
    {
      var spiClk := if frequency == 0 then SUNXI_SPI_DEFAULT_CLK else frequency;
      var r := ClkInit(spiClk);
      if r != 0 {
        return -1;
      }
      DecodeIsModuleClk(Divider(spiClk));
      var sclkFreq := GetSpicClk();
      ModuleClkUpper(spiClk);
      HalvingsOne(sclkFreq, spiClk);
      if sclkFreq == 0 {
        return -1;
      }
      SetClk(spiClk, sclkFreq);
      return 0;
    }
  }

  function Request(frequency: u32): (r: u32)
    ensures r > 0 && r == if frequency == 0 then 50_000_000 else frequency
  {
    if frequency == 0 then SUNXI_SPI_DEFAULT_CLK else frequency
  }

  // ------------------------------------------------------------- bounds

  /** The divider is the least one that brings PLL6 down to the request, for every 32-bit
      request, including those for which the sum in the code wraps. */
  lemma DividerIsCeiling(mod: u32)
    requires mod > 0
    ensures var div := Divider(mod); div >= 1 && SOURCE <= div * mod && (div > 1 ==> (div - 1) * mod < SOURCE)
  {
    var sum := (SOURCE + mod - 1) % U32;
    QuotBounds(sum, mod);
    var q := sum / mod;
    if SOURCE + mod - 1 < U32 {
      assert sum == SOURCE + mod - 1;
      assert q * mod + mod > sum;
      assert (q - 1) * mod == q * mod - mod;
      assert q == 0 ==> q * mod == 0;
    } else {
      assert sum == SOURCE + mod - 1 - U32;
      MulGap(q, 0, mod);
    }
  }

  /** Requests below 4687500 Hz are refused, and only those. */
  lemma RefusedIff(mod: u32)
    requires mod > 0
    ensures Divider(mod) > 128 <==> mod < 4687500
  {
    DividerIsCeiling(mod);
    var div := Divider(mod);
    MulGap(div, 128, mod);
    MulGap(div - 1, 127, mod);
    MulGap(129, div, mod);
  }

  /** The halvings counted are the least number that brings the clock down to the limit. */
  lemma {:induction false} HalvingsLeast(clk: nat, limit: nat)
    requires limit > 0
    ensures var k := Halvings(clk, limit); Halved(clk, k) <= limit && (k > 0 ==> Halved(clk, k - 1) > limit)
    decreases clk
  {
    if clk > limit {
      HalvingsLeast(clk / 2, limit);
      var k := Halvings(clk / 2, limit);
      assert Halved(clk, k + 1) == Halved(clk / 2, k);
      assert k > 0 ==> Halved(clk, k) == Halved(clk / 2, k - 1);
    }
  }

  lemma HalvingsOne(clk: nat, limit: u32)
    requires 0 < limit && clk < 2 * limit + 2
    ensures Halvings(clk, limit) == if clk > limit then 1 else 0
  {
  }

  /** The divider in terms of the two fields: div = 2^n * m + r. */
  lemma DividerParts(div: nat) returns (sh: nat, m: nat, a: nat, r: nat)
    requires 1 <= div <= 128
    ensures sh == Scale(ShiftFor(div)) && m == FactorFor(div) && a == SOURCE / sh
    ensures (sh == 1 || sh == 2 || sh == 4 || sh == 8) && SOURCE == sh * a
    ensures div == sh * m + r && r < sh && 1 <= m <= 16
  {
    sh, m := Scale(ShiftFor(div)), FactorFor(div);
    a, r := SOURCE / sh, div - sh * m;
  }

  lemma ScaleDown(sh: nat, x: nat, y: nat)
    requires (sh == 1 || sh == 2 || sh == 4 || sh == 8) && sh * x < sh * y
    ensures x < y
  {
  }

  lemma ModuleClkPositive(div: nat)
    requires 1 <= div <= 128
    ensures ModuleClk(div) > 0
  {
    var sh, m, a, r := DividerParts(div);
    QuotBounds(a, m);
    assert ModuleClk(div) == a / m;
    MulGap(1, a / m, m);
  }

  /** m * mod bounds the source after the shift, up to one more mod. */
  lemma SourceBelow(mod: u32, sh: nat, m: nat, a: nat, r: nat)
    requires mod > 0 && (sh == 1 || sh == 2 || sh == 4 || sh == 8) && r < sh
    requires sh * a <= (sh * m + r) * mod
    ensures a < m * mod + mod
  {
    MulGap(sh * m + sh, sh * m + r, mod);
    Distribute(sh, m, mod);
    ScaleDown(sh, a, (m + 1) * mod);
    assert (m + 1) * mod == m * mod + mod;
  }

  /** The module clock stays below twice the request. */
  lemma ModuleClkUpper(mod: u32)
    requires mod > 0 && Divider(mod) <= 128
    ensures 0 < ModuleClk(Divider(mod)) < 2 * mod
  {
    var div := Divider(mod);
    DividerIsCeiling(mod);
    ModuleClkPositive(div);
    var sh, m, a, r := DividerParts(div);
    SourceBelow(mod, sh, m, a, r);
    QuotBelow(a, m, mod);
  }

  lemma QuotBelow(a: nat, m: nat, mod: nat)
    requires m >= 1 && a < m * mod + mod
    ensures Quot(a, m) < 2 * mod
  {
    QuotBounds(a, m);
    MulGap(m, 0, mod);
    Commute(m, mod);
    MulGap(a / m, 2 * mod - 1, m);
    assert (2 * mod - 1) * m == 2 * mod * m - m;
  }

  lemma Distribute(sh: nat, m: nat, mod: nat)
    requires sh == 1 || sh == 2 || sh == 4 || sh == 8
    ensures (sh * m + sh) * mod == sh * ((m + 1) * mod)
  {
  }

  lemma Commute(m: nat, mod: nat)
    ensures 2 * (m * mod) == (2 * mod) * m
  {
  }

  /** Up to the PLL frequency the module clock is at least half the request, rounded down. */
  lemma ModuleClkLower(mod: u32)
    requires 0 < mod <= SOURCE && Divider(mod) <= 128
    ensures mod / 2 <= ModuleClk(Divider(mod))
  {
    var div := Divider(mod);
    DividerIsCeiling(mod);
    var sh, m, a, r := DividerParts(div);
    QuotBounds(a, m);
    var freq := ModuleClk(div);
    if div == 1 {
      assert a == SOURCE && m == 1;
    } else {
      assert (div - 1) * mod == div * mod - mod;
      ProductBelow(mod, div, sh, m, a);
      HalfBound(m, mod, freq);
    }
  }

  lemma ProductBelow(mod: nat, div: nat, sh: nat, m: nat, a: nat)
    requires (sh == 1 || sh == 2 || sh == 4 || sh == 8) && sh * m <= div && div * mod < 2 * (sh * a)
    ensures m * mod < 2 * a
  {
    var s := sh * m;
    MulGap(div, s - 1, mod);
    OneLess(s, mod);
    Associate(sh, m, mod);
    var p := m * mod;
    ScaleDown(sh, p, 2 * a);
  }

  lemma OneLess(x: nat, y: nat)
    ensures (x - 1) * y == x * y - y
  {
  }

  lemma Associate(x: nat, y: nat, z: nat)
    ensures x * y * z == x * (y * z)
  {
  }

  lemma HalfBound(m: nat, mod: nat, freq: nat)
    requires m >= 1 && m * mod < 2 * (freq * m + m)
    ensures mod / 2 <= freq
  {
    MulGap(mod, 2 * freq + 1, m);
    assert (2 * freq + 1) * m == 2 * (freq * m) + m;
    assert m * mod == mod * m;
  }

  /** The clock SpiInit leaves on the wire: module clock and at most one halving. */
  function Wire(mod: u32): nat
    requires mod > 0 && Divider(mod) <= 128
  {
    var clk := ModuleClk(Divider(mod));
    Halved(clk, Halvings(clk, mod))
  }

  /** For every request that is not refused: at most one further halving, never above the
      request, and at least half of it rounded down exactly when the request is at most
      2 * 600 MHz + 1. */
  lemma WireClkBounds(mod: u32)
    requires mod > 0 && Divider(mod) <= 128
    ensures Halvings(ModuleClk(Divider(mod)), mod) <= 1
    ensures Wire(mod) <= mod
    ensures mod / 2 <= Wire(mod) <==> mod <= 1_200_000_001
  {
    var clk := ModuleClk(Divider(mod));
    ModuleClkUpper(mod);
    HalvingsOne(clk, mod);
    assert Halved(clk, 0) == clk && Halved(clk, 1) == Halved(clk / 2, 0) == clk / 2;
    if mod <= SOURCE {
      ModuleClkLower(mod);
    } else {
      DividerIsCeiling(mod);
      MulGap(Divider(mod), 2, mod);
      MulGap(Divider(mod) - 1, 0, mod);
      OneMeansSource(Divider(mod));
    }
  }

  lemma OneMeansSource(div: nat)
    requires div == 1
    ensures ModuleClk(div) == SOURCE
  {
    QuotBounds(SOURCE, 1);
  }
}
