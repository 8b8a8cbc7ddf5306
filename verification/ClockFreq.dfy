/**
 The two formulas for the core clock: CLOCK_GetCoreSysClkFreq in fsl_clock.c, which reads the status
 register, and SystemCoreClockUpdate in system_MK64F12.c, which reads the control registers. They are
 compared for the crystals of the board and the untrimmed internal references.
 */
module ClockFreq {
  import opened Machine
  import opened Bits

  const XTAL: uint32 := 50_000_000
  const XTAL32K: uint32 := 32768
  const SLOW_IRC: uint32 := 32768
  const FAST_IRC: uint32 := 4_000_000
  const IRC48M: uint32 := 48_000_000

  /** The registers of the clock generator, and CLKDIV1 of the system integration module. */
  datatype Registers = Registers(c1: byte, c2: byte, c4: byte, c5: byte, c6: byte, c7: byte, sc: byte, s: byte, clkdiv1: uint32)

  // ---------------------------------------------------------------------------------------------
  // Register fields
  // ---------------------------------------------------------------------------------------------

  function Clks(r: Registers): nat { And(r.c1, 0xC0) / 0x40 }
  function Frdiv(r: Registers): nat { And(r.c1, 0x38) / 0x8 }
  function Irefs(r: Registers): nat { And(r.c1, 0x4) / 0x4 }
  function Range(r: Registers): nat { And(r.c2, 0x30) / 0x10 }
  function Lp(r: Registers): nat { And(r.c2, 0x2) / 0x2 }
  function Ircs(r: Registers): nat { And(r.c2, 0x1) }
  function Dmx32(r: Registers): nat { And(r.c4, 0x80) / 0x80 }
  function Drs(r: Registers): nat { And(r.c4, 0x60) / 0x20 }
  function Prdiv(r: Registers): nat { And(r.c5, 0x1F) }
  function Plls(r: Registers): nat { And(r.c6, 0x40) / 0x40 }
  function Vdiv(r: Registers): nat { And(r.c6, 0x1F) }
  function Oscsel(r: Registers): nat { And(r.c7, 0x3) }
  function Fcrdiv(r: Registers): nat { And(r.sc, 0xE) / 0x2 }
  function Outdiv1(r: Registers): nat { And(r.clkdiv1, 0xF000_0000) / 0x1000_0000 }

  function Ircst(r: Registers): nat { And(r.s, 0x1) }
  function Clkst(r: Registers): nat { And(r.s, 0xC) / 0x4 }
  function Irefst(r: Registers): nat { And(r.s, 0x10) / 0x10 }
  function Pllst(r: Registers): nat { And(r.s, 0x20) / 0x20 }
  function Lock0(r: Registers): nat { And(r.s, 0x40) / 0x40 }

  /** The status shows what the control bits select. */
  predicate Settled(r: Registers) {
    && Clkst(r) == (if Clks(r) != 0 then Clks(r) else if Plls(r) == 1 then 3 else 0)
    && Irefst(r) == Irefs(r) && Pllst(r) == Plls(r) && Ircst(r) == Ircs(r)
  }

  lemma MaskOf(x: nat, s: nat, n: nat)
    ensures var f := FieldAt(x, Pow2(s), Pow2(n));
            And(x, MaskAt(Pow2(s), Pow2(n))) == f * Pow2(s) && f < Pow2(n)
  {
    FieldMask(x, s, n);
  }

  lemma Powers()
    ensures Pow2(0) == 1 && Pow2(1) == 2 && Pow2(2) == 4 && Pow2(3) == 8 && Pow2(4) == 16
    ensures Pow2(5) == 32 && Pow2(6) == 64 && Pow2(7) == 128
  {
  }

  /** A masked register is the field at its place, and a field is no wider than its mask. */
  lemma FieldsC1C2(r: Registers)
    ensures And(r.c1, 0xC0) == Clks(r) * 0x40 && Clks(r) < 4
    ensures And(r.c1, 0x38) == Frdiv(r) * 0x8 && Frdiv(r) < 8
    ensures And(r.c1, 0x4) == Irefs(r) * 0x4 && Irefs(r) < 2
    ensures And(r.c2, 0x30) == Range(r) * 0x10 && Range(r) < 4
    ensures Lp(r) < 2 && And(r.c2, 0x1) == Ircs(r) < 2
  {
    hide And;
    Powers();
    MaskOf(r.c1, 6, 2);
    MaskOf(r.c1, 3, 3);
    MaskOf(r.c1, 2, 1);
    MaskOf(r.c2, 4, 2);
    MaskOf(r.c2, 1, 1);
    MaskOf(r.c2, 0, 1);
  }

  lemma FieldsOther(r: Registers)
    ensures Prdiv(r) < 32 && Vdiv(r) < 32 && Oscsel(r) < 4 && Lock0(r) < 2
    ensures And(r.c6, 0x40) == Plls(r) * 0x40 && Plls(r) < 2
    ensures And(r.sc, 0xE) == Fcrdiv(r) * 0x2 && Fcrdiv(r) < 8
  {
    hide And;
    Powers();
    MaskOf(r.c5, 0, 5);
    MaskOf(r.c6, 0, 5);
    MaskOf(r.c6, 6, 1);
    MaskOf(r.c7, 0, 2);
    MaskOf(r.sc, 1, 3);
    MaskOf(r.s, 6, 1);
  }

  lemma FieldsC4(r: Registers)
    ensures Dmx32(r) < 2 && Drs(r) < 4 && And(r.c4, 0xE0) == 0x80 * Dmx32(r) + 0x20 * Drs(r)
  {
    hide And;
    Powers();
    MaskOf(r.c4, 7, 1);
    MaskOf(r.c4, 5, 2);
    MaskOf(r.c4, 5, 3);
  }

  lemma FieldOutdiv1(r: Registers)
    ensures Outdiv1(r) < 16
  {
    hide And, Pow2;
    Powers();
    Pow2Of28();
    MaskOf(r.clkdiv1, 28, 4);
  }

  lemma Pow2Of28()
    ensures Pow2(28) == 0x1000_0000
  {
    Powers();
    Pow2Split(7, 14);
    Pow2Split(14, 28);
  }

  // ---------------------------------------------------------------------------------------------
  // CLOCK_GetCoreSysClkFreq
  // ---------------------------------------------------------------------------------------------

  function GetMcgExtClkFreq(r: Registers): uint32 {
    match Oscsel(r)
    case 0 => XTAL
    case 1 => XTAL32K
    case 2 => IRC48M
    case _ => 0
  }

  function GetFllExtRefClkFreq(r: Registers): nat {
    var freq := GetMcgExtClkFreq(r);
    if freq == 0 then 0
    else
      var shifted := Quot(freq, Pow2(Frdiv(r)));
      if (Range(r) != 0 && Oscsel(r) == 0) || Oscsel(r) == 2 then
        if Frdiv(r) <= 5 then Quot(shifted, 32)
        else if Frdiv(r) == 6 then Quot(shifted, 20)
        else if Frdiv(r) == 7 then Quot(shifted, 12)
        else 0
      else shifted
  }

  function GetInternalRefClkSelectFreq(r: Registers): nat {
    if Ircst(r) == 0 then SLOW_IRC else Quot(FAST_IRC, Pow2(Fcrdiv(r)))
  }

  function GetFllRefClkFreq(r: Registers): nat {
    if Irefst(r) == 0 then GetFllExtRefClkFreq(r) else SLOW_IRC
  }

  /** fllFactorTable. */
  function Factor(drs: nat, dmx32: nat): nat
    requires drs < 4 && dmx32 < 2
  {
    [[640, 732], [1280, 1464], [1920, 2197], [2560, 2929]][drs][dmx32]
  }

  function GetFllFreq(r: Registers): nat
    requires Drs(r) < 4 && Dmx32(r) < 2
  {
    if Lp(r) != 0 || Pllst(r) != 0 then 0
    else if GetFllRefClkFreq(r) == 0 then 0
    else Wrap(GetFllRefClkFreq(r) * Factor(Drs(r), Dmx32(r)))
  }

  /** With an OSCSEL of 3 the program's own assertion fails here; the reference is then 0. */
  function GetPll0Freq(r: Registers): nat {
    if Lock0(r) == 0 then 0 else Wrap(Quot(GetMcgExtClkFreq(r), 1 + Prdiv(r)) * (24 + Vdiv(r)))
  }

  function GetOutClkFreq(r: Registers): nat
    requires Drs(r) < 4 && Dmx32(r) < 2
  {
    match Clkst(r)
    case 3 => GetPll0Freq(r)
    case 0 => GetFllFreq(r)
    case 1 => GetInternalRefClkSelectFreq(r)
    case 2 => GetMcgExtClkFreq(r)
    case _ => 0
  }

  function GetCoreSysClkFreq(r: Registers): nat
    requires Drs(r) < 4 && Dmx32(r) < 2
  {
    Quot(GetOutClkFreq(r), Outdiv1(r) + 1)
  }

  // ---------------------------------------------------------------------------------------------
  // SystemCoreClockUpdate
  // ---------------------------------------------------------------------------------------------

  /** The external clock by OSCSEL; here the unused value 3 stands for the 48 MHz oscillator. */
  function External(oscsel: nat): uint32 {
    if oscsel == 0 then XTAL else if oscsel == 1 then XTAL32K else IRC48M
  }

  /** The divider of the FLL reference. */
  function FllDivider(wide: bool, frdiv: nat): (d: nat)
    requires frdiv < 8
    ensures d > 0
  {
    if wide then [32, 64, 128, 256, 512, 1024, 1280, 1536][frdiv]
    else [1, 2, 4, 8, 16, 32, 64, 128][frdiv]
  }

  /** MCGOUTCLK, from the control registers alone. */
  function Nominal(r: Registers): nat
    requires Frdiv(r) < 8 && Drs(r) < 4 && Dmx32(r) < 2
  {
    match Clks(r)
    case 0 =>
      if Plls(r) == 0 then
        var reference := if Irefs(r) == 0
                         then Quot(External(Oscsel(r)), FllDivider(Range(r) != 0 && Oscsel(r) != 1, Frdiv(r)))
                         else SLOW_IRC;
        Wrap(reference * Factor(Drs(r), Dmx32(r)))
      else Wrap(Quot(XTAL, 1 + Prdiv(r)) * (24 + Vdiv(r)))
    case 1 => if Ircs(r) == 0 then SLOW_IRC else Quot(FAST_IRC, Pow2(Fcrdiv(r)))
    case _ => External(Oscsel(r))
  }

  // ---------------------------------------------------------------------------------------------
  // The fields and the clocks in numbers
  // ---------------------------------------------------------------------------------------------

  lemma FieldIs(x: nat, s: nat, n: nat)
    ensures And(x, MaskAt(Pow2(s), Pow2(n))) / Pow2(s) == x / Pow2(s) % Pow2(n)
  {
    MaskOf(x, s, n);
    ModIs(And(x, MaskAt(Pow2(s), Pow2(n))), Pow2(s), FieldAt(x, Pow2(s), Pow2(n)), 0);
  }

  /** Where the fields of the control registers are. */
  lemma ControlFields(r: Registers)
    ensures Clks(r) == r.c1 / 0x40 && Frdiv(r) == r.c1 / 8 % 8 && Irefs(r) == r.c1 / 4 % 2
    ensures Range(r) == r.c2 / 0x10 % 4 && Lp(r) == r.c2 / 2 % 2 && Ircs(r) == r.c2 % 2
    ensures Dmx32(r) == r.c4 / 0x80 && Drs(r) == r.c4 / 0x20 % 4
    ensures Prdiv(r) == r.c5 % 32 && Plls(r) == r.c6 / 0x40 % 2 && Vdiv(r) == r.c6 % 32
    ensures Oscsel(r) == r.c7 % 4 && Fcrdiv(r) == r.sc / 2 % 8
  {
    hide And;
    Powers();
    FieldIs(r.c1, 6, 2);
    FieldIs(r.c1, 3, 3);
    FieldIs(r.c1, 2, 1);
    FieldIs(r.c2, 4, 2);
    FieldIs(r.c2, 1, 1);
    FieldIs(r.c2, 0, 1);
    FieldIs(r.c4, 7, 1);
    FieldIs(r.c4, 5, 2);
    FieldIs(r.c5, 0, 5);
    FieldIs(r.c6, 6, 1);
    FieldIs(r.c6, 0, 5);
    FieldIs(r.c7, 0, 2);
    FieldIs(r.sc, 1, 3);
  }

  /** Where the fields of the status register are, and the divider of the core clock. */
  lemma OtherFields(r: Registers)
    ensures Ircst(r) == r.s % 2 && Clkst(r) == r.s / 4 % 4 && Irefst(r) == r.s / 0x10 % 2
    ensures Pllst(r) == r.s / 0x20 % 2 && Lock0(r) == r.s / 0x40 % 2
    ensures Outdiv1(r) == r.clkdiv1 / 0x1000_0000
  {
    hide And;
    Powers();
    FieldIs(r.s, 0, 1);
    FieldIs(r.s, 2, 2);
    FieldIs(r.s, 4, 1);
    FieldIs(r.s, 5, 1);
    FieldIs(r.s, 6, 1);
    hide Pow2;
    Pow2Of28();
    FieldIs(r.clkdiv1, 28, 4);
    TopNibble(r.clkdiv1);
  }

  lemma TopNibble(x: uint32)
    ensures x / 0x1000_0000 % 16 == x / 0x1000_0000
  {
  }

  /** The clock of OSCSEL: the crystal of 50 MHz, the clock of 32768 Hz or the oscillator of 48 MHz. */
  function ExternalClock(r: Registers): nat {
    [50_000_000, 32768, 48_000_000, 48_000_000][r.c7 % 4]
  }

  /** The divider of FRDIV, which RANGE makes 32 times as large, and smaller again for the last two values. */
  function ReferenceDivider(r: Registers): (d: nat)
    ensures d > 0
  {
    if r.c2 / 0x10 % 4 != 0 && r.c7 % 4 != 1 then [32, 64, 128, 256, 512, 1024, 1280, 1536][r.c1 / 8 % 8]
    else [1, 2, 4, 8, 16, 32, 64, 128][r.c1 / 8 % 8]
  }

  /** The multiplier of DRST_DRS and DMX32. */
  function Multiplier(r: Registers): nat {
    [[640, 732], [1280, 1464], [1920, 2197], [2560, 2929]][r.c4 / 0x20 % 4][r.c4 / 0x80]
  }

  /** MCGOUTCLK by the bytes of the control registers. */
  function OutputClock(r: Registers): nat {
    match r.c1 / 0x40
    case 0 =>
      if r.c6 / 0x40 % 2 == 1 then 50_000_000 / (1 + r.c5 % 32) * (24 + r.c6 % 32)
      else (if r.c1 / 4 % 2 == 1 then 32768 else ExternalClock(r) / ReferenceDivider(r)) * Multiplier(r) % 0x1_0000_0000
    case 1 =>
      if r.c2 % 2 == 0 then 32768
      else [4_000_000, 2_000_000, 1_000_000, 500_000, 250_000, 125_000, 62_500, 31_250][r.sc / 2 % 8]
    case _ => ExternalClock(r)
  }

  lemma NominalIs(r: Registers)
    ensures Frdiv(r) < 8 && Drs(r) < 4 && Dmx32(r) < 2 && Nominal(r) == OutputClock(r)
  {
    ControlFields(r);
    Powers();
    hide And, Pow2;
    match r.c1 / 0x40
    case 0 =>
      if r.c6 / 0x40 % 2 == 1 {
        PllInRange(r.c5 % 32, r.c6 % 32);
      }
    case 1 => FastClock(r.sc / 2 % 8);
    case _ =>
  }

  /** The core clock by the bytes; a reserved CLKS leaves it as it was. */
  function CoreClock(r: Registers, was: uint32): nat {
    if r.c1 / 0x40 == 3 then was else Quot(OutputClock(r), 1 + r.clkdiv1 / 0x1000_0000)
  }

  lemma CoreClockIs(r: Registers)
    ensures Frdiv(r) < 8 && Drs(r) < 4 && Dmx32(r) < 2
    ensures forall was: uint32 :: CoreClock(r, was) == if Clks(r) == 3 then was else Quot(Nominal(r), 1 + Outdiv1(r))
  {
    ControlFields(r);
    OtherFields(r);
    NominalIs(r);
    hide And, Nominal, OutputClock;
  }

  /** No product of the PLL overflows. */
  lemma PllInRange(prdiv: nat, vdiv: nat)
    requires prdiv < 32 && vdiv < 32
    ensures Wrap(Quot(XTAL, 1 + prdiv) * (24 + vdiv)) == 50_000_000 / (1 + prdiv) * (24 + vdiv)
  {
    QuotAtMost(XTAL, 1 + prdiv);
    MulLe(Quot(XTAL, 1 + prdiv), XTAL, 24 + vdiv);
    WrapSmall(Quot(XTAL, 1 + prdiv) * (24 + vdiv));
  }

  lemma FastClock(fcrdiv: nat)
    requires fcrdiv < 8
    ensures Quot(FAST_IRC, Pow2(fcrdiv)) ==
            [4_000_000, 2_000_000, 1_000_000, 500_000, 250_000, 125_000, 62_500, 31_250][fcrdiv]
  {
    Powers();
  }

  class SystemClock {
    var mcg: Registers
    var systemCoreClock: uint32

    /** The reference of the FLL, in FLL mode. */
    method FllReference() returns (clock: uint32)
      requires Clks(mcg) == 0 && Plls(mcg) == 0 && Frdiv(mcg) < 8
      ensures clock == if Irefs(mcg) == 0
                       then Quot(External(Oscsel(mcg)), FllDivider(Range(mcg) != 0 && Oscsel(mcg) != 1, Frdiv(mcg)))
                       else SLOW_IRC
    {
      hide And, Quot;
      Powers();
      FieldsC1C2(mcg);
      if And(mcg.c1, 0x4) == 0 {
        if And(mcg.c7, 0x3) == 0 {
          clock := XTAL;
        } else if And(mcg.c7, 0x3) == 1 {
          clock := XTAL32K;
        } else {
          clock := IRC48M;
        }
        var divider: uint16;
        if And(mcg.c2, 0x30) != 0 && And(mcg.c7, 0x3) != 1 {
          if And(mcg.c1, 0x38) == 0x38 {
            divider := 1536;
          } else if And(mcg.c1, 0x38) == 0x30 {
            divider := 1280;
          } else {
            divider := 32 * Pow2(And(mcg.c1, 0x38) / 8) % 0x1_0000;
          }
        } else {
          divider := Pow2(And(mcg.c1, 0x38) / 8) % 0x1_0000;
        }
        QuotAtMost(clock, divider);
        clock := Quot(clock, divider);
      } else {
        clock := SLOW_IRC;
      }
    }

    /** The multiplier of the FLL. */
    method FllMultiplied(reference: uint32) returns (clock: uint32)
      requires Drs(mcg) < 4 && Dmx32(mcg) < 2
      ensures clock == Wrap(reference * Factor(Drs(mcg), Dmx32(mcg)))
    {
      hide And, Wrap;
      FieldsC4(mcg);
      var multiplier := And(mcg.c4, 0xE0);
      clock := reference;
      if multiplier == 0x00 {
        clock := Wrap(clock * 640);
      } else if multiplier == 0x20 {
        clock := Wrap(clock * 1280);
      } else if multiplier == 0x40 {
        clock := Wrap(clock * 1920);
      } else if multiplier == 0x60 {
        clock := Wrap(clock * 2560);
      } else if multiplier == 0x80 {
        clock := Wrap(clock * 732);
      } else if multiplier == 0xA0 {
        clock := Wrap(clock * 1464);
      } else if multiplier == 0xC0 {
        clock := Wrap(clock * 2197);
      } else if multiplier == 0xE0 {
        clock := Wrap(clock * 2929);
      }
    }

    /** A reserved value of CLKS leaves the variable as it is. */
    method SystemCoreClockUpdate()
      modifies this`systemCoreClock
      ensures systemCoreClock == CoreClock(mcg, old(systemCoreClock))
    {
      hide And, Quot, Wrap, Factor, CoreClock;
      CoreClockIs(mcg);
      FieldsC1C2(mcg);
      FieldsOther(mcg);
      FieldOutdiv1(mcg);
      Powers();
      var clock: uint32;
      if And(mcg.c1, 0xC0) == 0x00 {
        if And(mcg.c6, 0x40) == 0x00 {
          clock := FllReference();
          clock := FllMultiplied(clock);
        } else {
          var divider: uint16 := And(mcg.c5, 0x1F) + 1;
          QuotAtMost(XTAL, divider);
          clock := Quot(XTAL, divider);
          divider := And(mcg.c6, 0x1F) + 24;
          clock := Wrap(clock * divider);
        }
      } else if And(mcg.c1, 0xC0) == 0x40 {
        if And(mcg.c2, 0x1) == 0x00 {
          clock := SLOW_IRC;
        } else {
          var divider: uint16 := Pow2(And(mcg.sc, 0xE) / 2) % 0x1_0000;
          QuotAtMost(FAST_IRC, divider);
          clock := Quot(FAST_IRC, divider);
        }
      } else if And(mcg.c1, 0xC0) == 0x80 {
        if And(mcg.c7, 0x3) == 0 {
          clock := XTAL;
        } else if And(mcg.c7, 0x3) == 1 {
          clock := XTAL32K;
        } else {
          clock := IRC48M;
        }
      } else {
        return;
      }
      QuotAtMost(clock, 1 + And(mcg.clkdiv1, 0xF000_0000) / 0x1000_0000);
      systemCoreClock := Quot(clock, 1 + And(mcg.clkdiv1, 0xF000_0000) / 0x1000_0000);
    }
  }

  lemma QuotAtMost(n: nat, d: nat)
    requires d > 0
    ensures Quot(n, d) <= n
  {
    QuotBounds(n, d);
    MulLe(1, d, Quot(n, d));
  }

  // ---------------------------------------------------------------------------------------------
  // Where the two agree
  // ---------------------------------------------------------------------------------------------

  /** The register settings for which the two formulas give the same core clock. */
  predicate Agreeing(r: Registers) {
    match Clks(r)
    case 0 =>
      if Plls(r) == 0 then
        Lp(r) == 0 && (Irefs(r) == 0 ==> Oscsel(r) <= 1 || (Oscsel(r) == 2 && Range(r) != 0))
      else Lock0(r) == 1 && Oscsel(r) == 0
    case 1 => true
    case _ => Oscsel(r) != 3
  }

  /** Dividing twice is dividing once by the product. */
  lemma QuotTwice(n: nat, a: nat, b: nat)
    requires a > 0 && b > 0
    ensures a * b > 0 && Quot(Quot(n, a), b) == Quot(n, a * b)
  {
    hide Quot;
    var q := Quot(n, a);
    var p := Quot(q, b);
    QuotBounds(n, a);
    QuotBounds(q, b);
    MulLe(p * b, q, a);
    MulLe(q + 1, p * b + b, a);
    Regroup(p, a, b);
    MulLe(1, a, b);
    QuotUnique(n, a * b, p);
  }

  lemma Regroup(p: nat, a: nat, b: nat)
    ensures p * b * a == p * (a * b) && (p * b + b) * a == p * (a * b) + a * b
  {
  }

  /** Clocks that are far apart stay apart when they are divided. */
  lemma QuotFar(x: nat, y: nat, d: nat)
    requires d > 0 && x + d <= y
    ensures Quot(x, d) < Quot(y, d)
  {
    hide Quot;
    QuotBounds(x, d);
    QuotBounds(y, d);
    MulLe(Quot(y, d), Quot(x, d), d);
  }

  predicate Far(x: nat, y: nat) {
    x + 16 <= y || y + 16 <= x
  }

  /** Agreement of the core clocks is agreement of MCGOUTCLK when the latter are equal or far apart. */
  lemma FarApart(x: nat, y: nat, d: nat)
    requires 0 < d <= 16 && Far(x, y)
    ensures Quot(x, d) != Quot(y, d)
  {
    hide Quot;
    if x < y {
      QuotFar(x, y, d);
    } else {
      QuotFar(y, x, d);
    }
  }

  /** Shifting by FRDIV and dividing again is dividing by 32 to 1024, 1280 or 1536 at once. */
  lemma Divided(x: nat, wide: bool, frdiv: nat)
    requires frdiv < 8
    ensures Quot(x, FllDivider(wide, frdiv)) ==
            var shifted := Quot(x, Pow2(frdiv));
            if !wide then shifted
            else Quot(shifted, if frdiv <= 5 then 32 else if frdiv == 6 then 20 else 12)
  {
    hide Quot;
    Powers();
    QuotTwice(x, Pow2(frdiv), if frdiv <= 5 then 32 else if frdiv == 6 then 20 else 12);
  }

  /** The FLL frequency by CLOCK_GetFllFreq when the FLL runs. */
  lemma FllFormula(r: Registers)
    requires Frdiv(r) < 8 && Drs(r) < 4 && Dmx32(r) < 2
    ensures var freq := GetMcgExtClkFreq(r);
            var wide := (Range(r) != 0 && Oscsel(r) == 0) || Oscsel(r) == 2;
            GetFllExtRefClkFreq(r) == if freq == 0 then 0 else Quot(freq, FllDivider(wide, Frdiv(r)))
  {
    hide Quot;
    Divided(GetMcgExtClkFreq(r), (Range(r) != 0 && Oscsel(r) == 0) || Oscsel(r) == 2, Frdiv(r));
  }

  // ---- FLL frequencies that are never close to each other ----

  predicate IsLargeReference(x: nat) {
    x in {50_000_000, 25_000_000, 12_500_000, 6_250_000, 3_125_000, 1_562_500,
          48_000_000, 24_000_000, 12_000_000, 6_000_000, 3_000_000, 1_500_000}
  }

  /** The references that make the multiplication overflow, or nearly so. */
  lemma LargeProducts(drs: nat, dmx32: nat)
    requires drs < 4 && dmx32 < 2
    ensures var f := Factor(drs, dmx32);
            forall x: nat | IsLargeReference(x) :: Wrap(x * f) >= 16
  {
    match drs
    case 0 => if dmx32 == 0 {}
    case 1 => if dmx32 == 0 {}
    case 2 => if dmx32 == 0 {}
    case 3 => if dmx32 == 0 {}
  }

  lemma SmallProducts(x: nat, drs: nat, dmx32: nat)
    requires drs < 4 && dmx32 < 2 && 256 <= x <= 1_466_000
    ensures Wrap(x * Factor(drs, dmx32)) >= 16
  {
    var f := Factor(drs, dmx32);
    assert 640 <= f <= 2929;
    MulLe(x, 1_466_000, f);
    MulLe(256, x, f);
  }

  predicate IsReference(x: nat) {
    256 <= x <= 1_466_000 || IsLargeReference(x)
  }

  lemma References(oscsel: nat, wide: bool, frdiv: nat)
    requires frdiv < 8 && (wide ==> oscsel != 1)
    ensures IsReference(Quot(External(oscsel), FllDivider(wide, frdiv)))
  {
    if wide {
    } else {
    }
  }

  /** No setting of the FLL makes the (wrapped) product vanish. */
  lemma NeverZero(reference: nat, drs: nat, dmx32: nat)
    requires drs < 4 && dmx32 < 2 && IsReference(reference)
    ensures Wrap(reference * Factor(drs, dmx32)) >= 16
  {
    hide Wrap, Factor;
    LargeProducts(drs, dmx32);
    if 256 <= reference <= 1_466_000 {
      SmallProducts(reference, drs, dmx32);
    }
  }

  /** The 48 MHz oscillator with RANGE clear: the two dividers give frequencies far apart. */
  lemma RangeMatters(frdiv: nat, drs: nat, dmx32: nat)
    requires frdiv < 8 && drs < 4 && dmx32 < 2
    ensures Far(Wrap(Quot(IRC48M, FllDivider(true, frdiv)) * Factor(drs, dmx32)),
                Wrap(Quot(IRC48M, FllDivider(false, frdiv)) * Factor(drs, dmx32)))
  {
    hide Wrap, Factor, Quot;
    Divided48(frdiv);
    var a, b := Quot(IRC48M, FllDivider(true, frdiv)), Quot(IRC48M, FllDivider(false, frdiv));
    hide FllDivider;
    FarProducts(a, b, drs, dmx32);
  }

  predicate IsPair(a: nat, b: nat) {
    (a, b) in {(1_500_000, 48_000_000), (750_000, 24_000_000), (375_000, 12_000_000), (187_500, 6_000_000),
               (93_750, 3_000_000), (46_875, 1_500_000), (37_500, 750_000), (31_250, 375_000)}
  }

  lemma Divided48(frdiv: nat)
    requires frdiv < 8
    ensures IsPair(Quot(IRC48M, FllDivider(true, frdiv)), Quot(IRC48M, FllDivider(false, frdiv)))
  {
  }

  lemma FarProducts(a: nat, b: nat, drs: nat, dmx32: nat)
    requires IsPair(a, b)
    requires drs < 4 && dmx32 < 2
    ensures Far(Wrap(a * Factor(drs, dmx32)), Wrap(b * Factor(drs, dmx32)))
  {
    match drs
    case 0 => if dmx32 == 0 {}
    case 1 => if dmx32 == 0 {}
    case 2 => if dmx32 == 0 {}
    case 3 => if dmx32 == 0 {}
  }

  /** Without LP, the FLL frequencies are the same or far apart. */
  lemma FllAgrees(r: Registers)
    requires Clks(r) == 0 && Plls(r) == 0 && Settled(r)
    requires Frdiv(r) < 8 && Drs(r) < 4 && Dmx32(r) < 2 && Irefs(r) < 2 && Oscsel(r) < 4
    ensures Agreeing(r) ==> GetOutClkFreq(r) == Nominal(r)
    ensures !Agreeing(r) ==> Far(GetOutClkFreq(r), Nominal(r))
  {
    hide Quot, Wrap, Factor;
    var wide := Range(r) != 0 && Oscsel(r) != 1;
    FllFormula(r);
    References(Oscsel(r), wide, Frdiv(r));
    NeverZero(Quot(External(Oscsel(r)), FllDivider(wide, Frdiv(r))), Drs(r), Dmx32(r));
    NeverZero(SLOW_IRC, Drs(r), Dmx32(r));
    RangeMatters(Frdiv(r), Drs(r), Dmx32(r));
    References(Oscsel(r), (Oscsel(r) == 0 && Range(r) != 0) || Oscsel(r) == 2, Frdiv(r));
  }

  // ---- PLL frequencies ----

  lemma PllProducts(reference: nat, prdiv: nat, vdiv: nat)
    requires reference <= 48_000_000 && prdiv < 32 && vdiv < 32
    ensures var a, b := Quot(reference, 1 + prdiv) * (24 + vdiv), Quot(XTAL, 1 + prdiv) * (24 + vdiv);
            a + 16 <= b < 0x1_0000_0000
  {
    hide Quot;
    QuotFar(reference, XTAL, 1 + prdiv);
    QuotAtMost(XTAL, 1 + prdiv);
    MulLe(Quot(reference, 1 + prdiv) + 1, Quot(XTAL, 1 + prdiv), 24 + vdiv);
    MulLe(Quot(XTAL, 1 + prdiv), XTAL, 24 + vdiv);
    assert (Quot(reference, 1 + prdiv) + 1) * (24 + vdiv) == Quot(reference, 1 + prdiv) * (24 + vdiv) + (24 + vdiv);
  }

  lemma PllAgrees(r: Registers)
    requires Clks(r) == 0 && Plls(r) == 1 && Settled(r)
    requires Frdiv(r) < 8 && Prdiv(r) < 32 && Vdiv(r) < 32 && Drs(r) < 4 && Dmx32(r) < 2 && Lock0(r) < 2
    ensures Agreeing(r) ==> GetOutClkFreq(r) == Nominal(r)
    ensures !Agreeing(r) ==> Far(GetOutClkFreq(r), Nominal(r))
  {
    hide And, Quot, Wrap;
    assert GetOutClkFreq(r) == GetPll0Freq(r);
    if Lock0(r) == 0 {
      PllApart(0, Prdiv(r), Vdiv(r));
    } else if Oscsel(r) != 0 {
      PllApart(GetMcgExtClkFreq(r), Prdiv(r), Vdiv(r));
    }
  }

  lemma PllApart(reference: nat, prdiv: nat, vdiv: nat)
    requires reference <= 48_000_000 && prdiv < 32 && vdiv < 32
    ensures Wrap(Quot(reference, 1 + prdiv) * (24 + vdiv)) + 16 <= Wrap(Quot(XTAL, 1 + prdiv) * (24 + vdiv))
  {
    PllProducts(reference, prdiv, vdiv);
    WrapSmall(Quot(reference, 1 + prdiv) * (24 + vdiv));
    WrapSmall(Quot(XTAL, 1 + prdiv) * (24 + vdiv));
  }

  /**
   With CLKS valid and the status settled, CLOCK_GetCoreSysClkFreq gives what SystemCoreClockUpdate
   stores exactly for the agreeing settings.
   */
  lemma CoreClocksAgree(r: Registers, was: uint32)
    requires Clks(r) != 3 && Settled(r)
    ensures Drs(r) < 4 && Dmx32(r) < 2
    ensures GetCoreSysClkFreq(r) == CoreClock(r, was) <==> Agreeing(r)
  {
    FieldsC1C2(r);
    FieldsOther(r);
    FieldsC4(r);
    FieldOutdiv1(r);
    CoreClockIs(r);
    hide And, Quot, Wrap, Factor, CoreClock;
    if Clks(r) == 0 {
      hide Agreeing, GetOutClkFreq, Nominal;
      if Plls(r) == 0 { FllAgrees(r); } else { PllAgrees(r); }
    }
    if !Agreeing(r) {
      assert Far(GetOutClkFreq(r), Nominal(r));
      FarApart(GetOutClkFreq(r), Nominal(r), 1 + Outdiv1(r));
    } else {
      assert GetOutClkFreq(r) == Nominal(r);
    }
  }

  // ---------------------------------------------------------------------------------------------
  // Known settings
  // ---------------------------------------------------------------------------------------------

  /** The registers after BOARD_BootClockRUN: both formulas give the 120 MHz that it announces. */
  lemma BootClockRun(r: Registers, was: uint32)
    requires r.c1 / 0x40 == 0 && r.c5 % 32 == 0x13 && r.c6 / 0x40 % 2 == 1 && r.c6 % 32 == 0x18 && r.c7 % 4 == 0
    requires r.s / 4 % 4 == 3 && r.s / 0x40 % 2 == 1 && r.clkdiv1 == 0x0124_0000
    ensures Drs(r) < 4 && Dmx32(r) < 2
    ensures CoreClock(r, was) == 120_000_000 && GetCoreSysClkFreq(r) == 120_000_000
  {
    hide And, Pow2, Factor;
    ControlFields(r);
    OtherFields(r);
  }

  /** After BOARD_BootClockVLPR both give the 4 MHz of the fast internal oscillator. */
  lemma BootClockVlpr(r: Registers, was: uint32)
    requires r.c1 / 0x40 == 1 && r.c2 % 2 == 1 && r.sc / 2 % 8 == 0
    requires r.s / 4 % 4 == 1 && r.s % 2 == 1 && r.clkdiv1 == 0x0004_0000
    ensures Drs(r) < 4 && Dmx32(r) < 2
    ensures CoreClock(r, was) == 4_000_000 && GetCoreSysClkFreq(r) == 4_000_000
  {
    hide And, Pow2, Factor;
    ControlFields(r);
    OtherFields(r);
    FastClock(0);
  }

  /** The FLL with the internal reference, in Hz, by DRST_DRS and DMX32. */
  lemma InternalReference(r: Registers)
    requires r.c1 / 0x40 == 0 && r.c1 / 4 % 2 == 1 && r.c6 / 0x40 % 2 == 0
    ensures OutputClock(r) ==
            [[20_971_520, 23_986_176], [41_943_040, 47_972_352], [62_914_560, 71_991_296], [83_886_080, 95_977_472]]
            [r.c4 / 0x20 % 4][r.c4 / 0x80]
  {
  }

  /** Without DMX32 a reference in the range of the manual gives an output in the ranges of the manual. */
  lemma FllRanges(r: Registers, reference: nat)
    requires 31_250 <= reference <= 39_062 && r.c4 < 0x80
    ensures var range := 1 + r.c4 / 0x20; 20_000_000 * range <= reference * Multiplier(r) <= 25_000_000 * range
  {
  }

  /** The crystal of the board gives such a reference exactly for the last two values of FRDIV, with RANGE not 0. */
  lemma CrystalReference(r: Registers)
    requires r.c7 % 4 == 0
    ensures 31_250 <= Quot(ExternalClock(r), ReferenceDivider(r)) <= 39_062 <==> r.c1 / 8 % 8 >= 6 && r.c2 / 0x10 % 4 != 0
  {
  }
}
