/**
 The mode machine of the multipurpose clock generator in fsl_clock.c: the mode setters, the routing
 matrix and CLOCK_SetMcgConfig.

 `Control` holds the control bits the driver writes and `Status` the bits it polls. The hardware is
 assumed to settle: when the driver waits, the status becomes what the control bits select. A wait for
 anything else would never end, so each wait has as its precondition that the control bits select what
 it waits for.
 */
module McgMode {

  datatype Mode = FEI | FBI | BLPI | FEE | FBE | BLPE | PBE | PEE | ModeError

  /** CLKST: which clock drives the output. */
  datatype ClkOut = StatFll | StatInt | StatExt | StatPll

  datatype Source = SrcOut | SrcInternal | SrcExternal

  datatype Result = Success | ModeUnreachable | SourceUsed | ModeInvalid

  /** The control bits, by register; `oscsel` is in C7 and `fcrdiv` in SC. */
  datatype Control = Control(c1: C1, c2: C2, c4: C4, c5: C5, c6: C6, oscsel: nat, fcrdiv: nat)

  datatype C1 = C1(clks: Source, irefs: bool, frdiv: nat, irclken: bool, irefsten: bool)
  datatype C2 = C2(lp: bool, fastIrc: bool)
  datatype C4 = C4(dmx32: bool, drs: nat)
  datatype C5 = C5(independent: bool, inStop: bool, prdiv: nat)
  datatype C6 = C6(plls: bool, vdiv: nat)

  /** The status bits of register S that follow the control bits. */
  datatype Status = Status(clkst: ClkOut, irefst: bool, pllst: bool, fastIrcst: bool)

  /** What the hardware settles to. */
  function Selected(c: Control): Status {
    Status(
      match c.c1.clks
      case SrcOut => if c.c6.plls then StatPll else StatFll
      case SrcInternal => StatInt
      case SrcExternal => StatExt,
      c.c1.irefs, c.c6.plls, c.c2.fastIrc)
  }

  /** The configuration CLOCK_SetMcgConfig is called with. */
  datatype Config = Config(
    mode: Mode,
    irclken: bool, irefsten: bool, fastIrc: bool, fcrdiv: nat,
    frdiv: nat, drs: nat, dmx32: bool, oscsel: nat,
    pllIndependent: bool, pllInStop: bool, prdiv: nat, vdiv: nat)

  predicate IsConfig(config: Config) {
    config.mode != ModeError && config.drs < 4 && config.oscsel < 3
  }

  /** CLOCK_GetMode reads CLKST, IREFST and PLLST from the status and LP from the control bits. */
  function GetMode(c: Control, s: Status): Mode {
    match s.clkst
    case StatFll => if s.irefst then FEI else FEE
    case StatInt => if c.c2.lp then BLPI else FBI
    case StatExt => if c.c2.lp then BLPE else if s.pllst then PBE else FBE
    case StatPll => PEE
  }

  /**
   The valid modes, as the table in CLOCK_GetMode lists them: the function itself looks at IREFST and
   PLLST only where they decide.
   */
  predicate InMode(c: Control, m: Mode) {
    match m
    case FEI => c.c1.clks == SrcOut && c.c1.irefs && !c.c6.plls
    case FEE => c.c1.clks == SrcOut && !c.c1.irefs && !c.c6.plls
    case FBI => c.c1.clks == SrcInternal && c.c1.irefs && !c.c6.plls && !c.c2.lp
    case BLPI => c.c1.clks == SrcInternal && c.c1.irefs && !c.c6.plls && c.c2.lp
    case FBE => c.c1.clks == SrcExternal && !c.c1.irefs && !c.c6.plls && !c.c2.lp
    case BLPE => c.c1.clks == SrcExternal && !c.c1.irefs && c.c2.lp
    case PBE => c.c1.clks == SrcExternal && !c.c1.irefs && c.c6.plls && !c.c2.lp
    case PEE => c.c1.clks == SrcOut && !c.c1.irefs && c.c6.plls
    case ModeError => false
  }

  /** In a valid mode, with the status settled, CLOCK_GetMode recognises it. */
  lemma GetModeInMode(c: Control, m: Mode)
    requires InMode(c, m)
    ensures GetMode(c, Selected(c)) == m
  {
  }

  /** The dividers and the enable bits of the PLL have no part in the mode. */
  lemma SameMode(c: Control, d: Control, m: Mode)
    requires c.c1 == d.c1 && c.c2 == d.c2 && c.c6.plls == d.c6.plls && InMode(c, m)
    ensures InMode(d, m)
  {
  }

  // ---------------------------------------------------------------------------------------------
  // The routing matrix
  // ---------------------------------------------------------------------------------------------

  /** mcgModeMatrix: the next mode on the way from `from` to `to`. */
  function Route(from: Mode, to: Mode): Mode
    requires from != ModeError && to != ModeError
  {
    var column := match to case FEI => 0 case FBI => 1 case BLPI => 2 case FEE => 3
                           case FBE => 4 case BLPE => 5 case PBE => 6 case PEE => 7;
    match from
    case FEI => [FEI, FBI, FBI, FEE, FBE, FBE, FBE, FBE][column]
    case FBI => [FEI, FBI, BLPI, FEE, FBE, FBE, FBE, FBE][column]
    case BLPI => [FBI, FBI, BLPI, FBI, FBI, FBI, FBI, FBI][column]
    case FEE => [FEI, FBI, FBI, FEE, FBE, FBE, FBE, FBE][column]
    case FBE => [FEI, FBI, FBI, FEE, FBE, BLPE, PBE, PBE][column]
    case BLPE => [FBE, FBE, FBE, FBE, FBE, BLPE, PBE, PBE][column]
    case PBE => [FBE, FBE, FBE, FBE, FBE, BLPE, PBE, PEE][column]
    case PEE => [PBE, PBE, PBE, PBE, PBE, PBE, PBE, PBE][column]
  }

  /** How many matrix steps it takes from `from` to `to`; staying where one is takes a step too. */
  function Hops(from: Mode, to: Mode): nat
    requires from != ModeError && to != ModeError
  {
    var column := match to case FEI => 0 case FBI => 1 case BLPI => 2 case FEE => 3
                           case FBE => 4 case BLPE => 5 case PBE => 6 case PEE => 7;
    match from
    case FEI => [1, 1, 2, 1, 1, 2, 2, 3][column]
    case FBI => [1, 1, 1, 1, 1, 2, 2, 3][column]
    case BLPI => [2, 1, 1, 2, 2, 3, 3, 4][column]
    case FEE => [1, 1, 2, 1, 1, 2, 2, 3][column]
    case FBE => [1, 1, 2, 1, 1, 1, 1, 2][column]
    case BLPE => [2, 2, 3, 2, 1, 1, 1, 2][column]
    case PBE => [2, 2, 3, 2, 1, 1, 1, 1][column]
    case PEE => [3, 3, 4, 3, 2, 2, 1, 2][column]
  }

  /** Every route ends where it should, after at most four steps. */
  lemma RouteEnds(from: Mode, to: Mode)
    requires from != ModeError && to != ModeError
    ensures 1 <= Hops(from, to) <= 4
    ensures Route(from, to) != ModeError
    ensures Route(from, to) == to <==> Hops(from, to) == 1
    ensures Route(from, to) != to ==> Hops(Route(from, to), to) == Hops(from, to) - 1
  {
    match from
    case FEI =>
    case FBI =>
    case BLPI =>
    case FEE =>
    case FBE =>
    case BLPE =>
    case PBE =>
    case PEE =>
  }

  /** Where a matrix step that leads to `m` leaves the control bits; on the way through PBE, LP may be set. */
  predicate Reached(c: Control, m: Mode) {
    InMode(c, m) || (m == PBE && c.c1.clks == SrcExternal && !c.c1.irefs && c.c6.plls)
  }

  // ---------------------------------------------------------------------------------------------
  // The control bits a setter leaves
  // ---------------------------------------------------------------------------------------------

  function ToFei(c: Control, dmx32: bool, drs: nat): Control {
    c.(c1 := c.c1.(clks := SrcOut, irefs := true), c4 := c.c4.(dmx32 := dmx32, drs := drs))
  }

  function ToFee(c: Control, frdiv: nat, dmx32: bool, drs: nat): Control {
    c.(c1 := c.c1.(clks := SrcOut, irefs := false, frdiv := frdiv % 8), c4 := c.c4.(dmx32 := dmx32, drs := drs))
  }

  function ToFbi(c: Control, dmx32: bool, drs: nat): Control {
    c.(c1 := c.c1.(clks := SrcInternal, irefs := true), c2 := c.c2.(lp := false),
       c4 := c.c4.(dmx32 := dmx32, drs := drs))
  }

  /** The FLL multiplier bits stay as they are: the new value is computed but not written. */
  function ToFbe(c: Control, frdiv: nat): Control {
    c.(c1 := c.c1.(clks := SrcExternal, irefs := false, frdiv := frdiv % 8), c2 := c.c2.(lp := false),
       c6 := c.c6.(plls := false))
  }

  function WithPll(c: Control, config: Config): Control {
    c.(c5 := C5(true, config.pllInStop, config.prdiv % 32), c6 := c.c6.(vdiv := config.vdiv % 32))
  }

  function ToPbe(c: Control, config: Config): Control {
    WithPll(c.(c1 := c.c1.(clks := SrcExternal, irefs := false), c2 := c.c2.(lp := false),
               c6 := c.c6.(plls := true)), config)
  }

  function WithIrc(c: Control, config: Config): Control {
    c.(c2 := c.c2.(fastIrc := config.fastIrc), c1 := c.c1.(irclken := config.irclken, irefsten := config.irefsten),
       fcrdiv := if config.fcrdiv != c.fcrdiv then config.fcrdiv % 8 else config.fcrdiv)
  }

  /** What each setter accepts when its parameter check is compiled in. */
  predicate FeiAccepts(m: Mode) { m in {FEI, FBI, FBE, FEE} }
  predicate FbiAccepts(m: Mode) { m in {FEE, FBI, FBE, FEI, BLPI} }
  predicate FbeAccepts(m: Mode) { m in {FEE, FBI, FBE, FEI, PBE, BLPE} }

  /** The parameter checks accept exactly the modes from which the matrix goes straight to the setter's mode. */
  lemma ChecksFollowMatrix(m: Mode)
    requires m != ModeError
    ensures FeiAccepts(m) <==> Route(m, FEI) == FEI
    ensures FeiAccepts(m) <==> Route(m, FEE) == FEE
    ensures FbiAccepts(m) <==> Route(m, FBI) == FBI
    ensures FbeAccepts(m) <==> Route(m, FBE) == FBE
    ensures m == PBE <==> Route(m, PEE) == PEE
  {
  }

  // ---------------------------------------------------------------------------------------------
  // The driver
  // ---------------------------------------------------------------------------------------------

  class Mcg {
    /** Whether MCG_CONFIG_CHECK_PARAM is defined. */
    const check: bool
    var c: Control
    var s: Status
    /** OSCSEL has been changed while the external clock was the reference. */
    ghost var switchedInUse: bool

    constructor (check: bool, c: Control)
      ensures this.check == check && this.c == c && s == Selected(c) && !switchedInUse
    {
      this.check, this.c, s, switchedInUse := check, c, Selected(c), false;
    }

    /** The status bits that show the mode are what the control bits select; IRCST may lag. */
    predicate Settled()
      reads this
    {
      s == Selected(c).(fastIrcst := s.fastIrcst)
    }

    function CurrentMode(): Mode
      reads this
    {
      GetMode(c, s)
    }

    /** Polling a status bit gives the hardware the time to settle. */
    method WaitClkst(v: ClkOut)
      requires Selected(c).clkst == v
      modifies this`s
      ensures s == Selected(c)
    {
      s := Selected(c);
    }

    method WaitIrefst(v: bool)
      requires Selected(c).irefst == v
      modifies this`s
      ensures s == Selected(c)
    {
      s := Selected(c);
    }

    method WaitPllst(v: bool)
      requires Selected(c).pllst == v
      modifies this`s
      ensures s == Selected(c)
    {
      s := Selected(c);
    }

    method WaitIrcst(fast: bool)
      requires Selected(c).fastIrcst == fast
      modifies this`s
      ensures s == Selected(c)
    {
      s := Selected(c);
    }

    /** The workaround for ERR007993 around a change of the FLL reference: DRS is changed and restored. */
    method ChangeReference(clks: Source, irefs: bool, frdiv: nat)
      modifies this`c, this`s
      ensures Settled() && c == old(c).(c1 := old(c).c1.(clks := clks, irefs := irefs, frdiv := frdiv))
    {
      var mcgC4 := c.c4.drs;
      var changeDrs := s.irefst != irefs;
      if changeDrs {
        c := c.(c4 := c.c4.(drs := if c.c4.drs % 2 == 0 then c.c4.drs + 1 else c.c4.drs - 1));
      }
      c := c.(c1 := c.c1.(clks := clks, frdiv := frdiv, irefs := irefs));
      WaitIrefst(irefs);
      if changeDrs {
        c := c.(c4 := c.c4.(drs := mcgC4));
      }
    }

    /** CLOCK_SetFeiMode. */
    method SetFeiMode(dmx32: bool, drs: nat) returns (r: Result)
      requires Settled()
      requires (check && !FeiAccepts(CurrentMode())) || !c.c6.plls
      modifies this`c, this`s
      ensures Settled()
      ensures r == if check && !FeiAccepts(old(CurrentMode())) then ModeUnreachable else Success
      ensures c == if r == Success then ToFei(old(c), dmx32, drs) else old(c)
    {
      if check {
        var mode := GetMode(c, s);
        if mode != FEI && mode != FBI && mode != FBE && mode != FEE {
          return ModeUnreachable;
        }
      }
      ChangeReference(SrcOut, true, c.c1.frdiv);
      c := c.(c4 := c.c4.(dmx32 := dmx32, drs := drs));
      WaitClkst(StatFll);
      r := Success;
    }

    /** CLOCK_SetFeeMode. */
    method SetFeeMode(frdiv: nat, dmx32: bool, drs: nat) returns (r: Result)
      requires Settled()
      requires (check && !FeiAccepts(CurrentMode())) || !c.c6.plls
      modifies this`c, this`s
      ensures Settled()
      ensures r == if check && !FeiAccepts(old(CurrentMode())) then ModeUnreachable else Success
      ensures c == if r == Success then ToFee(old(c), frdiv, dmx32, drs) else old(c)
    {
      if check {
        var mode := GetMode(c, s);
        if mode != FEE && mode != FBI && mode != FBE && mode != FEI {
          return ModeUnreachable;
        }
      }
      ChangeReference(SrcOut, false, frdiv % 8);
      c := c.(c4 := c.c4.(dmx32 := dmx32, drs := drs));
      WaitClkst(StatFll);
      r := Success;
    }

    /** CLOCK_SetFbiMode. */
    method SetFbiMode(dmx32: bool, drs: nat) returns (r: Result)
      requires Settled()
      modifies this`c, this`s
      ensures Settled()
      ensures r == if check && !FbiAccepts(old(CurrentMode())) then ModeUnreachable else Success
      ensures c == if r == Success then ToFbi(old(c), dmx32, drs) else old(c)
    {
      if check {
        var mode := GetMode(c, s);
        if mode != FEE && mode != FBI && mode != FBE && mode != FEI && mode != BLPI {
          return ModeUnreachable;
        }
      }
      c := c.(c2 := c.c2.(lp := false));
      ChangeReference(SrcInternal, true, c.c1.frdiv);
      WaitClkst(StatInt);
      c := c.(c4 := c.c4.(dmx32 := dmx32, drs := drs));
      r := Success;
    }

    /** CLOCK_SetFbeMode. */
    method SetFbeMode(frdiv: nat, dmx32: bool, drs: nat) returns (r: Result)
      requires Settled()
      modifies this`c, this`s
      ensures Settled()
      ensures r == if check && !FbeAccepts(old(CurrentMode())) then ModeUnreachable else Success
      ensures c == if r == Success then ToFbe(old(c), frdiv) else old(c)
    {
      if check {
        var mode := GetMode(c, s);
        if mode != FEE && mode != FBI && mode != FBE && mode != FEI && mode != PBE && mode != BLPE {
          return ModeUnreachable;
        }
      }
      c := c.(c6 := c.c6.(plls := false));
      WaitPllst(false);
      c := c.(c2 := c.c2.(lp := false));
      ChangeReference(SrcExternal, false, frdiv % 8);
      var mcgC4 := (dmx32, drs);
      WaitClkst(StatExt);
      r := Success;
    }

    /** CLOCK_SetBlpiMode. */
    method SetBlpiMode() returns (r: Result)
      requires Settled()
      modifies this`c
      ensures Settled()
      ensures r == if check && s.clkst != StatInt then ModeUnreachable else Success
      ensures c == if r == Success then old(c).(c2 := old(c).c2.(lp := true)) else old(c)
    {
      if check && s.clkst != StatInt {
        return ModeUnreachable;
      }
      c := c.(c2 := c.c2.(lp := true));
      r := Success;
    }

    /** CLOCK_SetBlpeMode. */
    method SetBlpeMode() returns (r: Result)
      requires Settled()
      modifies this`c
      ensures Settled()
      ensures r == if check && s.clkst != StatExt then ModeUnreachable else Success
      ensures c == if r == Success then old(c).(c2 := old(c).c2.(lp := true)) else old(c)
    {
      if check && s.clkst != StatExt {
        return ModeUnreachable;
      }
      c := c.(c2 := c.c2.(lp := true));
      r := Success;
    }

    /** CLOCK_EnablePll0: the PLL is disabled, set up and enabled independently of the mode. */
    method EnablePll0(config: Config)
      requires Settled()
      modifies this`c
      ensures Settled() && c == WithPll(old(c), config)
    {
      c := c.(c5 := c.c5.(prdiv := config.prdiv % 32, independent := false, inStop := false));
      c := c.(c6 := c.c6.(vdiv := config.vdiv % 32));
      c := c.(c5 := c.c5.(independent := true, inStop := config.pllInStop));
    }

    /** CLOCK_SetPbeMode. */
    method SetPbeMode(config: Config) returns (r: Result)
      requires Settled()
      modifies this`c, this`s
      ensures Settled() && r == Success && c == ToPbe(old(c), config)
    {
      c := c.(c2 := c.c2.(lp := false));
      c := c.(c1 := c.c1.(clks := SrcExternal, irefs := false));
      WaitIrefst(false);
      WaitClkst(StatExt);
      c := c.(c6 := c.c6.(plls := false));
      WaitPllst(false);
      EnablePll0(config);
      c := c.(c6 := c.c6.(plls := true));
      WaitPllst(true);
      r := Success;
    }

    /** CLOCK_SetPeeMode. */
    method SetPeeMode() returns (r: Result)
      requires Settled()
      requires (check && CurrentMode() != PBE) || c.c6.plls
      modifies this`c, this`s
      ensures Settled()
      ensures r == if check && old(CurrentMode()) != PBE then ModeUnreachable else Success
      ensures c == if r == Success then old(c).(c1 := old(c).c1.(clks := SrcOut)) else old(c)
    {
      if check && GetMode(c, s) != PBE {
        return ModeUnreachable;
      }
      c := c.(c1 := c.c1.(clks := SrcOut));
      WaitClkst(StatPll);
      r := Success;
    }

    /** CLOCK_ExternalModeToFbeModeQuick. */
    method ExternalModeToFbeModeQuick() returns (r: Result)
      requires Settled()
      modifies this`c, this`s
      ensures Settled()
      ensures r == if check && old(s.irefst) then ModeInvalid else Success
      ensures c ==
        if r == Success
        then old(c).(c2 := old(c).c2.(lp := false), c1 := old(c).c1.(clks := SrcExternal), c6 := old(c).c6.(plls := false))
        else old(c)
    {
      if check && s.irefst {
        return ModeInvalid;
      }
      c := c.(c2 := c.c2.(lp := false));
      c := c.(c1 := c.c1.(clks := SrcExternal));
      WaitClkst(StatExt);
      c := c.(c6 := c.c6.(plls := false));
      WaitPllst(false);
      r := Success;
    }

    /** CLOCK_SetExternalRefClkConfig; the oscillator, when it is waited for, is assumed to start. */
    method SetExternalRefClkConfig(oscsel: nat) returns (r: Result)
      requires Settled()
      modifies this`c, this`switchedInUse
      ensures Settled()
      ensures r == if check && old(c.oscsel) != oscsel && !s.irefst then SourceUsed else Success
      ensures c == if r == Success then old(c).(oscsel := oscsel) else old(c)
      ensures switchedInUse == (old(switchedInUse) || (!check && old(c.oscsel) != oscsel && !s.irefst))
    {
      if check && c.oscsel != oscsel && !s.irefst {
        return SourceUsed;
      }
      switchedInUse := switchedInUse || (c.oscsel != oscsel && !s.irefst);
      c := c.(oscsel := oscsel);
      r := Success;
    }

    /** CLOCK_SetInternalRefClkConfig. */
    method SetInternalRefClkConfig(config: Config) returns (r: Result)
      requires Settled()
      modifies this`c, this`s
      ensures Settled()
      ensures r == if check && old(s.clkst) == StatInt
                      && ((old(s.fastIrcst) && config.fcrdiv != old(c.fcrdiv)) || config.fastIrc != old(s.fastIrcst))
                   then SourceUsed else Success
      ensures c == if r == Success then WithIrc(old(c), config) else old(c)
      ensures r == Success && config.irclken ==> s.fastIrcst == config.fastIrc
    {
      if check && s.clkst == StatInt {
        if (s.fastIrcst && config.fcrdiv != c.fcrdiv) || config.fastIrc != s.fastIrcst {
          return SourceUsed;
        }
      }
      UpdateFcrdiv(config.fcrdiv);
      c := c.(c2 := c.c2.(fastIrc := config.fastIrc));
      c := c.(c1 := c.c1.(irclken := config.irclken, irefsten := config.irefsten));
      if s.clkst == StatInt || config.irclken {
        WaitIrcst(config.fastIrc);
      }
      r := Success;
    }

    /** The divider of the fast clock is changed while that clock is not in use. */
    method UpdateFcrdiv(fcrdiv: nat)
      requires Settled()
      modifies this`c, this`s
      ensures Settled()
      ensures c.(c2 := old(c).c2) == old(c).(fcrdiv := if fcrdiv != old(c.fcrdiv) then fcrdiv % 8 else fcrdiv)
      ensures c.c2.lp == old(c.c2.lp)
    {
      if fcrdiv != c.fcrdiv {
        if s.fastIrcst && (s.clkst == StatInt || c.c1.irclken) {
          c := c.(c2 := c.c2.(fastIrc := false));
          WaitIrcst(false);
        }
        c := c.(fcrdiv := fcrdiv % 8);
      }
    }

    /** One matrix step: the setter of the next mode. */
    method StepTo(nextMode: Mode, config: Config, ghost from: Mode) returns (r: Result)
      requires Settled() && IsConfig(config) && from != ModeError
      requires CanLeave(c, from, config.mode) && nextMode == Route(from, config.mode)
      modifies this`c, this`s
      ensures Settled() && r == Success
      ensures c == After(old(c), nextMode, config)
      ensures CanLeave(c, nextMode, config.mode) && (nextMode == config.mode ==> InMode(c, nextMode))
    {
      hide Reached, InMode, Route, CanLeave;
      StepLegal(c, s, from, config);
      match nextMode {
        case FEI => r := SetFeiMode(config.dmx32, config.drs);
        case FEE => r := SetFeeMode(config.frdiv, config.dmx32, config.drs);
        case FBI => r := SetFbiMode(config.dmx32, config.drs);
        case FBE => r := SetFbeMode(config.frdiv, config.dmx32, config.drs);
        case BLPI => r := SetBlpiMode();
        case BLPE => r := SetBlpeMode();
        case PBE =>
          if config.mode == PEE || config.mode == PBE {
            r := SetPbeMode(config);
          } else {
            c := c.(c1 := c.c1.(clks := SrcExternal));
            WaitClkst(StatExt);
            r := Success;
          }
        case PEE => r := SetPeeMode();
      }
    }

    /**
     The first part of CLOCK_SetMcgConfig: OSCSEL is changed, an internal mode is left for FEI and the
     internal reference is set up.
     */
    method Prepare(config: Config)
      requires Settled() && IsConfig(config) && InMode(c, CurrentMode()) && !switchedInUse
      modifies this`c, this`s, this`switchedInUse
      ensures Settled() && InMode(c, CurrentMode()) && CurrentMode() !in {FBI, BLPI}
      ensures CurrentMode() == PBE <==> old(CurrentMode() == PBE && (c.oscsel == config.oscsel || s.fastIrcst))
      ensures var misguided := old(s.fastIrcst) && !old(s.irefst) && old(c.oscsel) != config.oscsel;
              && c.oscsel == (if check && misguided then old(c.oscsel) else config.oscsel)
              && (switchedInUse <==> !check && misguided)
      ensures c.c2.fastIrc == config.fastIrc && c.c1.irclken == config.irclken && c.c1.irefsten == config.irefsten
      ensures c.c5 == old(c.c5) && c.c6.vdiv == old(c.c6.vdiv)
      ensures c.fcrdiv == if config.fcrdiv != old(c.fcrdiv) then config.fcrdiv % 8 else old(c.fcrdiv)
      ensures c.c4 == if old(GoesToFei(c, s, config)) then C4(config.dmx32, config.drs) else old(c.c4)
    {
      ChangeOscsel(config);
      LeaveInternal(config);
      ghost var before := CurrentMode();
      var irc := SetInternalRefClkConfig(config);
      assert CurrentMode() == before;
    }

    /** OSCSEL is changed in FEI mode, or where the program takes it for unused. */
    method ChangeOscsel(config: Config)
      requires Settled() && InMode(c, CurrentMode()) && !switchedInUse
      modifies this`c, this`s, this`switchedInUse
      ensures Settled() && InMode(c, CurrentMode())
      ensures CurrentMode() == PBE <==> old(CurrentMode() == PBE && (c.oscsel == config.oscsel || s.fastIrcst))
      ensures var misguided := old(s.fastIrcst) && !old(s.irefst) && old(c.oscsel) != config.oscsel;
              && c.oscsel == (if check && misguided then old(c.oscsel) else config.oscsel)
              && (switchedInUse <==> !check && misguided)
      ensures c.c5 == old(c.c5) && c.c6.vdiv == old(c.c6.vdiv) && c.fcrdiv == old(c.fcrdiv)
      ensures s.clkst != StatInt && old(GoesToFei(c, s, config)) ==> c.c4 == C4(config.dmx32, config.drs)
      ensures !old(GoesToFei(c, s, config)) ==> c.c4 == old(c.c4) && s.clkst != StatInt
    {
      if c.oscsel != config.oscsel {
        if !s.fastIrcst {
          LeaveExternal(config);
        }
        var ext := SetExternalRefClkConfig(config.oscsel);
      }
    }

    method LeaveExternal(config: Config)
      requires Settled() && InMode(c, CurrentMode())
      modifies this`c, this`s
      ensures Settled() && InMode(c, CurrentMode()) && CurrentMode() in {FEI, BLPI} && s.irefst
      ensures c.oscsel == old(c.oscsel) && c.c5 == old(c.c5) && c.c6.vdiv == old(c.c6.vdiv) && c.fcrdiv == old(c.fcrdiv)
      ensures s.clkst != StatInt ==> c.c4 == C4(config.dmx32, config.drs)
    {
      hide InMode, GetMode, FeiAccepts;
      ghost var was := c;
      ghost var mode := CurrentMode();
      ExternalOrNot(c, s, mode);
      var quick := ExternalModeToFbeModeQuick();
      if check {
        IsFbe(c, s);
        StatusDecides(c, old(s), s);
      }
      var fei := SetFeiMode(config.dmx32, config.drs);
      if fei == Success {
        IsFei(c, s);
      } else {
        StatusDecides(c, old(s), s);
        assert mode == BLPI;
      }
    }

    method LeaveInternal(config: Config)
      requires Settled() && InMode(c, CurrentMode())
      modifies this`c, this`s
      ensures Settled() && InMode(c, CurrentMode()) && CurrentMode() !in {FBI, BLPI}
      ensures CurrentMode() == PBE <==> old(CurrentMode()) == PBE
      ensures c.oscsel == old(c.oscsel) && c.c5 == old(c.c5) && c.c6.vdiv == old(c.c6.vdiv) && c.fcrdiv == old(c.fcrdiv)
      ensures c.c4 == if old(s.clkst) == StatInt then C4(config.dmx32, config.drs) else old(c.c4)
    {
      if s.clkst == StatInt {
        c := c.(c2 := c.c2.(lp := false));
        var fei := SetFeiMode(config.dmx32, config.drs);
      }
    }

    /** The loop of CLOCK_SetMcgConfig. */
    method Walk(config: Config) returns (r: Result, ghost path: seq<Mode>)
      requires Settled() && IsConfig(config) && InMode(c, CurrentMode()) && CurrentMode() !in {FBI, BLPI}
      modifies this`c, this`s
      ensures Settled() && r == Success && InMode(c, config.mode)
      ensures 1 <= |path| <= 4 && path[|path| - 1] == config.mode
      ensures Untouched(old(c), c) && Applied(c, config.mode, config)
      ensures config.mode in {PBE, PEE} && (old(CurrentMode()) != PBE || config.mode == PBE) ==> PllApplied(c, config)
      ensures config.mode == PEE && old(CurrentMode()) == PBE ==> c.c5 == old(c.c5) && c.c6.vdiv == old(c.c6.vdiv)
      ensures config.mode in {FBE, BLPE, PBE, PEE} ==> c.c4 == old(c.c4)
    {
      hide InMode, Route, Reached, After, Hops;
      ghost var start, from := c, CurrentMode();
      var nextMode := GetMode(c, s);
      StartLegal(c, from, config);
      path := [];
      var more := true;
      while more
        invariant Settled() && nextMode != ModeError
        invariant CanLeave(c, nextMode, config.mode)
        invariant !more ==> nextMode == config.mode && InMode(c, config.mode)
        invariant |path| + (if more then Hops(nextMode, config.mode) else 0) <= 4
        invariant !more ==> |path| > 0 && path[|path| - 1] == config.mode
        invariant more && path != [] ==> nextMode != config.mode
        invariant Untouched(start, c)
        invariant path == [] ==> nextMode == from && c == start
        invariant path != [] ==> Applied(c, nextMode, config)
        invariant path != [] ==> PllSoFar(start, from, c, nextMode, config)
        invariant config.mode in {FBE, BLPE, PBE, PEE} ==> c.c4 == start.c4 && nextMode !in {FBI, BLPI}
        decreases if more then Hops(nextMode, config.mode) else 0
      {
        ghost var was := c;
        RouteEnds(nextMode, config.mode);
        AfterEffects(start, from, was, nextMode, path == [], config);
        AfterExternal(was, nextMode, config);
        ghost var leaving := nextMode;
        nextMode := Route(nextMode, config.mode);
        r := StepTo(nextMode, config, leaving);
        path := path + [nextMode];
        if r != Success {
          return;
        }
        more := nextMode != config.mode;
      }
      r := Success;
    }

    /**
     CLOCK_SetMcgConfig: every switch succeeds in at most four steps. The ghost result is the list of
     modes switched to.

     With the parameter checks compiled in, a change of OSCSEL is refused, silently, when the external
     clock is the reference and the fast internal clock is selected; without them the change is made
     while the external clock is in use. The guard of the program looks at IRCST where it means IREFST.

     The PLL dividers of the configuration are ignored on the direct way from PBE to PEE, unless the
     PLL is to be enabled independently. The FLL multiplier is ignored by the modes with an external clock
     source, unless FEI was gone through first.
     */
    method SetMcgConfig(config: Config) returns (r: Result, ghost path: seq<Mode>)
      requires Settled() && IsConfig(config) && InMode(c, CurrentMode()) && !switchedInUse
      modifies this`c, this`s, this`switchedInUse
      ensures Settled() && r == Success
      ensures InMode(c, config.mode) && CurrentMode() == config.mode
      ensures 1 <= |path| <= 4 && path[|path| - 1] == config.mode
      ensures var misguided := old(s.fastIrcst) && !old(s.irefst) && old(c.oscsel) != config.oscsel;
              && c.oscsel == (if check && misguided then old(c.oscsel) else config.oscsel)
              && (switchedInUse <==> !check && misguided)
      ensures c.c2.fastIrc == config.fastIrc && c.c1.irclken == config.irclken && c.c1.irefsten == config.irefsten
      ensures config.mode in {FEI, FBI, BLPI, FEE} ==> c.c4 == C4(config.dmx32, config.drs)
      ensures c.fcrdiv == if config.fcrdiv != old(c.fcrdiv) then config.fcrdiv % 8 else old(c.fcrdiv)
      ensures config.mode in {FBE, BLPE, PBE, PEE} ==>
        c.c4 == if old(GoesToFei(c, s, config)) then C4(config.dmx32, config.drs) else old(c.c4)
      ensures config.mode in {FEE, FBE} ==> c.c1.frdiv == config.frdiv % 8
      ensures c.c5.independent == config.pllIndependent
      ensures config.mode in {PBE, PEE} || config.pllIndependent ==>
                var direct := config.mode == PEE && old(CurrentMode() == PBE && (c.oscsel == config.oscsel || s.fastIrcst));
                (c.c5.prdiv, c.c6.vdiv) ==
                  if direct && !config.pllIndependent then (old(c.c5.prdiv), old(c.c6.vdiv))
                  else (config.prdiv % 32, config.vdiv % 32)
    {
      hide InMode, GetMode, Selected, GoesToFei;
      Prepare(config);
      r, path := Walk(config);
      ghost var walked := c;
      FinishPll(config);
      SameMode(walked, c, config.mode);
      GetModeInMode(c, config.mode);
      StatusDecides(c, Selected(c), s);
    }

    /** The last part of CLOCK_SetMcgConfig. */
    method FinishPll(config: Config)
      requires Settled()
      modifies this`c
      ensures Settled() && c == old(c).(c5 := c.c5, c6 := old(c).c6.(vdiv := c.c6.vdiv))
      ensures c.c5.independent == config.pllIndependent
      ensures if config.pllIndependent then PllApplied(c, config)
              else c.c5.prdiv == old(c.c5.prdiv) && c.c6.vdiv == old(c.c6.vdiv)
    {
      if config.pllIndependent {
        EnablePll0(config);
      } else {
        c := c.(c5 := c.c5.(independent := false));
      }
    }
  }

  /** The first part of CLOCK_SetMcgConfig goes through FEI. */
  predicate GoesToFei(c: Control, s: Status, config: Config) {
    (c.oscsel != config.oscsel && !s.fastIrcst) || s.clkst == StatInt
  }

  /** Where CLOCK_ExternalModeToFbeModeQuick does nothing, only BLPI keeps CLOCK_SetFeiMode from working. */
  lemma ExternalOrNot(c: Control, s: Status, m: Mode)
    requires s == Selected(c).(fastIrcst := s.fastIrcst) && InMode(c, m)
    ensures s.irefst ==> !c.c6.plls && (FeiAccepts(m) <==> m != BLPI)
    ensures m == BLPI ==> Selected(c).clkst == StatInt
  {
  }

  /** CLOCK_GetMode does not look at IRCST. */
  lemma StatusDecides(c: Control, s: Status, t: Status)
    ensures s.(fastIrcst := t.fastIrcst) == t ==> GetMode(c, s) == GetMode(c, t)
  {
  }

  lemma IsFbe(c: Control, s: Status)
    requires s == Selected(c).(fastIrcst := s.fastIrcst)
    ensures c.c1.clks == SrcExternal && !c.c2.lp && !c.c6.plls ==> FeiAccepts(GetMode(c, s))
  {
  }

  lemma IsFei(c: Control, s: Status)
    requires s == Selected(c).(fastIrcst := s.fastIrcst)
    ensures c.c1.clks == SrcOut && c.c1.irefs && !c.c6.plls ==> GetMode(c, s) == FEI && InMode(c, FEI)
  {
  }

  /** The control bits after a matrix step to `m`. */
  function After(c: Control, m: Mode, config: Config): Control {
    match m
    case FEI => ToFei(c, config.dmx32, config.drs)
    case FEE => ToFee(c, config.frdiv, config.dmx32, config.drs)
    case FBI => ToFbi(c, config.dmx32, config.drs)
    case FBE => ToFbe(c, config.frdiv)
    case BLPI => c.(c2 := c.c2.(lp := true))
    case BLPE => c.(c2 := c.c2.(lp := true))
    case PBE =>
      if config.mode == PEE || config.mode == PBE then ToPbe(c, config) else c.(c1 := c.c1.(clks := SrcExternal))
    case PEE => c.(c1 := c.c1.(clks := SrcOut))
    case ModeError => c
  }

  /** The control bits from which a matrix step is taken: only on the way to PEE must LP be clear in PBE. */
  predicate CanLeave(c: Control, from: Mode, target: Mode) {
    Reached(c, from) && (target in {PBE, PEE} && from == PBE ==> InMode(c, PBE))
  }

  /** No routed setter is refused, every wait can end, and the step ends where the next one can start. */
  lemma StepLegal(c: Control, s: Status, from: Mode, config: Config)
    requires IsConfig(config) && from != ModeError && CanLeave(c, from, config.mode)
    requires s == Selected(c).(fastIrcst := s.fastIrcst)
    ensures var next, mode := Route(from, config.mode), GetMode(c, s);
            match next
            case FEI => FeiAccepts(mode) && !c.c6.plls
            case FEE => FeiAccepts(mode) && !c.c6.plls
            case FBI => FbiAccepts(mode)
            case FBE => FbeAccepts(mode)
            case BLPI => s.clkst == StatInt
            case BLPE => s.clkst == StatExt
            case PBE => true
            case PEE => mode == PBE && c.c6.plls
            case ModeError => false
    ensures var next := Route(from, config.mode);
            var after := After(c, next, config);
            CanLeave(after, next, config.mode) && (next == config.mode ==> InMode(after, next))
  {
    match from
    case FEI =>
    case FBI =>
    case BLPI =>
    case FEE =>
    case FBE =>
    case BLPE =>
    case PBE =>
    case PEE =>
  }

  // ---------------------------------------------------------------------------------------------
  // What the steps of a route add up to
  // ---------------------------------------------------------------------------------------------

  /** What no matrix step changes. */
  predicate Untouched(start: Control, c: Control) {
    && c.oscsel == start.oscsel && c.fcrdiv == start.fcrdiv && c.c2.fastIrc == start.c2.fastIrc
    && c.c1.irclken == start.c1.irclken && c.c1.irefsten == start.c1.irefsten
  }

  /** What a matrix step that led to `m` has taken from the configuration. */
  predicate Applied(c: Control, m: Mode, config: Config) {
    && (m in {FEI, FBI, BLPI, FEE} ==> c.c4 == C4(config.dmx32, config.drs))
    && (m in {FEE, FBE} ==> c.c1.frdiv == config.frdiv % 8)
  }

  predicate PllApplied(c: Control, config: Config) {
    c.c5.prdiv == config.prdiv % 32 && c.c6.vdiv == config.vdiv % 32
  }

  /** The PLL dividers after at least one step from `from`. */
  predicate PllSoFar(start: Control, from: Mode, c: Control, m: Mode, config: Config) {
    && (m in {PBE, PEE} && config.mode in {PBE, PEE} && (from != PBE || config.mode == PBE) ==> PllApplied(c, config))
    && (config.mode == PEE && from == PBE ==> m == PEE && c.c5 == start.c5 && c.c6.vdiv == start.c6.vdiv)
  }

  lemma StartLegal(c: Control, from: Mode, config: Config)
    requires IsConfig(config) && InMode(c, from)
    ensures CanLeave(c, from, config.mode) && from != ModeError && Hops(from, config.mode) <= 4
  {
    RouteEnds(from, config.mode);
  }

  lemma AfterEffects(start: Control, from: Mode, c: Control, m: Mode, first: bool, config: Config)
    requires IsConfig(config) && m != ModeError && from != ModeError && Untouched(start, c)
    requires first ==> m == from && c == start && m !in {FBI, BLPI}
    requires !first ==> m != config.mode && Applied(c, m, config) && PllSoFar(start, from, c, m, config)
    ensures var next := Route(m, config.mode);
            var after := After(c, next, config);
            Untouched(start, after) && Applied(after, next, config) && PllSoFar(start, from, after, next, config)
  {
    hide Route, After, Applied, PllSoFar, Untouched;
    var next := Route(m, config.mode);
    AfterUntouched(start, c, next, config);
    AfterApplied(c, m, first, config);
    AfterPll(start, from, c, m, first, config);
  }

  /** The way to a mode with an external clock source leaves the FLL multiplier alone. */
  lemma AfterExternal(c: Control, m: Mode, config: Config)
    requires m != ModeError && config.mode != ModeError
    ensures config.mode in {FBE, BLPE, PBE, PEE} && m !in {FBI, BLPI} ==>
      Route(m, config.mode) !in {FBI, BLPI} && After(c, Route(m, config.mode), config).c4 == c.c4
  {
    if config.mode in {FBE, BLPE, PBE, PEE} {
      ExternalRoutes(m, config.mode);
      hide Route;
    }
  }

  lemma ExternalRoutes(from: Mode, to: Mode)
    requires from != ModeError && to in {FBE, BLPE, PBE, PEE}
    ensures from !in {FBI, BLPI} ==> Route(from, to) in {FBE, BLPE, PBE, PEE}
  {
    match from
    case FEI =>
    case FBI =>
    case BLPI =>
    case FEE =>
    case FBE =>
    case BLPE =>
    case PBE =>
    case PEE =>
  }

  lemma AfterUntouched(start: Control, c: Control, next: Mode, config: Config)
    requires Untouched(start, c)
    ensures Untouched(start, After(c, next, config))
  {
  }

  lemma AfterApplied(c: Control, m: Mode, first: bool, config: Config)
    requires m != ModeError && config.mode != ModeError
    requires if first then m !in {FBI, BLPI} else m != config.mode && Applied(c, m, config)
    ensures Applied(After(c, Route(m, config.mode), config), Route(m, config.mode), config)
  {
    hide Route;
    BlpiComesLast(m, config.mode);
    if Route(m, config.mode) == FEI {
    } else if Route(m, config.mode) == BLPI {
    } else {
    }
  }

  /** BLPI is entered from FBI or kept. */
  lemma BlpiComesLast(from: Mode, to: Mode)
    requires from != ModeError && to != ModeError
    ensures Route(from, to) == BLPI ==> to == BLPI && from in {FBI, BLPI}
  {
    match from
    case FEI =>
    case FBI =>
    case BLPI =>
    case FEE =>
    case FBE =>
    case BLPE =>
    case PBE =>
    case PEE =>
  }

  lemma AfterPll(start: Control, from: Mode, c: Control, m: Mode, first: bool, config: Config)
    requires m != ModeError && config.mode != ModeError
    requires if first then m == from && c == start else m != config.mode && PllSoFar(start, from, c, m, config)
    ensures PllSoFar(start, from, After(c, Route(m, config.mode), config), Route(m, config.mode), config)
  {
    hide Route;
    PllRoutes(m, config.mode);
  }

  /** PEE is entered from PBE only, and left through PBE. */
  lemma PllRoutes(from: Mode, to: Mode)
    requires from != ModeError && to != ModeError
    ensures Route(from, to) == PEE ==> from == PBE && to == PEE
    ensures from == PBE && to == PEE ==> Route(from, to) == PEE
  {
    match from
    case FEI =>
    case FBI =>
    case BLPI =>
    case FEE =>
    case FBE =>
    case BLPE =>
    case PBE =>
    case PEE =>
  }

  /**
   A change of OSCSEL that is dropped: in FEE mode with the fast internal clock selected, the configuration for
   the other oscillator and the same mode is reported as successful, and OSCSEL is what it was.
   */
  method DroppedChange() returns (m: Mcg, config: Config, r: Result)
    ensures r == Success && config.oscsel == 1 && m.c.oscsel == 0 && m.CurrentMode() == FEE == config.mode
  {
    var c := Control(C1(SrcOut, false, 0, false, false), C2(false, true), C4(false, 0), C5(false, false, 0),
                     C6(false, 0), 0, 0);
    config := Config(FEE, false, false, true, 0, 0, 0, false, 1, false, false, 0, 0);
    m := new Mcg(true, c);
    ghost var path: seq<Mode>;
    r, path := m.SetMcgConfig(config);
  }
}
