/**
 The PLL divider search of fsl_clock.c, CLOCK_CalcPllDiv, and the registers it is meant for.

 The PLL divides its reference by PRDIV, which must bring it between 2 and 4 MHz, and multiplies it by
 VDIV, 24 to 55. The search visits the values of PRDIV from the largest down and tries at most two
 values of VDIV with each.
 */
module PllDiv {
  import opened Machine
  import Bits

  const REF_MIN := 2_000_000
  const REF_MAX := 4_000_000
  const PRDIV_BASE := 1
  const PRDIV_MAX := 24
  const VDIV_BASE := 24
  const NO_DIFF := 0xFFFF_FFFF

  /** The dividers found, as they are written to the registers, and the frequency they give. */
  datatype Result = Nothing | Found(prdiv: nat, vdiv: nat, freq: nat)

  /** The closest pair so far: `diff` is `NO_DIFF` when there is none. */
  datatype Best = Best(diff: nat, prdiv: nat, vdiv: nat)

  // ---------------------------------------------------------------------------------------------
  // What is searched for
  // ---------------------------------------------------------------------------------------------

  /** Dividing by `p` keeps the reference between 2 and 4 MHz. */
  predicate Allowed(refFreq: nat, p: nat) {
    p > 0 && 2_000_000 * p <= refFreq <= 4_000_000 * p
  }

  predicate IsVdiv(v: nat) {
    24 <= v <= 55
  }

  /** How far a reference and a multiplier are from the frequency asked for. */
  function Off(refDiv: nat, v: nat, desireFreq: nat): nat {
    Distance(v * refDiv, desireFreq)
  }

  /** How far a pair of dividers is from the frequency asked for. */
  function Error(refFreq: nat, desireFreq: nat, p: nat, v: nat): nat
    requires p > 0
  {
    Off(Quot(refFreq, p), v, desireFreq)
  }

  /** The frequency asked for is within reach of the multipliers when the reference is divided by `p`. */
  predicate InReach(refFreq: nat, desireFreq: nat, p: nat)
    requires p > 0
  {
    23 * Quot(refFreq, p) <= desireFreq < 56 * Quot(refFreq, p)
  }

  // ---------------------------------------------------------------------------------------------
  // The search
  // ---------------------------------------------------------------------------------------------

  /** The quotient as the `uint8_t` variable of the program holds it. */
  function Vdiv8(desireFreq: nat, refDiv: nat): nat
    requires refDiv > 0
  {
    Quot(desireFreq, refDiv) % 256
  }

  /** One turn of the loop: either the exact frequency is found, or the best pair may improve. */
  datatype Turn = Exact(prdiv: nat, vdiv: nat) | Continue(best: Best)

  /** `best`, or the pair `p`, `v` when its difference, an unsigned number, is smaller. */
  function Closer(best: Best, diff: uint32, p: nat, v: nat): Best {
    if best.diff > diff then Best(diff, p, v) else best
  }

  function Visit(refFreq: nat, desireFreq: nat, p: nat, best: Best): (t: Turn)
    requires p > 0 && Quot(refFreq, p) > 0
    ensures t.Exact? ==> t.prdiv == p && t.vdiv >= VDIV_BASE
    ensures t.Continue? && best.prdiv > 0 && best.vdiv >= VDIV_BASE ==>
              t.best.prdiv > 0 && t.best.vdiv >= VDIV_BASE
  {
    var refDiv := Quot(refFreq, p);
    Try(refDiv, Vdiv8(desireFreq, refDiv), desireFreq, p, best)
  }

  /** The multipliers `v` and `v + 1`, as far as they are allowed, with the reference divided by `p`. */
  function Try(refDiv: nat, v: nat, desireFreq: nat, p: nat, best: Best): Turn {
    if v < VDIV_BASE - 1 || v > VDIV_BASE + 31 then Continue(best)
    else
      var retFreq := v * refDiv;
      if v >= VDIV_BASE && retFreq == desireFreq then Exact(p, v)
      else
        var below := if v >= VDIV_BASE then Closer(best, Wrap(desireFreq - retFreq), p, v) else best;
        Continue(if v + 1 <= VDIV_BASE + 31
                 then Closer(below, Wrap(retFreq + refDiv - desireFreq), p, v + 1) else below)
  }

  function Search(refFreq: nat, desireFreq: nat, p: nat, min: nat, best: Best): Result
    requires min > 0 && (p >= min ==> refFreq >= REF_MIN * p) && best.prdiv > 0 && best.vdiv >= VDIV_BASE
    decreases p
  {
    if p < min then
      if best.diff == NO_DIFF then Nothing
      else Found(best.prdiv - PRDIV_BASE, best.vdiv - VDIV_BASE, Quot(refFreq, best.prdiv) * best.vdiv)
    else
      RefDivPositive(refFreq, p);
      match Visit(refFreq, desireFreq, p, best)
      case Exact(prdiv, vdiv) => Found(prdiv - PRDIV_BASE, vdiv - VDIV_BASE, desireFreq)
      case Continue(better) => Search(refFreq, desireFreq, p - 1, min, better)
  }

  lemma SearchTurn(refFreq: nat, desireFreq: nat, p: nat, min: nat, best: Best)
    requires 0 < min <= p && refFreq >= REF_MIN * p && best.prdiv > 0 && best.vdiv >= VDIV_BASE && Quot(refFreq, p) > 0
    ensures Search(refFreq, desireFreq, p, min, best) ==
            match Visit(refFreq, desireFreq, p, best)
            case Exact(prdiv, vdiv) => Found(prdiv - PRDIV_BASE, vdiv - VDIV_BASE, desireFreq)
            case Continue(better) => Search(refFreq, desireFreq, p - 1, min, better)
  {
    hide Quot, Visit;
  }

  lemma SearchEnd(refFreq: nat, desireFreq: nat, p: nat, min: nat, best: Best)
    requires p < min && best.prdiv > 0 && best.vdiv >= VDIV_BASE
    ensures Search(refFreq, desireFreq, p, min, best) ==
            if best.diff == NO_DIFF then Nothing
            else Found(best.prdiv - PRDIV_BASE, best.vdiv - VDIV_BASE, Quot(refFreq, best.prdiv) * best.vdiv)
  {
    hide Quot;
  }

  lemma RefDivPositive(refFreq: nat, p: nat)
    requires p > 0 && refFreq >= REF_MIN * p
    ensures Quot(refFreq, p) >= REF_MIN
  {
    QuotAtLeast(refFreq, p, REF_MIN);
  }

  function MaxPrdiv(refFreq: nat): nat { refFreq / REF_MIN }
  function MinPrdiv(refFreq: nat): nat { (refFreq + REF_MAX - 1) / REF_MAX }

  /** Before the first turn nothing has been found; the dividers of this value are not read. */
  const NONE_YET := Best(NO_DIFF, 1, VDIV_BASE)

  function CalcPllDiv(refFreq: uint32, desireFreq: uint32): Result {
    if refFreq < REF_MIN || refFreq > REF_MAX * (PRDIV_MAX + PRDIV_BASE) then Nothing
    else Search(refFreq, desireFreq, MaxPrdiv(refFreq), MinPrdiv(refFreq), NONE_YET)
  }

  /** CLOCK_CalcPllDiv: the loop over PRDIV with its running best values. */
  method RunCalcPllDiv(refFreq: uint32, desireFreq: uint32) returns (r: Result)
    ensures r == CalcPllDiv(refFreq, desireFreq)
  {
    if refFreq < REF_MIN || refFreq > REF_MAX * (PRDIV_MAX + PRDIV_BASE) {
      return Nothing;
    }
    hide Quot, Wrap;
    var prdivMax := refFreq / REF_MIN;
    var prdivMin := (refFreq + REF_MAX - 1) / REF_MAX;
    var diff: nat, retPrdiv: nat, retVdiv: nat := NO_DIFF, 1, VDIV_BASE;
    var p := prdivMax;
    assert CalcPllDiv(refFreq, desireFreq) == Search(refFreq, desireFreq, p, prdivMin, Best(diff, retPrdiv, retVdiv));
    hide CalcPllDiv, Search;
    while p >= prdivMin
      invariant 0 < prdivMin && 0 <= p && p <= prdivMax && retPrdiv > 0
      invariant retVdiv >= VDIV_BASE
      invariant CalcPllDiv(refFreq, desireFreq) ==
                Search(refFreq, desireFreq, p, prdivMin, Best(diff, retPrdiv, retVdiv))
      decreases p
    {
      RefDivPositive(refFreq, p);
      SearchTurn(refFreq, desireFreq, p, prdivMin, Best(diff, retPrdiv, retVdiv));
      ghost var turn := Visit(refFreq, desireFreq, p, Best(diff, retPrdiv, retVdiv));
      var refDiv := Quot(refFreq, p);
      var vdivCur := Quot(desireFreq, refDiv) % 256;
      if vdivCur < VDIV_BASE - 1 || vdivCur > VDIV_BASE + 31 {
        p := p - 1;
        continue;
      }
      var retFreq := vdivCur * refDiv;
      if vdivCur >= VDIV_BASE {
        if retFreq == desireFreq {
          return Found(p - PRDIV_BASE, vdivCur - VDIV_BASE, retFreq);
        }
        if diff > Wrap(desireFreq - retFreq) {
          diff := Wrap(desireFreq - retFreq);
          retPrdiv := p;
          retVdiv := vdivCur;
        }
      }
      vdivCur := vdivCur + 1;
      if vdivCur <= VDIV_BASE + 31 {
        retFreq := retFreq + refDiv;
        if diff > Wrap(retFreq - desireFreq) {
          diff := Wrap(retFreq - desireFreq);
          retPrdiv := p;
          retVdiv := vdivCur;
        }
      }
      assert turn == Continue(Best(diff, retPrdiv, retVdiv));
      p := p - 1;
    }
    SearchEnd(refFreq, desireFreq, p, prdivMin, Best(diff, retPrdiv, retVdiv));
    if diff != NO_DIFF {
      return Found(retPrdiv - PRDIV_BASE, retVdiv - VDIV_BASE, Quot(refFreq, retPrdiv) * retVdiv);
    }
    return Nothing;
  }

  // ---------------------------------------------------------------------------------------------
  // One divider
  // ---------------------------------------------------------------------------------------------

  /** Below 512 MHz the quotient fits its eight bits and brackets the frequency asked for. */
  lemma Bracket(refFreq: nat, desireFreq: nat, p: nat)
    requires Allowed(refFreq, p) && desireFreq < 512_000_000
    ensures var refDiv := Quot(refFreq, p);
            && REF_MIN <= refDiv <= REF_MAX
            && Vdiv8(desireFreq, refDiv) * refDiv <= desireFreq < Vdiv8(desireFreq, refDiv) * refDiv + refDiv
  {
    hide Quot;
    RefDivPositive(refFreq, p);
    var refDiv := Quot(refFreq, p);
    QuotBounds(refFreq, p);
    MulLe(REF_MAX + 1, refDiv, p);
    QuotBounds(desireFreq, refDiv);
    var v := Quot(desireFreq, refDiv);
    MulLe(256, v, refDiv);
  }

  /** Multipliers further from the quotient are further from the frequency asked for. */
  lemma FurtherOff(refDiv: nat, desireFreq: nat, q: nat, v: nat)
    requires q * refDiv <= desireFreq < q * refDiv + refDiv
    ensures v <= q ==> Off(refDiv, v, desireFreq) >= desireFreq - q * refDiv
    ensures v > q ==> Off(refDiv, v, desireFreq) >= q * refDiv + refDiv - desireFreq
  {
    MulLe(v, q, refDiv);
    MulLe(q + 1, v, refDiv);
  }

  /** `best` is at least as close as every multiplier with the divider `p`. */
  ghost predicate Beats(refFreq: nat, desireFreq: nat, best: nat, p: nat)
    requires p > 0
  {
    forall v: nat | IsVdiv(v) :: best <= Error(refFreq, desireFreq, p, v)
  }

  /** `best` is one of the pairs the divider `p` offers. */
  predicate Offers(refFreq: nat, desireFreq: nat, best: Best, p: nat) {
    && Allowed(refFreq, p) && InReach(refFreq, desireFreq, p)
    && best.prdiv == p && IsVdiv(best.vdiv)
    && best.diff == Error(refFreq, desireFreq, p, best.vdiv) < NO_DIFF
  }

  /** A divider out of reach changes nothing; one within reach leaves a pair that beats all it offers. */
  lemma VisitOne(refFreq: nat, desireFreq: nat, p: nat, best: Best)
    requires Allowed(refFreq, p) && desireFreq < 512_000_000 && Quot(refFreq, p) > 0
    ensures match Visit(refFreq, desireFreq, p, best)
            case Exact(prdiv, vdiv) =>
              prdiv == p && InReach(refFreq, desireFreq, p) && IsVdiv(vdiv) && Error(refFreq, desireFreq, p, vdiv) == 0
            case Continue(better) =>
              if !InReach(refFreq, desireFreq, p) then better == best
              else
                && better.diff <= best.diff && better.diff < NO_DIFF
                && (better == best || Offers(refFreq, desireFreq, better, p))
                && Beats(refFreq, desireFreq, better.diff, p)
  {
    var refDiv := Quot(refFreq, p);
    Bracket(refFreq, desireFreq, p);
    var q := Vdiv8(desireFreq, refDiv);
    hide Quot, Vdiv8, Try, Wrap;
    QuotientInReach(refDiv, desireFreq, q);
    TryOne(refDiv, q, desireFreq, p, best);
  }

  lemma TryOne(refDiv: nat, q: nat, desireFreq: nat, p: nat, best: Best)
    requires refDiv <= REF_MAX && q * refDiv <= desireFreq < q * refDiv + refDiv
    ensures match Try(refDiv, q, desireFreq, p, best)
            case Exact(prdiv, vdiv) => prdiv == p && IsVdiv(vdiv) && vdiv == q && vdiv * refDiv == desireFreq
            case Continue(better) =>
              if !(23 <= q <= 55) then better == best
              else
                && better.diff <= best.diff && better.diff < NO_DIFF
                && (better == best ||
                    (better.prdiv == p && IsVdiv(better.vdiv)
                     && better.diff == Off(refDiv, better.vdiv, desireFreq) < NO_DIFF))
                && forall v: nat | IsVdiv(v) :: better.diff <= Off(refDiv, v, desireFreq)
  {
    SmallWrap(desireFreq - q * refDiv);
    SmallWrap(q * refDiv + refDiv - desireFreq);
    hide Wrap;
    assert (q + 1) * refDiv == q * refDiv + refDiv;
    forall v: nat | IsVdiv(v)
      ensures v <= q ==> Off(refDiv, v, desireFreq) >= desireFreq - q * refDiv
      ensures v > q ==> Off(refDiv, v, desireFreq) >= q * refDiv + refDiv - desireFreq
    {
      FurtherOff(refDiv, desireFreq, q, v);
    }
  }

  lemma SmallWrap(x: int)
    requires 0 <= x <= REF_MAX
    ensures Wrap(x) == x
  {
  }

  lemma QuotientInReach(refDiv: nat, desireFreq: nat, q: nat)
    requires q * refDiv <= desireFreq < q * refDiv + refDiv
    ensures 23 <= q <= 55 <==> 23 * refDiv <= desireFreq < 56 * refDiv
  {
    MulLe(q + 1, 23, refDiv);
    MulLe(56, q, refDiv);
    MulLe(23, q, refDiv);
    MulLe(q + 1, 56, refDiv);
  }

  // ---------------------------------------------------------------------------------------------
  // The whole search
  // ---------------------------------------------------------------------------------------------

  /** None of the dividers `low..high` brings the frequency within reach. */
  ghost predicate NoneInReach(refFreq: nat, desireFreq: nat, low: nat, high: nat)
    requires low > 0
  {
    forall p: nat | low <= p <= high :: !InReach(refFreq, desireFreq, p)
  }

  /** An error of `e` beats all that the dividers `low..high` within reach offer. */
  ghost predicate AllBeaten(refFreq: nat, desireFreq: nat, e: nat, low: nat, high: nat)
    requires low > 0
  {
    forall p: nat | low <= p <= high && InReach(refFreq, desireFreq, p) :: Beats(refFreq, desireFreq, e, p)
  }

  /** What is known of the best pair when the dividers `low..high` have been visited. */
  ghost predicate BestOf(refFreq: nat, desireFreq: nat, best: Best, low: nat, high: nat)
    requires low > 0
  {
    && best.prdiv > 0 && best.vdiv >= VDIV_BASE
    && (best.diff != NO_DIFF ==> Offers(refFreq, desireFreq, best, best.prdiv))
    && (best.diff == NO_DIFF ==> NoneInReach(refFreq, desireFreq, low, high))
    && AllBeaten(refFreq, desireFreq, best.diff, low, high)
  }

  /** The answer: the pair found is allowed and beats every divider within reach among `low..high`. */
  ghost predicate Answers(refFreq: nat, desireFreq: nat, r: Result, low: nat, high: nat)
    requires low > 0
  {
    match r
    case Nothing => NoneInReach(refFreq, desireFreq, low, high)
    case Found(prdiv, vdiv, freq) =>
      var p, v := prdiv + PRDIV_BASE, vdiv + VDIV_BASE;
      && Allowed(refFreq, p) && IsVdiv(v) && InReach(refFreq, desireFreq, p)
      && freq == Quot(refFreq, p) * v
      && AllBeaten(refFreq, desireFreq, Distance(freq, desireFreq), low, high)
  }

  lemma BestVisit(refFreq: nat, desireFreq: nat, p: nat, high: nat, best: Best)
    requires p > 0 && Allowed(refFreq, p) && desireFreq < 512_000_000 && Quot(refFreq, p) > 0
    requires BestOf(refFreq, desireFreq, best, p + 1, high)
    requires Visit(refFreq, desireFreq, p, best).Continue?
    ensures BestOf(refFreq, desireFreq, Visit(refFreq, desireFreq, p, best).best, p, high)
  {
    hide Visit, InReach, Allowed, Quot, Beats, Offers, NoneInReach, AllBeaten;
    VisitOne(refFreq, desireFreq, p, best);
    var better := Visit(refFreq, desireFreq, p, best).best;
    BeatenExtends(refFreq, desireFreq, better.diff, best.diff, p, high);
    OffersItself(refFreq, desireFreq, better, p);
  }

  lemma BeatenExtends(refFreq: nat, desireFreq: nat, e: nat, f: nat, p: nat, high: nat)
    requires p > 0 && e <= f
    requires AllBeaten(refFreq, desireFreq, f, p + 1, high)
    requires InReach(refFreq, desireFreq, p) ==> Beats(refFreq, desireFreq, e, p)
    ensures AllBeaten(refFreq, desireFreq, e, p, high)
    ensures NoneInReach(refFreq, desireFreq, p + 1, high) && !InReach(refFreq, desireFreq, p) ==>
              NoneInReach(refFreq, desireFreq, p, high)
  {
    hide InReach, Beats;
    forall o: nat | p <= o <= high && InReach(refFreq, desireFreq, o)
      ensures Beats(refFreq, desireFreq, e, o)
    {
      if o > p {
        BeatsMore(refFreq, desireFreq, e, f, o);
      }
    }
  }

  lemma BeatsMore(refFreq: nat, desireFreq: nat, e: nat, f: nat, p: nat)
    requires p > 0 && e <= f && Beats(refFreq, desireFreq, f, p)
    ensures Beats(refFreq, desireFreq, e, p)
  {
  }

  lemma OffersItself(refFreq: nat, desireFreq: nat, best: Best, p: nat)
    ensures Offers(refFreq, desireFreq, best, p) ==>
              best.prdiv == p > 0 && best.vdiv >= VDIV_BASE && best.diff < NO_DIFF
  {
  }

  lemma {:induction false} SearchAnswers(refFreq: nat, desireFreq: nat, p: nat, min: nat, high: nat, best: Best)
    requires min > 0 && desireFreq < 512_000_000
    requires forall o | min <= o <= high :: Allowed(refFreq, o)
    requires min - 1 <= p <= high && BestOf(refFreq, desireFreq, best, p + 1, high)
    requires p >= min ==> refFreq >= REF_MIN * p
    ensures best.prdiv > 0 && best.vdiv >= VDIV_BASE
    ensures Answers(refFreq, desireFreq, Search(refFreq, desireFreq, p, min, best), min, high)
    decreases p
  {
    assert best.prdiv > 0 && best.vdiv >= VDIV_BASE;
    hide BestOf, Answers, Visit, Quot, Allowed;
    if p >= min {
      assert Allowed(refFreq, p);
      RefDivPositive(refFreq, p);
      match Visit(refFreq, desireFreq, p, best) {
        case Exact(prdiv, vdiv) =>
          ExactAnswers(refFreq, desireFreq, p, min, high, best);
        case Continue(better) =>
          BestVisit(refFreq, desireFreq, p, high, best);
          AllowedMin(refFreq, p - 1, min, high);
          SearchAnswers(refFreq, desireFreq, p - 1, min, high, better);
      }
    } else {
      BestAnswers(refFreq, desireFreq, min, high, best);
    }
  }

  lemma AllowedMin(refFreq: nat, p: nat, min: nat, high: nat)
    requires forall o | min <= o <= high :: Allowed(refFreq, o)
    ensures min <= p <= high ==> refFreq >= REF_MIN * p
  {
    if min <= p <= high { assert Allowed(refFreq, p); }
  }

  lemma BestAnswers(refFreq: nat, desireFreq: nat, min: nat, high: nat, best: Best)
    requires min > 0 && BestOf(refFreq, desireFreq, best, min, high)
    ensures best.diff == NO_DIFF ==> Answers(refFreq, desireFreq, Nothing, min, high)
    ensures best.diff != NO_DIFF ==>
              Answers(refFreq, desireFreq,
                Found(best.prdiv - PRDIV_BASE, best.vdiv - VDIV_BASE, Quot(refFreq, best.prdiv) * best.vdiv), min, high)
  {
    hide AllBeaten, NoneInReach, Quot;
  }

  lemma ExactAnswers(refFreq: nat, desireFreq: nat, p: nat, min: nat, high: nat, best: Best)
    requires 0 < min && desireFreq < 512_000_000 && p > 0 && Allowed(refFreq, p) && Quot(refFreq, p) > 0
    requires Visit(refFreq, desireFreq, p, best).Exact?
    ensures var t := Visit(refFreq, desireFreq, p, best);
            Answers(refFreq, desireFreq, Found(t.prdiv - PRDIV_BASE, t.vdiv - VDIV_BASE, desireFreq), min, high)
  {
    VisitOne(refFreq, desireFreq, p, best);
    hide Visit, Quot, InReach;
    assert Distance(desireFreq, desireFreq) == 0;
  }

  /** The dividers the program visits are the allowed ones. */
  lemma VisitsAllowed(refFreq: nat, p: nat)
    ensures MinPrdiv(refFreq) <= p <= MaxPrdiv(refFreq) && p > 0 <==> Allowed(refFreq, p)
    ensures refFreq > 0 ==> MinPrdiv(refFreq) > 0
  {
  }

  /**
   A divider out of reach offers nothing closer than a divider within reach: the pair that beats all
   multipliers with the reference `near` also beats every multiplier with the reference `far`.
   */
  lemma OutOfReachIsFurther(near: nat, far: nat, desireFreq: nat, e: nat, v: nat)
    requires REF_MIN <= near <= REF_MAX && REF_MIN <= far <= REF_MAX
    requires 23 * near <= desireFreq < 56 * near && !(23 * far <= desireFreq < 56 * far)
    requires forall w: nat | IsVdiv(w) :: e <= Off(near, w, desireFreq)
    requires IsVdiv(v)
    ensures e <= Off(far, v, desireFreq)
  {
    MulLe(24, v, far);
    MulLe(v, 55, far);
    assert e <= Off(near, 24, desireFreq) && e <= Off(near, 55, desireFreq);
    if 24 * near <= desireFreq < 55 * near {
      HalfStep(near, desireFreq, e);
    }
  }

  /** Between two multipliers the nearer one is at most half the reference away. */
  lemma HalfStep(near: nat, desireFreq: nat, e: nat)
    requires 24 * near <= desireFreq < 55 * near && near > 0
    requires forall w: nat | IsVdiv(w) :: e <= Off(near, w, desireFreq)
    ensures 2 * e <= near
  {
    var q := Quot(desireFreq, near);
    QuotBounds(desireFreq, near);
    hide Quot;
    MulLe(q + 1, 24, near);
    MulLe(55, q, near);
    assert (q + 1) * near == q * near + near;
    assert e <= Off(near, q, desireFreq) && e <= Off(near, q + 1, desireFreq);
  }

  /** The reference frequencies the program accepts. */
  predicate Supported(refFreq: nat) {
    2_000_000 <= refFreq <= 100_000_000
  }

  lemma CalcAnswers(refFreq: uint32, desireFreq: uint32)
    requires Supported(refFreq) && desireFreq < 512_000_000
    ensures MinPrdiv(refFreq) > 0
    ensures Answers(refFreq, desireFreq, CalcPllDiv(refFreq, desireFreq), MinPrdiv(refFreq), MaxPrdiv(refFreq))
  {
    var low, high := MinPrdiv(refFreq), MaxPrdiv(refFreq);
    VisitsAllowed(refFreq, 1);
    forall o: nat | low <= o <= high
      ensures Allowed(refFreq, o)
    {
      VisitsAllowed(refFreq, o);
    }
    hide Search, Answers, InReach;
    SearchAnswers(refFreq, desireFreq, high, low, high, NONE_YET);
  }

  /** Nothing is found exactly when no allowed divider brings the frequency within reach. */
  lemma NothingExactly(refFreq: uint32, desireFreq: uint32)
    requires desireFreq < 512_000_000
    ensures CalcPllDiv(refFreq, desireFreq) == Nothing <==>
            !Supported(refFreq) || forall p: nat | Allowed(refFreq, p) :: !InReach(refFreq, desireFreq, p)
  {
    if Supported(refFreq) {
      CalcAnswers(refFreq, desireFreq);
      hide CalcPllDiv, InReach, Quot;
      var r := CalcPllDiv(refFreq, desireFreq);
      forall p: nat | Allowed(refFreq, p)
        ensures MinPrdiv(refFreq) <= p <= MaxPrdiv(refFreq)
      {
        VisitsAllowed(refFreq, p);
      }
      forall p: nat | MinPrdiv(refFreq) <= p <= MaxPrdiv(refFreq)
        ensures Allowed(refFreq, p)
      {
        VisitsAllowed(refFreq, p);
      }
    }
  }

  /**
   The pair found is allowed, gives the frequency returned, and is the closest of all allowed pairs,
   those of the dividers the program skips included.
   */
  lemma FoundIsClosest(refFreq: uint32, desireFreq: uint32, p: nat, v: nat)
    requires desireFreq < 512_000_000 && CalcPllDiv(refFreq, desireFreq).Found?
    requires Allowed(refFreq, p) && IsVdiv(v)
    ensures var r := CalcPllDiv(refFreq, desireFreq);
            && Allowed(refFreq, r.prdiv + 1) && IsVdiv(r.vdiv + 24)
            && r.freq == Quot(refFreq, r.prdiv + 1) * (r.vdiv + 24)
            && Distance(r.freq, desireFreq) <= Error(refFreq, desireFreq, p, v)
  {
    CalcAnswers(refFreq, desireFreq);
    VisitsAllowed(refFreq, p);
    var r := CalcPllDiv(refFreq, desireFreq);
    var best := r.prdiv + PRDIV_BASE;
    VisitsAllowed(refFreq, best);
    var e := Distance(r.freq, desireFreq);
    assert Beats(refFreq, desireFreq, e, best);
    if !InReach(refFreq, desireFreq, p) {
      RefInRange(refFreq, p);
      RefInRange(refFreq, best);
      OutOfReachIsFurther(Quot(refFreq, best), Quot(refFreq, p), desireFreq, e, v);
    }
  }

  lemma RefInRange(refFreq: nat, p: nat)
    requires Allowed(refFreq, p)
    ensures REF_MIN <= Quot(refFreq, p) <= REF_MAX
  {
    Bracket(refFreq, 0, p);
  }

  /**
   From 512 MHz on the quotient loses its upper bits: asked for 572 MHz from a 2 MHz reference, the
   program answers with dividers for 60 MHz although nothing is within reach.
   */
  lemma TruncatedQuotient()
    ensures CalcPllDiv(2_000_000, 572_000_000).Found? && !InReach(2_000_000, 572_000_000, 1)
  {
  }

  /** The eight-bit quotient is one for which the program tries a multiplier. */
  predicate Tried(refFreq: nat, desireFreq: nat, p: nat) {
    p > 0 && Quot(refFreq, p) > 0 && 23 <= Vdiv8(desireFreq, Quot(refFreq, p)) <= 55
  }

  /** At any frequency: something is found exactly when some allowed divider has such a quotient. */
  lemma FoundExactly(refFreq: uint32, desireFreq: uint32)
    ensures CalcPllDiv(refFreq, desireFreq).Found? <==>
            Supported(refFreq) && exists p: nat :: Allowed(refFreq, p) && Tried(refFreq, desireFreq, p)
  {
    hide Quot, Vdiv8;
    if Supported(refFreq) {
      var low, high := MinPrdiv(refFreq), MaxPrdiv(refFreq);
      forall p: nat
        ensures low <= p <= high && p > 0 <==> Allowed(refFreq, p)
      {
        VisitsAllowed(refFreq, p);
      }
      SearchFinds(refFreq, desireFreq, high, low, NONE_YET);
    }
  }

  lemma {:induction false} SearchFinds(refFreq: nat, desireFreq: uint32, p: nat, min: nat, best: Best)
    requires 0 < min && best.prdiv > 0 && best.vdiv >= VDIV_BASE && best.diff <= NO_DIFF
    requires forall o: nat | min <= o <= p :: Allowed(refFreq, o)
    ensures p >= min ==> refFreq >= REF_MIN * p
    ensures Search(refFreq, desireFreq, p, min, best).Found? <==>
            best.diff != NO_DIFF || exists o: nat :: min <= o <= p && Tried(refFreq, desireFreq, o)
    decreases p
  {
    if p >= min {
      assert Allowed(refFreq, p);
      VisitAny(refFreq, desireFreq, p, best);
      hide Quot, Tried, Visit, Allowed;
      match Visit(refFreq, desireFreq, p, best) {
        case Exact(prdiv, vdiv) =>
        case Continue(better) =>
          SearchFinds(refFreq, desireFreq, p - 1, min, better);
      }
    }
  }

  /** A divider is passed over, or leaves a pair found, whatever the quotient has lost. */
  lemma VisitAny(refFreq: nat, desireFreq: uint32, p: nat, best: Best)
    requires Allowed(refFreq, p) && best.diff <= NO_DIFF
    ensures Quot(refFreq, p) > 0
    ensures var t := Visit(refFreq, desireFreq, p, best);
            && (Tried(refFreq, desireFreq, p) ==> t.Continue? ==> t.best.diff < NO_DIFF)
            && (!Tried(refFreq, desireFreq, p) ==> t == Continue(best))
  {
    RefInRange(refFreq, p);
    var refDiv := Quot(refFreq, p);
    LostQuotient(desireFreq, refDiv);
    hide Quot, Try, Vdiv8;
    TryAny(refDiv, Vdiv8(desireFreq, refDiv), desireFreq, p, best);
  }

  lemma LostQuotient(desireFreq: nat, refDiv: nat)
    requires refDiv > 1
    ensures var v := Vdiv8(desireFreq, refDiv);
            v < 256 && v * refDiv <= desireFreq && (v == 23 ==> desireFreq != 24 * refDiv + 1)
  {
    hide Quot;
    var q := Quot(desireFreq, refDiv);
    QuotBounds(desireFreq, refDiv);
    MulLe(q % 256, q, refDiv);
    MulLe(q, 23, refDiv);
    MulLe(279, q, refDiv);
  }

  lemma TryAny(refDiv: nat, v: nat, desireFreq: uint32, p: nat, best: Best)
    requires REF_MIN <= refDiv <= REF_MAX && v < 256 && v * refDiv <= desireFreq
    requires v == 23 ==> desireFreq != 24 * refDiv + 1
    requires best.diff <= NO_DIFF
    ensures var t := Try(refDiv, v, desireFreq, p, best);
            if 23 <= v <= 55 then t.Continue? ==> t.best.diff < NO_DIFF else t == Continue(best)
  {
    if 23 <= v <= 55 {
      MulLe(v, 55, refDiv);
      MulLe(1, v, refDiv);
      assert v == 23 ==> v * refDiv + refDiv == 24 * refDiv;
      WrapNotMax(desireFreq - v * refDiv);
      WrapNotMax(v * refDiv + refDiv - desireFreq);
      hide Wrap;
    }
  }

  lemma WrapNotMax(x: int)
    requires -0x1_0000_0000 < x < 0xFFFF_FFFF
    ensures x != -1 ==> Wrap(x) < NO_DIFF
  {
  }

  // ---------------------------------------------------------------------------------------------
  // The registers
  // ---------------------------------------------------------------------------------------------

  /** What CLOCK_GetPll0Freq makes of the registers and the reference frequency, when the PLL is locked. */
  function Pll0Freq(c5: nat, c6: nat, refFreq: nat): uint32 {
    Wrap(Quot(refFreq, PRDIV_BASE + Bits.And(c5, 0x1F)) * (VDIV_BASE + Bits.And(c6, 0x1F)))
  }

  class PllRegisters {
    var c5: nat
    var c6: nat
    var locked: bool

    /** CLOCK_EnablePll0; the PLL locks when it is enabled. `enableMode` is a mask of control bits. */
    method EnablePll0(prdiv: nat, vdiv: nat, enableMode: nat)
      requires enableMode % 32 == 0
      modifies this
      ensures locked
      ensures Bits.And(c5, 0x1F) == prdiv % 32 && Bits.And(c6, 0x1F) == vdiv % 32
      ensures c6 == Bits.Set5(old(c6), Bits.And(vdiv, 0x1F))
      ensures c5 == Bits.Or(Bits.And(prdiv, 0x1F), Bits.Or(0x40, enableMode))
    {
      hide Bits.Set5, Bits.And, Bits.Or;
      c5 := Bits.And(prdiv, 0x1F);
      c6 := Bits.Set5(c6, Bits.And(vdiv, 0x1F));
      c5 := Bits.Or(c5, Bits.Or(0x40, enableMode));
      locked := true;
      Bits.FieldOf(old(c6), Bits.And(vdiv, 0x1F));
      Bits.Mask5(vdiv);
      ControlBits(prdiv, enableMode);
    }

    /** CLOCK_GetPll0Freq. */
    method GetPll0Freq(refFreq: uint32) returns (freq: uint32)
      ensures freq == if locked then Pll0Freq(c5, c6, refFreq) else 0
    {
      if !locked {
        return 0;
      }
      freq := refFreq;
      freq := Quot(freq, PRDIV_BASE + Bits.And(c5, 0x1F));
      freq := Wrap(freq * (VDIV_BASE + Bits.And(c6, 0x1F)));
    }
  }

  /** The control bits of C5 leave the divider alone. */
  lemma ControlBits(prdiv: nat, enableMode: nat)
    requires enableMode % 32 == 0
    ensures Bits.And(Bits.Or(Bits.And(prdiv, 0x1F), Bits.Or(0x40, enableMode)), 0x1F) == prdiv % 32
  {
    hide Bits.And, Bits.Or, Bits.Low;
    var control := Bits.Or(0x40, enableMode);
    Bits.Mask5(Bits.Or(Bits.And(prdiv, 0x1F), control));
    Bits.Mask5(prdiv);
    Bits.OrLow(Bits.And(prdiv, 0x1F), control, 5);
    Bits.Mask5(prdiv % 32);
    Bits.OrLow(0x40, enableMode, 5);
    Bits.Mask5(enableMode);
    Bits.Mask5(0x40);
    Bits.OrWithZero(0);
    Bits.OrWithZero(prdiv % 32);
  }

  /**
   The dividers found, once programmed, give exactly the frequency returned, as long as PRDIV fits its
   five bits; and they do not when it does not fit.
   */
  lemma ProgrammedFreq(refFreq: uint32, desireFreq: uint32, c5: nat, c6: nat)
    requires desireFreq < 512_000_000 && CalcPllDiv(refFreq, desireFreq).Found?
    requires var r := CalcPllDiv(refFreq, desireFreq);
             Bits.And(c5, 0x1F) == r.prdiv % 32 && Bits.And(c6, 0x1F) == r.vdiv % 32
    ensures var r := CalcPllDiv(refFreq, desireFreq);
            Pll0Freq(c5, c6, refFreq) == r.freq <==> r.prdiv < 32
  {
    var r := CalcPllDiv(refFreq, desireFreq);
    FoundAllowed(refFreq, desireFreq);
    var p, v := r.prdiv + PRDIV_BASE, r.vdiv + VDIV_BASE;
    AllowedBound(refFreq, p);
    hide CalcPllDiv, Bits.And, Quot, Wrap, Allowed;
    SmallMod(r.prdiv);
    SmallMod(r.vdiv);
    if r.prdiv < 32 {
      RightDivider(refFreq, p, v);
    } else {
      WrongDivider(refFreq, p, p - 32, v);
    }
  }

  lemma SmallMod(x: nat)
    requires x < 64
    ensures x % 32 == if x < 32 then x else x - 32
  {
  }

  lemma AllowedBound(refFreq: nat, p: nat)
    requires Supported(refFreq) && Allowed(refFreq, p)
    ensures p <= 50
  {
  }

  lemma RightDivider(refFreq: nat, p: nat, v: nat)
    requires Allowed(refFreq, p) && IsVdiv(v)
    ensures Wrap(Quot(refFreq, p) * v) == Quot(refFreq, p) * v
  {
    RefInRange(refFreq, p);
    hide Quot;
    MulLe(Quot(refFreq, p), REF_MAX, v);
  }

  lemma FoundAllowed(refFreq: uint32, desireFreq: uint32)
    requires desireFreq < 512_000_000 && CalcPllDiv(refFreq, desireFreq).Found?
    ensures var r := CalcPllDiv(refFreq, desireFreq);
            && Supported(refFreq) && Allowed(refFreq, r.prdiv + PRDIV_BASE) && r.vdiv <= 31
            && r.freq == Quot(refFreq, r.prdiv + PRDIV_BASE) * (r.vdiv + VDIV_BASE)
  {
    CalcAnswers(refFreq, desireFreq);
  }

  /** Up to 52 MHz the dividers fit the hardware's limits. */
  lemma DividersFit(refFreq: uint32, desireFreq: uint32)
    requires desireFreq < 512_000_000 && CalcPllDiv(refFreq, desireFreq).Found?
    ensures var r := CalcPllDiv(refFreq, desireFreq);
            && r.vdiv <= 31
            && 2_000_000 <= Quot(refFreq, r.prdiv + 1) <= 4_000_000
            && (refFreq < 52_000_000 ==> r.prdiv <= 24)
  {
    FoundAllowed(refFreq, desireFreq);
    RefInRange(refFreq, CalcPllDiv(refFreq, desireFreq).prdiv + PRDIV_BASE);
  }

  /** A divider that has lost 32 gives another frequency, also when the product wraps. */
  lemma WrongDivider(refFreq: nat, p: nat, wrong: nat, v: nat)
    requires Supported(refFreq) && Allowed(refFreq, p) && IsVdiv(v) && p == wrong + 32 && wrong > 0
    ensures Wrap(Quot(refFreq, wrong) * v) != Quot(refFreq, p) * v
  {
    RefInRange(refFreq, p);
    RightDivider(refFreq, p, v);
    QuotAtLeast(refFreq, wrong, REF_MAX + 1);
    QuotBounds(refFreq, wrong);
    MulLe(1, wrong, Quot(refFreq, wrong));
    hide Quot, Wrap;
    WrapsApart(Quot(refFreq, wrong), Quot(refFreq, p), v);
  }

  lemma WrapsApart(a: nat, b: nat, v: nat)
    requires b < a <= 100_000_000 && IsVdiv(v)
    ensures Wrap(a * v) != b * v
  {
    hide Wrap, IsVdiv;
    NotTwo32(a - b, v);
    assert a * v - b * v == (a - b) * v;
    ProductBounds(a, b, v);
    Apart(a * v, b * v);
  }

  lemma ProductBounds(a: nat, b: nat, v: nat)
    requires b < a <= 100_000_000 && IsVdiv(v)
    ensures b * v < a * v < 0x2_0000_0000
  {
    MulLe(b + 1, a, v);
    MulLe(a, 100_000_000, v);
  }

  lemma Apart(x: nat, y: nat)
    requires y < x < 0x2_0000_0000 && x - y != 0x1_0000_0000
    ensures Wrap(x) != y
  {
    WrapCases(x);
  }

  lemma NotTwo32(d: nat, v: nat)
    requires d <= 100_000_000 && IsVdiv(v)
    ensures d * v != 0x1_0000_0000
  {
    Bits.Pow2Of32();
    hide Bits.Pow2;
    if d * v == Bits.Pow2(32) {
      var j := PowerDivisor(d, v, 32);
      PowerBetween(j);
    }
  }

  lemma WrapCases(x: nat)
    requires x < 0x2_0000_0000
    ensures Wrap(x) == x || Wrap(x) == x - 0x1_0000_0000
  {
  }

  /** A divisor of a power of two is a power of two. */
  lemma {:induction false} PowerDivisor(d: nat, v: nat, k: nat) returns (j: nat)
    requires d * v == Bits.Pow2(k)
    ensures v == Bits.Pow2(j)
    decreases k
  {
    if k == 0 {
      j := 0;
      assert v == 1 by { MulLe(2, v, d); MulLe(1, d, v); }
    } else if v % 2 == 0 {
      assert d * (v / 2) == Bits.Pow2(k - 1);
      j := PowerDivisor(d, v / 2, k - 1);
      j := j + 1;
    } else {
      EvenFactor(d, v);
      assert d / 2 * v == Bits.Pow2(k - 1);
      j := PowerDivisor(d / 2, v, k - 1);
    }
  }

  lemma EvenFactor(d: nat, v: nat)
    requires v % 2 == 1 && (d * v) % 2 == 0
    ensures d % 2 == 0
  {
    var h, w := d / 2, v / 2;
    assert d * v == 2 * (h * v) + d % 2 * v;
    assert d % 2 * v == if d % 2 == 1 then 2 * w + 1 else 0;
  }

  lemma PowerBetween(j: nat)
    ensures IsVdiv(Bits.Pow2(j)) ==> Bits.Pow2(j) == 32
  {
    assert Bits.Pow2(4) == 16 && Bits.Pow2(5) == 32 && Bits.Pow2(6) == 64;
    if j <= 4 { PowerMonotone(j, 4); } else if j >= 6 { PowerMonotone(6, j); }
  }

  lemma {:induction false} PowerMonotone(a: nat, b: nat)
    requires a <= b
    ensures Bits.Pow2(a) <= Bits.Pow2(b)
    decreases b
  {
    if a < b { PowerMonotone(a, b - 1); }
  }

  /** PRDIV exceeds its five bits only with references from 66 MHz on. */
  lemma WideDivider(refFreq: uint32, desireFreq: uint32)
    requires desireFreq < 512_000_000 && CalcPllDiv(refFreq, desireFreq).Found?
    ensures CalcPllDiv(refFreq, desireFreq).prdiv >= 32 ==> refFreq >= 66_000_000
  {
    FoundAllowed(refFreq, desireFreq);
    hide CalcPllDiv, Quot;
  }

  /** With 66 MHz it does: 48 MHz is found with a PRDIV of 32, and what is programmed is another frequency. */
  lemma WrongFrequency(c5: nat, c6: nat)
    requires Bits.And(c5, 0x1F) == 32 % 32 && Bits.And(c6, 0x1F) == 0 % 32
    ensures CalcPllDiv(66_000_000, 48_000_000) == Found(32, 0, 48_000_000)
    ensures Pll0Freq(c5, c6, 66_000_000) != 48_000_000
  {
    PrdivTooWide();
    hide Pll0Freq, CalcPllDiv, Bits.And;
    ProgrammedFreq(66_000_000, 48_000_000, c5, c6);
  }

  lemma PrdivTooWide()
    ensures CalcPllDiv(66_000_000, 48_000_000) == Found(32, 0, 48_000_000)
  {
    ExactAtOnce();
    hide Visit, MaxPrdiv, MinPrdiv;
  }

  lemma ExactAtOnce()
    ensures MaxPrdiv(66_000_000) == 33 && MinPrdiv(66_000_000) == 17 && Quot(66_000_000, 33) == 2_000_000
    ensures Visit(66_000_000, 48_000_000, 33, NONE_YET) == Exact(33, 24)
  {
  }
}
