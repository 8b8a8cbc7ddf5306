/**
 The baud arithmetic of UART_Init in fsl_uart.c: a 16-bit divider SBR, a fractional divider BRFA in
 1/32 steps, the 3% limit, and the registers they are written to.
 */
module UartBaud {
  import opened Machine
  import Bits

  /** The computed dividers and the baud rate error, as the local variables of UART_Init hold them. */
  datatype Divider = Divider(sbr: uint16, brfa: uint16, diff: nat)

  datatype Status = Success | BaudrateNotSupport

  /** The integer part, with its fallback to 1. */
  function Sbr(src: uint32, baud: uint32): (sbr: uint16)
    requires Wrap(baud * 16) > 0
    ensures sbr >= 1
  {
    var sbr := Quot(src, Wrap(baud * 16)) % 0x1_0000;
    if sbr == 0 then 1 else sbr
  }

  function Divide(src: uint32, baud: uint32): Divider
    requires baud > 0 && Wrap(baud * 16) > 0
  {
    var sbr := Sbr(src, baud);
    var brfa := (Quot(Wrap(2 * src), baud) - 32 * sbr) % 0x1_0000;
    Divider(sbr, brfa, Distance(Quot(Wrap(src * 2), sbr * 32 + brfa), baud))
  }

  predicate Accepted(src: uint32, baud: uint32)
    requires baud > 0 && Wrap(baud * 16) > 0
  {
    !(Divide(src, baud).diff > baud / 100 * 3)
  }

  /** Neither 2 * src nor 16 * baud overflows 32 bits. */
  predicate InRange(src: uint32, baud: uint32) {
    0 < baud && 16 * baud < 0x1_0000_0000 && 2 * src < 0x1_0000_0000
  }

  // ---------------------------------------------------------------------------------------------
  // What is computed
  // ---------------------------------------------------------------------------------------------

  /** The ideal divider in 1/32 steps, rounded down. */
  function Steps(src: nat, baud: nat): nat
    requires baud > 0
  {
    Quot(2 * src, baud)
  }

  /** The integer part of the divider is the whole divider without its five fractional bits. */
  lemma IntegerPart(src: nat, baud: nat)
    requires baud > 0
    ensures Quot(src, 16 * baud) == Steps(src, baud) / 32
  {
    hide Quot;
    var q := Steps(src, baud);
    var s := q / 32;
    QuotBounds(2 * src, baud);
    MulLe(32 * s, q, baud);
    MulLe(q + 1, 32 * s + 32, baud);
    var d := 16 * baud;
    assert 32 * s * baud == 2 * (s * d);
    assert (32 * s + 32) * baud == 2 * (s * d) + 2 * d;
    QuotUnique(src, d, s);
  }

  /** The divider UART_Init computes, as a function of the ideal one. */
  lemma Computed(src: uint32, baud: uint32)
    requires InRange(src, baud)
    ensures var q, d := Steps(src, baud), Divide(src, baud);
            && Split(q, d.sbr, d.brfa)
            && d.diff == Distance(Quot(2 * src, 32 * d.sbr + d.brfa), baud)
  {
    hide Quot;
    IntegerPart(src, baud);
  }

  /** SBR and BRFA as UART_Init computes them from the ideal divider `q`. */
  ghost predicate Split(q: nat, sbr: nat, brfa: nat) {
    && sbr == (if q / 32 % 0x1_0000 == 0 then 1 else q / 32 % 0x1_0000)
    && brfa == (q - 32 * sbr) % 0x1_0000
  }

  lemma SplitExact(q: nat, sbr: nat, brfa: nat)
    requires 32 <= q < 32 * 0x1_0000 && Split(q, sbr, brfa)
    ensures 32 * sbr + brfa == q && sbr == q / 32 && brfa == q % 32
  {
    assert q / 32 % 0x1_0000 == q / 32;
    assert q - 32 * (q / 32) == q % 32;
  }

  /** With the fallback the divider is 2^16 too large. */
  lemma SplitFallback(q: nat, sbr: nat, brfa: nat)
    requires q < 32 && Split(q, sbr, brfa)
    ensures 32 * sbr + brfa == 0x1_0000 + q
  {
  }

  /** With a truncated SBR the divider is at most half of what it should be. */
  lemma SplitTruncated(q: nat, sbr: nat, brfa: nat)
    requires q >= 32 * 0x1_0000 && Split(q, sbr, brfa)
    ensures 0 < 32 * sbr + brfa && q >= 2 * (32 * sbr + brfa)
  {
    var s, r := q / 32, q % 32;
    var k, low := s / 0x1_0000, s % 0x1_0000;
    assert q == 0x20_0000 * k + 32 * low + r;
    if low == 0 {
      assert q - 32 == 0x1_0000 * (32 * k - 1) + (0x1_0000 + r - 32);
      ModUnique(q - 32, 32 * k - 1, 0x1_0000 + r - 32);
    } else {
      assert q - 32 * low == 0x1_0000 * (32 * k) + r;
      ModUnique(q - 32 * low, 32 * k, r);
    }
  }

  lemma ModUnique(n: int, k: int, r: int)
    requires n == 0x1_0000 * k + r && 0 <= r < 0x1_0000
    ensures n % 0x1_0000 == r
  {
  }

  /** Too slow a clock: the fallback to SBR = 1 is always rejected. */
  lemma FallbackRejected(src: uint32, baud: uint32)
    requires InRange(src, baud) && Steps(src, baud) < 32
    ensures !Accepted(src, baud)
  {
    RangePositive(src, baud);
    Computed(src, baud);
    hide Divide, Quot, Wrap, Distance, Split, Steps, InRange, Accepted;
    var q, d := Steps(src, baud), Divide(src, baud);
    SplitFallback(q, d.sbr, d.brfa);
    StepsBelow(src, baud);
    QuotSmall(2 * src, 0x1_0000 + q, baud);
    FarOff(Quot(2 * src, 0x1_0000 + q), baud);
    RejectedWhenFar(src, baud);
  }

  lemma StepsBelow(src: nat, baud: nat)
    requires baud > 0 && Steps(src, baud) < 32
    ensures 2 * src < 32 * baud
  {
    hide Quot;
    QuotBounds(2 * src, baud);
    MulLe(Quot(2 * src, baud) + 1, 32, baud);
  }

  lemma StepsTimes(src: nat, baud: nat)
    requires baud > 0
    ensures Steps(src, baud) * baud <= 2 * src
  {
    hide Quot;
    QuotBounds(2 * src, baud);
  }

  lemma QuotSmall(n: nat, d: nat, baud: nat)
    requires d >= 0x1_0000 && n < 32 * baud
    ensures 2048 * Quot(n, d) < baud
  {
    hide Quot;
    QuotBounds(n, d);
    MulLe(0x1_0000, d, Quot(n, d));
  }

  lemma RejectedWhenFar(src: uint32, baud: uint32)
    requires baud > 0 && Wrap(baud * 16) > 0 && Divide(src, baud).diff > baud / 100 * 3
    ensures !Accepted(src, baud)
  {
  }

  lemma RangePositive(src: uint32, baud: uint32)
    requires InRange(src, baud)
    ensures baud > 0 && Wrap(baud * 16) > 0
  {
  }

  /** A baud rate that is twice too high, or next to nothing, is not within 3%. */
  lemma FarOff(t: nat, baud: nat)
    requires 2048 * t < baud || t >= 2 * baud > 0
    ensures Distance(t, baud) > baud / 100 * 3
  {
  }

  /** Too fast a clock: an SBR that does not fit 16 bits is always rejected. */
  lemma TruncationRejected(src: uint32, baud: uint32)
    requires InRange(src, baud) && Steps(src, baud) >= 32 * 0x1_0000
    ensures !Accepted(src, baud)
  {
    RangePositive(src, baud);
    Computed(src, baud);
    hide Divide, Quot, Wrap, Distance, Split, Steps, InRange, Accepted;
    var q, d := Steps(src, baud), Divide(src, baud);
    var divider := 32 * d.sbr + d.brfa;
    SplitTruncated(q, d.sbr, d.brfa);
    StepsTimes(src, baud);
    QuotDoubles(2 * src, divider, q, baud);
    FarOff(Quot(2 * src, divider), baud);
    RejectedWhenFar(src, baud);
  }

  lemma QuotDoubles(n: nat, d: nat, q: nat, baud: nat)
    requires d > 0 && q >= 2 * d && q * baud <= n
    ensures Quot(n, d) >= 2 * baud
  {
    hide Quot;
    MulLe(2 * d, q, baud);
    assert 2 * d * baud == 2 * baud * d;
    QuotAtLeast(n, d, 2 * baud);
  }

  /** The divider rounds down, so the baud rate it gives is not below the one asked for. */
  lemma NotSlower(src: nat, baud: nat)
    requires baud > 0 && Steps(src, baud) > 0
    ensures Quot(2 * src, Steps(src, baud)) >= baud
  {
    hide Quot;
    QuotBounds(2 * src, baud);
    QuotAtLeast(2 * src, Steps(src, baud), baud);
  }

  /** The dividers that are neither a fallback nor truncated. */
  lemma SplitRegular(src: uint32, baud: uint32)
    requires InRange(src, baud) && 32 <= Steps(src, baud) < 32 * 0x1_0000
    ensures var q, d := Steps(src, baud), Divide(src, baud);
            && d.sbr == q / 32 && d.brfa == q % 32
            && d.diff == Quot(2 * src, q) - baud
  {
    Computed(src, baud);
    RangePositive(src, baud);
    hide Divide, Quot, Wrap, Split, Steps, Distance, InRange;
    var q, d := Steps(src, baud), Divide(src, baud);
    SplitExact(q, d.sbr, d.brfa);
    NotSlower(src, baud);
    DistanceAbove(Quot(2 * src, q), baud);
  }

  /** Exactly which baud rates UART_Init accepts, in terms of the ideal divider. */
  lemma AcceptedExactly(src: uint32, baud: uint32)
    requires InRange(src, baud)
    ensures var q := Steps(src, baud);
            Accepted(src, baud) <==>
            32 <= q < 32 * 0x1_0000 && Quot(2 * src, q) - baud <= baud / 100 * 3
  {
    hide Quot;
    var q := Steps(src, baud);
    if q < 32 {
      FallbackRejected(src, baud);
    } else if q >= 32 * 0x1_0000 {
      TruncationRejected(src, baud);
    } else {
      SplitRegular(src, baud);
    }
  }

  /** An accepted baud rate is met by an exact divider, and within 3%. */
  lemma AcceptedMeans(src: uint32, baud: uint32)
    requires InRange(src, baud) && Accepted(src, baud)
    ensures var d := Divide(src, baud);
            && 32 * d.sbr + d.brfa == 2 * src / baud
            && 1 <= d.sbr && d.brfa <= 31
            && 0 <= 100 * (2 * src / (32 * d.sbr + d.brfa) - baud) <= 3 * baud
  {
    AcceptedExactly(src, baud);
    SplitRegular(src, baud);
    NotSlower(src, baud);
    hide Divide, Accepted;
    assert Steps(src, baud) == 2 * src / baud;
  }

  /** Ordinary settings are always accepted. */
  lemma OrdinaryAccepted(src: uint32, baud: uint32)
    requires InRange(src, baud) && baud >= 100 && src >= 25 * baud && Quot(src, 16 * baud) < 0x1_0000
    ensures Accepted(src, baud)
  {
    hide Quot;
    var q := Steps(src, baud);
    IntegerPart(src, baud);
    QuotAtLeast(2 * src, baud, 50);
    QuotBounds(2 * src, baud);
    QuotBounds(2 * src, q);
    NotSlower(src, baud);
    CloseAbove(2 * src, q, baud);
    AcceptedExactly(src, baud);
  }

  /** With a divider of at least 50 steps the rounding error is at most a fiftieth. */
  lemma CloseAbove(n: nat, q: nat, baud: nat)
    requires q >= 50 && n < q * baud + baud && Quot(n, q) >= baud
    ensures 50 * (Quot(n, q) - baud) < baud
  {
    hide Quot;
    var e := Quot(n, q) - baud;
    QuotBounds(n, q);
    assert Quot(n, q) * q == baud * q + e * q;
    MulLe(50, q, e);
  }

  // ---------------------------------------------------------------------------------------------
  // The registers
  // ---------------------------------------------------------------------------------------------

  /** The divider the baud rate generator uses, in 1/32 steps: 13 bits of SBR and five of BRFA. */
  function Programmed(bdh: nat, bdl: nat, c4: nat): nat {
    32 * (256 * Bits.And(bdh, 0x1F) + bdl) + Bits.And(c4, 0x1F)
  }

  class Registers {
    var bdh: nat
    var bdl: nat
    var c4: nat

    /** The part of UART_Init up to the fractional divider. */
    method Init(srcClockHz: uint32, baudRateBps: uint32) returns (status: Status)
      requires baudRateBps > 0 && Wrap(baudRateBps * 16) > 0
      modifies this
      ensures status == if Accepted(srcClockHz, baudRateBps) then Success else BaudrateNotSupport
      ensures status == BaudrateNotSupport ==> bdh == old(bdh) && bdl == old(bdl) && c4 == old(c4)
      ensures status == Success ==>
                var d := Divide(srcClockHz, baudRateBps);
                && bdh == Bits.Set5(old(bdh), d.sbr / 256) && bdl == d.sbr % 256
                && c4 == Bits.Set5(old(c4), Bits.And(d.brfa, 0x1F))
    {
      hide Bits.Set5, Quot;
      var sbr := Quot(srcClockHz, Wrap(baudRateBps * 16)) % 0x1_0000;
      if sbr == 0 {
        sbr := 1;
      }
      var brfa := (Quot(Wrap(2 * srcClockHz), baudRateBps) - 32 * sbr) % 0x1_0000;
      var tempBaud := Quot(Wrap(srcClockHz * 2), sbr * 32 + brfa);
      var baudDiff := if tempBaud > baudRateBps then tempBaud - baudRateBps else baudRateBps - tempBaud;
      if baudDiff > baudRateBps / 100 * 3 {
        return BaudrateNotSupport;
      }
      bdh := Bits.Set5(bdh, sbr / 256);
      bdl := sbr % 256;
      c4 := Bits.Set5(c4, Bits.And(brfa, 0x1F));
      status := Success;
    }
  }

  lemma SplitBytes(sbr: uint16)
    ensures 256 * (sbr / 256 % 32) + sbr % 256 == sbr % 0x2000
  {
  }

  /** The fields of the registers, as the masks of UART_Init leave them. */
  lemma FieldsHeld(sbr: uint16, brfa: uint16, bdh: nat, c4: nat)
    requires brfa <= 31
    ensures Bits.And(Bits.Set5(bdh, sbr / 256), 0x1F) == sbr / 256 % 32
    ensures Bits.And(Bits.Set5(c4, Bits.And(brfa, 0x1F)), 0x1F) == brfa
  {
    hide Bits.Set5, Bits.And, Bits.Low;
    Bits.FieldOf(bdh, sbr / 256);
    Bits.FieldOf(c4, Bits.And(brfa, 0x1F));
    Bits.Mask5(brfa);
  }

  lemma RegistersHold(sbr: uint16, brfa: uint16, bdh: nat, c4: nat)
    requires brfa <= 31
    ensures Programmed(Bits.Set5(bdh, sbr / 256), sbr % 256, Bits.Set5(c4, Bits.And(brfa, 0x1F))) == 32 * sbr + brfa
            <==> sbr < 0x2000
  {
    FieldsHeld(sbr, brfa, bdh, c4);
    hide Bits.Set5, Bits.And;
    var high, low := Bits.Set5(bdh, sbr / 256), Bits.Set5(c4, Bits.And(brfa, 0x1F));
    assert Programmed(high, sbr % 256, low) == 32 * (256 * (sbr / 256 % 32) + sbr % 256) + brfa;
    SplitBytes(sbr);
    hide Programmed;
    Truncated(sbr);
  }

  lemma Truncated(sbr: uint16)
    ensures sbr % 0x2000 == sbr <==> sbr < 0x2000
  {
  }

  /** SBR fits 13 bits exactly when the clock is slower than 2^13 times the sixteenfold rate. */
  lemma SbrFits(src: uint32, baud: uint32)
    requires InRange(src, baud) && Accepted(src, baud)
    ensures Divide(src, baud).sbr < 0x2000 <==> src < 0x2000 * (16 * baud)
  {
    ExactDivider(src, baud);
    RangePositive(src, baud);
    IntegerPart(src, baud);
    hide Divide, Accepted, Quot, Steps, InRange, Wrap;
    QuotBelow(src, 16 * baud, 0x2000);
  }

  /** The dividers of an accepted rate are the ideal one. */
  lemma ExactDivider(src: uint32, baud: uint32)
    requires InRange(src, baud) && Accepted(src, baud)
    ensures var q, d := Steps(src, baud), Divide(src, baud);
            d.sbr == q / 32 && d.brfa == q % 32 && 32 * d.sbr + d.brfa == q
  {
    hide Divide, Accepted, Quot, Steps;
    AcceptedExactly(src, baud);
    SplitRegular(src, baud);
  }

  lemma StepsAre(src: uint32, baud: uint32)
    requires baud > 0
    ensures Steps(src, baud) == 2 * src / baud
  {
  }

  /**
   The registers hold the divider exactly when the clock is slower than 2^13 times the sixteenfold rate, so
   that SBR fits the 13 bits they have for it. UART_Init checks only that it fits 16: with faster clocks it
   accepts the rate, and SBR loses its upper bits.
   */
  lemma RegistersExact(src: uint32, baud: uint32, bdh: nat, c4: nat)
    requires InRange(src, baud) && Accepted(src, baud)
    ensures var d := Divide(src, baud);
            Programmed(Bits.Set5(bdh, d.sbr / 256), d.sbr % 256, Bits.Set5(c4, Bits.And(d.brfa, 0x1F))) == 2 * src / baud
            <==> src < 0x2000 * (16 * baud)
  {
    ExactDivider(src, baud);
    SbrFits(src, baud);
    RangePositive(src, baud);
    StepsAre(src, baud);
    hide Divide, Programmed, Bits.Set5, Bits.And, Accepted, InRange, Steps, Wrap;
    var d := Divide(src, baud);
    RegistersHold(d.sbr, d.brfa, bdh, c4);
  }

  /** 300 baud from a clock of 60 MHz is accepted with an SBR of 12500, which the registers do not hold. */
  lemma AcceptedButNotHeld(bdh: nat, c4: nat)
    ensures InRange(60_000_000, 300) && Accepted(60_000_000, 300)
    ensures var d := Divide(60_000_000, 300);
            && d.sbr == 12500
            && Programmed(Bits.Set5(bdh, d.sbr / 256), d.sbr % 256, Bits.Set5(c4, Bits.And(d.brfa, 0x1F))) != 2 * 60_000_000 / 300
  {
    Rate300();
    RegistersExact(60_000_000, 300, bdh, c4);
    hide Programmed, Bits.Set5, Bits.And, Divide, Accepted;
  }

  lemma Rate300()
    ensures InRange(60_000_000, 300) && Accepted(60_000_000, 300) && Divide(60_000_000, 300).sbr == 12500
  {
    hide Quot;
    QuotUnique(60_000_000, 4800, 12500);
    QuotUnique(120_000_000, 300, 400_000);
    QuotUnique(120_000_000, 400_000, 300);
  }
}
