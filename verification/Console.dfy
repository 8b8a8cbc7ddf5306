/**
 The integer conversions of fsl_debug_console.c: printing, with the digits built in reverse in a buffer of
 33 characters, and scanning, with detection of the base. The advanced options are off, as in the header of
 the console; characters past the end of a line read as the terminating NUL.
 */
module Console {
  import opened Machine
  import opened Bits

  const NUL: char := '\0'
  const VSTR_SIZE: nat := 33

  // ---------------------------------------------------------------------------------------------
  // Numerals
  // ---------------------------------------------------------------------------------------------

  function Digit(d: nat, caps: bool): char
    requires d < 16
  {
    if caps then "0123456789ABCDEF"[d] else "0123456789abcdef"[d]
  }

  /** The value of a character as a digit, or 16. */
  function DigitValue(c: char): (v: nat)
    ensures v <= 16
  {
    if '0' <= c <= '9' then c as int - '0' as int
    else if 'a' <= c <= 'f' then c as int - 'a' as int + 10
    else if 'A' <= c <= 'F' then c as int - 'A' as int + 10
    else 16
  }

  /** The numeral of n, the most significant digit first. */
  function Numeral(n: nat, radix: nat, caps: bool): (s: string)
    requires 2 <= radix <= 16
    ensures |s| > 0
  {
    if n < radix then [Digit(n, caps)]
    else
      Shrinks(n, radix);
      Numeral(n / radix, radix, caps) + [Digit(n % radix, caps)]
  }

  lemma Shrinks(n: nat, radix: nat)
    requires n >= radix >= 2
    ensures 0 < n / radix < n
  {
    QuotBounds(n, radix);
    MulLe(2, radix, n / radix);
    QuotAtLeast(n, radix, 1);
  }

  predicate AreDigits(s: string, radix: nat) {
    forall i :: 0 <= i < |s| ==> DigitValue(s[i]) < radix
  }

  /** The value of a numeral. */
  function Value(s: string, radix: nat): nat {
    if s == [] then 0 else Value(s[..|s| - 1], radix) * radix + DigitValue(s[|s| - 1])
  }

  lemma DigitIs(d: nat, caps: bool)
    requires d < 16
    ensures DigitValue(Digit(d, caps)) == d && Digit(d, caps) != NUL
    ensures Digit(d, caps) !in " \t\n\r+-xX" && Digit(d, caps) as int !in {0xB, 0xC}
    ensures d != 0 ==> Digit(d, caps) != '0'
  {
  }

  /** A numeral is made of digits, stands for its number and has no leading zero. */
  lemma {:induction false} NumeralIs(n: nat, radix: nat, caps: bool)
    requires 2 <= radix <= 16
    ensures var s := Numeral(n, radix, caps);
            && AreDigits(s, radix) && Value(s, radix) == n
            && (forall i :: 0 <= i < |s| ==> s[i] != NUL)
            && (s[0] == '0' <==> n == 0) && (n == 0 ==> |s| == 1)
    decreases n
  {
    if n < radix {
      DigitIs(n, caps);
      OneDigit(Digit(n, caps), radix);
    } else {
      Shrinks(n, radix);
      NumeralStep(n, radix, caps);
      NumeralIs(n / radix, radix, caps);
      DigitIs(n % radix, caps);
      hide Numeral, Digit, DigitValue, Value, AreDigits;
      LongerNumeral(Numeral(n / radix, radix, caps), Digit(n % radix, caps), radix);
      QuotRest(n, radix);
    }
  }

  lemma QuotRest(n: nat, radix: nat)
    requires radix > 0
    ensures n == n / radix * radix + n % radix && n % radix < radix
  {
  }

  lemma LongerNumeral(s: string, d: char, radix: nat)
    requires AreDigits(s, radix) && DigitValue(d) < radix
    ensures AreDigits(s + [d], radix) && Value(s + [d], radix) == Value(s, radix) * radix + DigitValue(d)
  {
    hide DigitValue;
    assert (s + [d])[..|s|] == s;
  }

  lemma OneDigit(c: char, radix: nat)
    ensures Value([c], radix) == DigitValue(c)
  {
    assert [c][..0] == [];
  }

  lemma NumeralStep(n: nat, radix: nat, caps: bool)
    requires 2 <= radix <= 16 && n >= radix
    ensures n % radix < 16 && Numeral(n, radix, caps) == Numeral(n / radix, radix, caps) + [Digit(n % radix, caps)]
  {
  }

  /** A numeral of a number of k bits has at most k digits. */
  lemma {:induction false} NumeralLength(n: nat, radix: nat, caps: bool, k: nat)
    requires 2 <= radix <= 16 && n < Pow2(k) && k > 0
    ensures |Numeral(n, radix, caps)| <= k
    decreases k
  {
    if n >= radix {
      Shrinks(n, radix);
      HalfBound(n, radix, k);
      NumeralLength(n / radix, radix, caps, k - 1);
    }
  }

  lemma HalfBound(n: nat, radix: nat, k: nat)
    requires n >= radix >= 2 && n < Pow2(k) && k > 0
    ensures n / radix < Pow2(k - 1) && k > 1
  {
    QuotBounds(n, radix);
    MulLe(2, radix, n / radix);
  }

  lemma Numeral32(n: nat, radix: nat, caps: bool)
    requires 2 <= radix <= 16 && n < 0x1_0000_0000
    ensures |Numeral(n, radix, caps)| <= 32
  {
    Pow2Of32();
    NumeralLength(n, radix, caps, 32);
  }

  // ---------------------------------------------------------------------------------------------
  // Printing
  // ---------------------------------------------------------------------------------------------

  /** Characters from the buffer, read from the index down to 1. */
  function Backwards(s: seq<char>, n: nat): string
    requires n < |s|
  {
    if n == 0 then [] else [s[n]] + Backwards(s, n - 1)
  }

  lemma {:induction false} BackwardsSame(s: seq<char>, t: seq<char>, n: nat)
    requires n < |s| && n < |t| && forall i :: 1 <= i <= n ==> s[i] == t[i]
    ensures Backwards(s, n) == Backwards(t, n)
  {
    if n > 0 { BackwardsSame(s, t, n - 1); }
  }

  /** The part of a numeral that is still to be converted: nothing when the rest is 0. */
  function Remaining(n: nat, radix: nat, caps: bool): string
    requires 2 <= radix <= 16
  {
    if n == 0 then "" else Numeral(n, radix, caps)
  }

  lemma RemainingStep(n: nat, radix: nat, caps: bool, rest: string)
    requires 2 <= radix <= 16 && n > 0
    ensures n % radix < 16
    ensures Remaining(n, radix, caps) + rest == Remaining(Quot(n, radix), radix, caps) + ([Digit(n % radix, caps)] + rest)
    ensures |Remaining(n, radix, caps)| == |Remaining(Quot(n, radix), radix, caps)| + 1
  {
    hide Digit;
    if n < radix {
      ModIs(n, radix, 0, n);
      assert Remaining(n, radix, caps) == [Digit(n, caps)];
    } else {
      Shrinks(n, radix);
      NumeralStep(n, radix, caps);
      hide Numeral;
    }
  }

  lemma RemainingEnds(n: nat, radix: nat, caps: bool)
    requires 2 <= radix <= 16
    ensures Remaining(n, radix, caps) == if n == 0 then "" else Numeral(n, radix, caps)
    ensures n > 0 ==> |Remaining(n, radix, caps)| > 0
  {
  }

  /** The step of the unsigned loop, with the digit as the program computes it. */
  lemma UnsignedStep(n: nat, radix: nat, caps: bool, rest: string, d: int)
    requires 2 <= radix <= 16 && n > 0 && d == n - Quot(n, radix) * radix
    ensures 0 <= d < 16 && Quot(n, radix) < n
    ensures Remaining(n, radix, caps) + rest == Remaining(Quot(n, radix), radix, caps) + ([Digit(d, caps)] + rest)
    ensures |Remaining(n, radix, caps)| == |Remaining(Quot(n, radix), radix, caps)| + 1
  {
    Smaller(n, radix);
    QuotRest(n, radix);
    RemainingStep(n, radix, caps, rest);
  }

  /** The quotient of C, which rounds towards zero. */
  function Quotient(a: int, b: nat): int
    requires b > 0
  {
    if a >= 0 then a / b else -((-a) / b)
  }

  function Abs(a: int): nat { if a < 0 then -a else a }

  lemma QuotientAbs(a: int, b: nat)
    requires b >= 2
    ensures Abs(Quotient(a, b)) == Abs(a) / b
    ensures a - Quotient(a, b) * b == (if a < 0 then -(Abs(a) % b) else Abs(a) % b)
    ensures a != 0 ==> Abs(a) / b < Abs(a)
  {
    var n := Abs(a);
    Parts(n, b);
    if n > 0 { Smaller(n, b); }
    if a < 0 { NegatedProduct(n / b, b); }
  }

  lemma Parts(n: nat, b: nat)
    requires b > 0
    ensures n == n / b * b + n % b && n / b >= 0
  {
  }

  lemma NegatedProduct(q: int, b: int)
    ensures (-q) * b == -(q * b)
  {
  }

  class Printer {
    /** What has been put out. */
    var output: string

    constructor ()
      ensures output == ""
    {
      output := "";
    }

    method PutChar(c: char)
      modifies this
      ensures output == old(output) + [c]
    {
      output := output + [c];
    }

    /** DbgConsole_PrintfPaddingCharacter. */
    method Pad(c: char, curlen: int, width: int) returns (count: nat)
      modifies this
      ensures count == (if curlen < width then width - curlen else 0)
      ensures output == old(output) + seq(count, i => c)
    {
      count := 0;
      var i := curlen;
      while i < width
        invariant i == curlen + count && (i <= width || count == 0)
        invariant output == old(output) + seq(count, i => c)
      {
        PutChar(c);
        count := count + 1;
        i := i + 1;
      }
    }

    /** The unsigned half of DbgConsole_ConvertRadixNumToString. */
    method ConvertUnsigned(vstr: array<char>, n: uint32, radix: nat, caps: bool) returns (nlen: nat)
      requires vstr.Length == VSTR_SIZE && 2 <= radix <= 16
      modifies vstr
      ensures 0 < nlen < VSTR_SIZE && vstr[0] == NUL && Backwards(vstr[..], nlen) == Numeral(n, radix, caps)
    {
      hide Numeral, Digit, Backwards, Quot, Remaining;
      nlen := 0;
      vstr[0] := NUL;
      Numeral32(n, radix, caps);
      if n == 0 {
        vstr[1] := '0';
        ZeroNumeral(vstr[..], radix, caps);
        return 1;
      }
      var ua: nat := n;
      NothingBackwards(vstr[..]);
      RemainingEnds(n, radix, caps);
      while ua != 0
        invariant vstr[0] == NUL && nlen < VSTR_SIZE
        invariant Remaining(ua, radix, caps) + Backwards(vstr[..], nlen) == Numeral(n, radix, caps)
        invariant nlen + (if ua == 0 then 0 else 1) <= |Numeral(n, radix, caps)| == |Remaining(ua, radix, caps)| + nlen
        decreases ua
      {
        var ub := Quot(ua, radix);
        var uc := ua - ub * radix;
        UnsignedStep(ua, radix, caps, Backwards(vstr[..], nlen), uc);
        DigitCode(uc, caps);
        var ch := if uc < 10 then (uc + '0' as int) as char else (uc - 10 + (if caps then 'A' as int else 'a' as int)) as char;
        ghost var before := vstr[..];
        ua := ub;
        vstr[nlen + 1] := ch;
        nlen := nlen + 1;
        OneMoreBack(before, vstr[..], nlen);
        RemainingEnds(ua, radix, caps);
      }
      RemainingEnds(0, radix, caps);
      assert "" + Backwards(vstr[..], nlen) == Backwards(vstr[..], nlen);
    }

    /** The signed half: the digits of the absolute value, which may be that of the least number. */
    method ConvertSigned(vstr: array<char>, n: int, radix: nat) returns (nlen: nat)
      requires vstr.Length == VSTR_SIZE && 2 <= radix <= 10 && -0x8000_0000 <= n < 0x8000_0000
      modifies vstr
      ensures 0 < nlen < VSTR_SIZE && vstr[0] == NUL && Backwards(vstr[..], nlen) == Numeral(Abs(n), radix, true)
    {
      hide Numeral, Digit, Backwards, Quotient, Wrap;
      nlen := 0;
      vstr[0] := NUL;
      Numeral32(Abs(n), radix, true);
      if n == 0 {
        vstr[1] := '0';
        ZeroNumeral(vstr[..], radix, true);
        return 1;
      }
      var a := n;
      NothingBackwards(vstr[..]);
      while a != 0
        invariant vstr[0] == NUL && nlen < VSTR_SIZE
        invariant Remaining(Abs(a), radix, true) + Backwards(vstr[..], nlen) == Numeral(Abs(n), radix, true)
        invariant nlen + (if a == 0 then 0 else 1) <= |Numeral(Abs(n), radix, true)| == |Remaining(Abs(a), radix, true)| + nlen
        decreases Abs(a)
      {
        var b := Quotient(a, radix);
        var c := a - b * radix;
        QuotientAbs(a, radix);
        DigitCode(Abs(a) % radix, true);
        if c < 0 {
          NegatedDigit(c);
          var uc := Wrap(c);
          c := Wrap(0xFFFF_FFFF - uc) + 1 + '0' as int;
        } else {
          c := c + '0' as int;
        }
        RemainingStep(Abs(a), radix, true, Backwards(vstr[..], nlen));
        ghost var before := vstr[..];
        a := b;
        vstr[nlen + 1] := c as char;
        nlen := nlen + 1;
        OneMoreBack(before, vstr[..], nlen);
      }
    }

    /**
     DbgConsole_PrintfFormattedData for one integer conversion. `argument` is the argument as a 32-bit word.
     A negative number is printed without its sign.
     */
    method PrintInteger(conversion: char, width: uint32, argument: uint32) returns (count: nat)
      requires conversion in "diuxXobp"
      modifies this
      ensures var numeral := Numeral(Printed(conversion, argument), PrintRadix(conversion), conversion != 'x');
              var spaces := if |numeral| < Signed(width) then Signed(width) - |numeral| else 0;
              && output == old(output) + seq(spaces, i => ' ') + numeral
              && count == spaces + |numeral|
    {
      hide Numeral, Backwards;
      var vstr := new char[VSTR_SIZE];
      var vlen: nat;
      if conversion == 'd' || conversion == 'i' {
        vlen := ConvertSigned(vstr, Signed(argument), 10);
      } else {
        vlen := ConvertUnsigned(vstr, argument, PrintRadix(conversion), conversion != 'x');
      }
      ghost var numeral := Numeral(Printed(conversion, argument), PrintRadix(conversion), conversion != 'x');
      NumeralIs(Printed(conversion, argument), PrintRadix(conversion), conversion != 'x');
      BackwardsLength(vstr[..], vlen);
      count := Pad(' ', vlen, Signed(width));
      var more := PutBackwards(vstr, vlen, numeral);
      count := count + more;
    }

    /** The digits in the order in which they are read. */
    method PutBackwards(vstr: array<char>, vlen: nat, ghost numeral: string) returns (count: nat)
      requires vlen < vstr.Length && vstr[0] == NUL && Backwards(vstr[..], vlen) == numeral
      requires forall i :: 0 <= i < |numeral| ==> numeral[i] != NUL
      modifies this
      ensures output == old(output) + numeral && count == |numeral|
    {
      hide Backwards;
      ghost var done := "";
      var at := vlen;
      count := 0;
      NextDigit(vstr[..], vlen, done, numeral);
      while vstr[at] != NUL
        invariant 0 <= at <= vlen && (at > 0 ==> vstr[at] != NUL) && done + Backwards(vstr[..], at) == numeral
        invariant output == old(output) + done && count == |done|
        decreases at
      {
        BackwardsFirst(vstr[..], at);
        PutChar(vstr[at]);
        done := done + [vstr[at]];
        count := count + 1;
        at := at - 1;
        NextDigit(vstr[..], at, done, numeral);
      }
      NothingBackwards(vstr[..]);
    }
  }

  /** A 32-bit word as a signed number. */
  function Signed(w: uint32): (n: int)
    ensures -0x8000_0000 <= n < 0x8000_0000
  {
    if w < 0x8000_0000 then w else w - 0x1_0000_0000
  }

  function PrintRadix(conversion: char): nat {
    match conversion
    case 'x' => 16
    case 'X' => 16
    case 'p' => 16
    case 'o' => 8
    case 'b' => 2
    case _ => 10
  }

  /** The number whose numeral is printed. */
  function Printed(conversion: char, argument: uint32): nat {
    if conversion == 'd' || conversion == 'i' then Abs(Signed(argument)) else argument
  }

  lemma ZeroNumeral(vstr: seq<char>, radix: nat, caps: bool)
    requires |vstr| == VSTR_SIZE && vstr[1] == '0' && 2 <= radix <= 16
    ensures Backwards(vstr, 1) == Numeral(0, radix, caps)
  {
    assert Backwards(vstr, 0) == [];
  }

  lemma NothingBackwards(vstr: seq<char>)
    requires |vstr| > 0
    ensures Backwards(vstr, 0) == []
  {
  }

  lemma OneMoreBack(before: seq<char>, after: seq<char>, n: nat)
    requires 0 < n < |before| && |after| == |before| && after == before[n := after[n]]
    ensures Backwards(after, n) == [after[n]] + Backwards(before, n - 1)
  {
    BackwardsSame(before, after, n - 1);
  }

  lemma BackwardsFirst(s: seq<char>, n: nat)
    requires 0 < n < |s|
    ensures Backwards(s, n) == [s[n]] + Backwards(s, n - 1)
  {
  }

  lemma {:induction false} BackwardsLength(s: seq<char>, n: nat)
    requires n < |s|
    ensures |Backwards(s, n)| == n && (n > 0 ==> Backwards(s, n)[0] == s[n])
  {
    if n > 0 { BackwardsLength(s, n - 1); }
  }

  lemma Smaller(n: nat, radix: nat)
    requires n > 0 && radix >= 2
    ensures n / radix < n
  {
    if n >= radix { Shrinks(n, radix); } else { ModIs(n, radix, 0, n); }
  }

  lemma NextDigit(s: seq<char>, n: nat, done: string, numeral: string)
    requires n < |s| && done + Backwards(s, n) == numeral && forall i :: 0 <= i < |numeral| ==> numeral[i] != NUL
    ensures n > 0 ==> s[n] != NUL
  {
    if n > 0 {
      BackwardsFirst(s, n);
      assert numeral[|done|] == s[n];
    }
  }

  /** The arithmetic on character codes gives the digits. */
  lemma DigitCode(d: nat, caps: bool)
    requires d < 16
    ensures (if d < 10 then (d + '0' as int) as char else (d - 10 + (if caps then 'A' as int else 'a' as int)) as char)
            == Digit(d, caps)
  {
  }

  /** Complement and increment negate. */
  lemma NegatedDigit(c: int)
    requires -16 < c < 0
    ensures Wrap(0xFFFF_FFFF - Wrap(c)) + 1 == -c
  {
  }

  // ---------------------------------------------------------------------------------------------
  // Scanning
  // ---------------------------------------------------------------------------------------------

  function At(line: string, i: nat): char {
    if i < |line| then line[i] else NUL
  }

  predicate IsSpace(c: char) {
    c in " \t\n\r" || c as int in {0xB, 0xC}
  }

  /** The first index from i on that holds no white space. */
  function SkipSpaces(line: string, i: nat): (j: nat)
    requires i <= |line|
    ensures i <= j <= |line|
    decreases |line| - i
  {
    if i < |line| && IsSpace(line[i]) then SkipSpaces(line, i + 1) else i
  }

  /** How many digits of the base there are from i on, at most `width`. */
  function Run(line: string, i: nat, base: nat, width: nat): (n: nat)
    requires base <= 16
    ensures n <= width && (n > 0 ==> i + n <= |line|)
    decreases width
  {
    if At(line, i) != NUL && width > 0 && DigitValue(At(line, i)) < base then 1 + Run(line, i + 1, base, width - 1) else 0
  }

  /** A numeral with a 0x prefix, where the conversion allows one. */
  predicate HasPrefix(line: string, s: nat, conversion: char) {
    conversion in "ixX" && At(line, s) == '0' && At(line, s + 1) in "xX"
  }

  function ScanBase(line: string, s: nat, conversion: char): (base: nat)
    ensures base in {8, 10, 16}
  {
    match conversion
    case 'd' => 10
    case 'u' => 10
    case 'o' => 8
    case 'i' => if HasPrefix(line, s, conversion) then 16 else if At(line, s) == '0' then 8 else 10
    case _ => 16
  }

  /** A result of 32-bit signed arithmetic; where C leaves an overflow undefined it is taken to wrap. */
  function Int32(x: int): int {
    Signed(Wrap(x))
  }

  /** Reading an integer from a line. */
  class Scanner {
    const line: string
    var p: nat

    constructor (line: string)
      ensures this.line == line && p == 0
    {
      this.line := line;
      p := 0;
    }

    /** DbgConsole_ScanIgnoreWhiteSpace; the count is kept in eight bits. */
    method IgnoreWhiteSpace() returns (count: byte)
      requires p <= |line|
      modifies this
      ensures p == SkipSpaces(line, old(p)) && count == (p - old(p)) % 0x100
    {
      count := 0;
      var c := At(line, p);
      while c == ' ' || c == '\t' || c == '\n' || c == '\r' || c as int == 0xB || c as int == 0xC
        invariant p <= |line| && c == At(line, p)
        invariant old(p) <= p && SkipSpaces(line, old(p)) == SkipSpaces(line, p) && count == (p - old(p)) % 0x100
        decreases |line| - p
      {
        NextCount(p - old(p));
        count := (count + 1) % 0x100;
        p := p + 1;
        c := At(line, p);
      }
    }

    /**
     The integer branch of DbgConsole_ScanfFormattedData: white space, a prefix where the conversion allows
     one, a sign, and the longest run of digits the field width has room for.
     */
    method ScanInteger(conversion: char, width: uint32) returns (result: uint32)
      requires p <= |line| && conversion in "diuoxX"
      modifies this
      ensures var s := SkipSpaces(line, old(p));
              var prefix := if HasPrefix(line, s, conversion) then 2 else 0;
              var sign := if At(line, s + prefix) in "+-" then 1 else 0;
              var room := Wrap(Wrap((if width == 0 then 99 else width) - prefix) - sign);
              var base, first := ScanBase(line, s, conversion), s + prefix + sign;
              && p == first + Run(line, first, base, room) && p <= |line|
              && result == Wrap((if At(line, s + prefix) == '-' then -1 else 1) * Value(line[first..p], base))
    {
      hide Value, Run, DigitValue, Wrap, Signed, SkipSpaces, Int32, IsSpace;
      var fieldWidth := if width == 0 then 99 else width;
      var base := match conversion case 'd' => 10 case 'u' => 10 case 'o' => 8 case 'i' => 0 case _ => 16;
      var skipped := IgnoreWhiteSpace();
      var s := p;
      if (base == 0 || base == 16) && At(line, s) == '0' && (At(line, s + 1) == 'x' || At(line, s + 1) == 'X') {
        base := 16;
        if fieldWidth >= 1 {
          p := p + 2;
          fieldWidth := Wrap(fieldWidth - 2);
        }
      }
      if base == 0 {
        base := if At(line, s) == '0' then 8 else 10;
      }
      WrapSmall(fieldWidth);
      var neg := 1;
      if At(line, p) == '-' {
        neg := -1;
        p := p + 1;
        fieldWidth := Wrap(fieldWidth - 1);
      } else if At(line, p) == '+' {
        p := p + 1;
        fieldWidth := Wrap(fieldWidth - 1);
      }
      ghost var first := p;
      var val := Digits(base, fieldWidth);
      WrappedSign(neg, Value(line[first..p], base));
      val := Int32(neg * val);
      result := Wrap(val);
    }

    /** The digit loop: the value of the digits read, wrapped. */
    method Digits(base: nat, width: uint32) returns (val: int)
      requires p <= |line| && base in {8, 10, 16}
      modifies this
      ensures p == old(p) + Run(line, old(p), base, width) && p <= |line|
      ensures val == Int32(Value(line[old(p)..p], base))
    {
      hide Value, DigitValue, Int32;
      var fieldWidth: nat := width;
      val := 0;
      NoDigits(line, p, base);
      while At(line, p) != NUL && fieldWidth != 0
        invariant old(p) <= p <= |line|
        invariant p + Run(line, p, base, fieldWidth) == old(p) + Run(line, old(p), base, width)
        invariant val == Int32(Value(line[old(p)..p], base))
        decreases fieldWidth
      {
        var c := At(line, p);
        var temp := if '0' <= c <= '9' then c as int - '0' as int
                    else if 'a' <= c <= 'f' then c as int - 'a' as int + 10
                    else if 'A' <= c <= 'F' then c as int - 'A' as int + 10
                    else base;
        DigitTest(c, base, temp);
        if temp >= base {
          break;
        }
        fieldWidth := fieldWidth - 1;
        DigitMore(line, old(p), p, base);
        WrappedStep(Value(line[old(p)..p], base), base, temp);
        val := Int32(base * val + temp);
        p := p + 1;
      }
    }
  }

  lemma NextCount(n: nat)
    ensures (n % 0x100 + 1) % 0x100 == (n + 1) % 0x100
  {
  }

  lemma NoDigits(line: string, i: nat, base: nat)
    requires i <= |line|
    ensures 0 == Int32(Value(line[i..i], base))
  {
  }

  lemma DigitTest(c: char, base: nat, temp: int)
    requires base in {8, 10, 16}
    requires temp == if '0' <= c <= '9' then c as int - '0' as int
                     else if 'a' <= c <= 'f' then c as int - 'a' as int + 10
                     else if 'A' <= c <= 'F' then c as int - 'A' as int + 10
                     else base
    ensures temp >= 0 && (temp < base <==> DigitValue(c) < base) && (temp < base ==> temp == DigitValue(c))
  {
  }

  lemma DigitMore(line: string, i: nat, j: nat, base: nat)
    requires i <= j < |line|
    ensures Value(line[i..j + 1], base) == Value(line[i..j], base) * base + DigitValue(line[j])
  {
    hide DigitValue;
    assert line[i..j + 1][..j - i] == line[i..j];
  }

  /** Wrapping at every step is wrapping once. */
  lemma WrappedStep(v: nat, base: nat, d: int)
    ensures Int32(base * Int32(v) + d) == Int32(v * base + d)
  {
    var k := Turns(v);
    TurnsOf(v);
    Turned(base, v, k);
    WrapTurned(v * base + d, -(base * k));
  }

  /** How often a number has been taken round. */
  function Turns(x: int): int {
    (x - Int32(x)) / 0x1_0000_0000
  }

  lemma TurnsOf(x: int)
    ensures x == Int32(x) + Turns(x) * 0x1_0000_0000
  {
    var q, r := x / 0x1_0000_0000, x % 0x1_0000_0000;
    assert x == q * 0x1_0000_0000 + r;
    if r < 0x8000_0000 { assert x - Int32(x) == q * 0x1_0000_0000; } else { assert x - Int32(x) == (q + 1) * 0x1_0000_0000; }
  }

  lemma Turned(base: nat, v: int, k: int)
    ensures base * (v - k * 0x1_0000_0000) == v * base - base * k * 0x1_0000_0000
  {
  }

  lemma WrapTurned(x: int, k: int)
    ensures Wrap(x + k * 0x1_0000_0000) == Wrap(x)
  {
  }

  lemma WrapOfInt32(x: int)
    ensures Wrap(Int32(x)) == Wrap(x)
  {
    TurnsOf(x);
    WrapTurned(Int32(x), Turns(x));
  }

  lemma WrappedSign(neg: int, v: nat)
    requires neg in {1, -1}
    ensures Wrap(Int32(neg * Int32(v))) == Wrap(neg * v)
  {
    WrapOfInt32(neg * Int32(v));
    TurnsOf(v);
    WrapTurned(neg * v, -neg * Turns(v));
  }

  // ---------------------------------------------------------------------------------------------
  // Round trip
  // ---------------------------------------------------------------------------------------------

  /** What may follow a number so that it is not taken for a part of it. */
  predicate Ends(rest: string) {
    DigitValue(At(rest, 0)) == 16 && At(rest, 0) !in "xX"
  }

  lemma {:induction false} SkipsAll(line: string, i: nat, j: nat)
    requires i <= j <= |line| && (forall k :: i <= k < j ==> IsSpace(line[k])) && (j < |line| ==> !IsSpace(line[j]))
    ensures SkipSpaces(line, i) == j
    decreases j - i
  {
    if i < j { SkipsAll(line, i + 1, j); }
  }

  lemma {:induction false} RunsOver(line: string, i: nat, n: nat, base: nat, width: nat)
    requires base <= 16 && i + n <= |line| && n < width
    requires forall k :: i <= k < i + n ==> line[k] != NUL && DigitValue(line[k]) < base
    requires DigitValue(At(line, i + n)) >= base
    ensures Run(line, i, base, width) == n
    decreases n
  {
    hide DigitValue;
    if n > 0 { RunsOver(line, i + 1, n - 1, base, width - 1); }
  }

  /** A padded numeral with something after it, as the scanner sees it. */
  lemma NumeralInLine(pad: string, n: nat, radix: nat, caps: bool, rest: string)
    requires n < 0x1_0000_0000 && radix in {8, 10, 16} && Ends(rest) && forall i :: 0 <= i < |pad| ==> IsSpace(pad[i])
    ensures var numeral := Numeral(n, radix, caps);
            var line, s := pad + numeral + rest, |pad|;
            && SkipSpaces(line, 0) == s && At(line, s) !in "+-" && At(line, s) in numeral
            && (At(line, s) == '0' <==> n == 0) && (n == 0 ==> At(line, s + 1) !in "xX")
            && Run(line, s, radix, 99) == |numeral| && (n == 0 ==> Run(line, s, 8, 99) == 1 == |numeral|)
            && line[s..s + |numeral|] == numeral && Value(numeral, radix) == n && (n == 0 ==> Value(numeral, 8) == 0)
  {
    hide DigitValue, IsSpace, Value, Run, SkipSpaces, Ends, Numeral;
    var numeral := Numeral(n, radix, caps);
    NumeralIs(n, radix, caps);
    Numeral32(n, radix, caps);
    var line, s := pad + numeral + rest, |pad|;
    Placed(pad, numeral, rest);
    FirstOfNumeral(numeral[0], radix);
    SkipsAll(line, 0, s);
    EndsRun(rest, radix);
    RunsOver(line, s, |numeral|, radix, 99);
    if n == 0 {
      ZeroIsOneDigit(radix, caps);
      EndsRun(rest, 8);
      RunsOver(line, s, 1, 8, 99);
    }
  }

  lemma Placed(pad: string, numeral: string, rest: string)
    ensures var line, s := pad + numeral + rest, |pad|;
            && line[s..s + |numeral|] == numeral && At(line, s + |numeral|) == At(rest, 0)
            && (forall k :: s <= k < s + |numeral| ==> line[k] == numeral[k - s])
            && (forall k :: 0 <= k < s ==> line[k] == pad[k])
  {
  }

  lemma EndsRun(rest: string, radix: nat)
    requires Ends(rest) && radix <= 16
    ensures DigitValue(At(rest, 0)) >= radix && At(rest, 0) !in "xX"
  {
  }

  lemma ZeroIsOneDigit(radix: nat, caps: bool)
    requires radix in {8, 10, 16}
    ensures Numeral(0, radix, caps) == "0" && Value("0", 8) == 0 && DigitValue('0') == 0
  {
    OneDigit('0', 8);
  }

  lemma FirstOfNumeral(c: char, radix: nat)
    requires DigitValue(c) < radix <= 16
    ensures !IsSpace(c) && c !in "+-xX" && (c == '0' ==> DigitValue(c) == 0)
  {
  }

  /** What the scanner makes of such a line. */
  lemma ScansNumeral(conversion: char, pad: string, n: nat, caps: bool, rest: string)
    requires conversion in "diuoxX" && n < 0x1_0000_0000 && Ends(rest) && forall i :: 0 <= i < |pad| ==> IsSpace(pad[i])
    ensures var numeral := Numeral(n, PrintRadix(conversion), caps);
            var line, s := pad + numeral + rest, |pad|;
            var base := ScanBase(line, s, conversion);
            && SkipSpaces(line, 0) == s && !HasPrefix(line, s, conversion) && At(line, s) !in "+-"
            && Run(line, s, base, 99) == |numeral| && line[s..s + |numeral|] == numeral && Value(numeral, base) == n
  {
    hide Numeral, Value, Run, SkipSpaces, Ends;
    NumeralInLine(pad, n, PrintRadix(conversion), caps, rest);
  }

  /**
   Scanning what has been printed, with the same conversion, any field width for the printing and none for
   the scanning: the result is what was printed exactly for an unsigned conversion, a number that is not
   negative, or the least number, whose absolute value is its own word.
   */
  method PrintThenScan(conversion: char, width: uint32, argument: uint32, rest: string) returns (result: uint32)
    requires conversion in "diuoxX" && Ends(rest)
    ensures result == Printed(conversion, argument)
    ensures result == argument <==> conversion in "uoxX" || Signed(argument) >= 0 || argument == 0x8000_0000
  {
    hide Numeral, Value, Run, SkipSpaces, Wrap, Ends, Printed, Signed;
    SameWord(conversion, argument);
    var printer := new Printer();
    var count := printer.PrintInteger(conversion, width, argument);
    ghost var n, radix, caps := Printed(conversion, argument), PrintRadix(conversion), conversion != 'x';
    ghost var spaces := count - |Numeral(n, radix, caps)|;
    ghost var pad := seq(spaces, i => ' ');
    ScansNumeral(conversion, pad, n, caps, rest);
    hide HasPrefix, ScanBase;
    assert printer.output == pad + Numeral(n, radix, caps);
    var scanner := new Scanner(printer.output + rest);
    WrapSmall(99);
    WrapSmall(n);
    result := scanner.ScanInteger(conversion, 0);
  }

  lemma SameWord(conversion: char, argument: uint32)
    requires conversion in "diuoxX"
    ensures Printed(conversion, argument) < 0x1_0000_0000
    ensures Printed(conversion, argument) == argument
            <==> conversion in "uoxX" || Signed(argument) >= 0 || argument == 0x8000_0000
  {
  }

  // ---------------------------------------------------------------------------------------------
  // What is printed, in numbers
  // ---------------------------------------------------------------------------------------------

  /** The base of what a conversion prints. */
  lemma PrintsIn(conversion: char)
    requires conversion in "diuxXobp"
    ensures PrintRadix(conversion) ==
            if conversion in "xXp" then 16 else if conversion == 'o' then 8 else if conversion == 'b' then 2 else 10
  {
  }

  lemma {:induction false} OneCase(n: nat, radix: nat, caps: bool)
    requires 2 <= radix <= 16
    ensures forall c | c in Numeral(n, radix, caps) :: c in (if caps then "0123456789ABCDEF" else "0123456789abcdef")
    decreases n
  {
    if n >= radix {
      Shrinks(n, radix);
      OneCase(n / radix, radix, caps);
    }
  }

  /**
   What one conversion without a width puts out: the digits of the argument, or of its absolute value as a signed
   number, in base 10, 16, 8 or 2, without a leading zero, and in lower case for %x only.
   */
  method PrintOne(conversion: char, argument: uint32) returns (out: string)
    requires conversion in "diuxXobp"
    ensures var base := if conversion in "xXp" then 16 else if conversion == 'o' then 8 else if conversion == 'b' then 2 else 10;
            var number := if conversion in "di" && argument >= 0x8000_0000 then 0x1_0000_0000 - argument else argument;
            Value(out, base) == number && AreDigits(out, base) && |out| > 0 && (out[0] == '0' <==> number == 0)
    ensures forall c | c in out :: c in (if conversion == 'x' then "0123456789abcdef" else "0123456789ABCDEF")
  {
    hide Value, Numeral, AreDigits, PrintRadix;
    PrintsIn(conversion);
    var printer := new Printer();
    var count := printer.PrintInteger(conversion, 0, argument);
    out := printer.output;
    ghost var n, base := Printed(conversion, argument), PrintRadix(conversion);
    NumeralIs(n, base, conversion != 'x');
    OneCase(n, base, conversion != 'x');
    assert out == Numeral(n, base, conversion != 'x');
  }

  /** Some numerals as strings. */
  lemma SomeNumerals()
    ensures Numeral(15, 8, true) == "17" && Numeral(5, 2, true) == "101" && Numeral(1907, 10, true) == "1907"
    ensures Numeral(0x2BAD, 16, true) == "2BAD" && Numeral(0xC0FE, 16, false) == "c0fe"
  {
  }

  // ---------------------------------------------------------------------------------------------
  // Prefixes and signs
  // ---------------------------------------------------------------------------------------------

  /** Blanks, tabs, line feeds, vertical tabs, form feeds and carriage returns. */
  predicate AreSpaces(pad: string) {
    forall i :: 0 <= i < |pad| ==> pad[i] as int in {0x20, 9, 10, 11, 12, 13}
  }

  lemma SkipsPad(line: string, pad: string)
    requires |pad| < |line| && AreSpaces(pad) && !IsSpace(line[|pad|])
    requires forall k :: 0 <= k < |pad| ==> line[k] == pad[k]
    ensures SkipSpaces(line, 0) == |pad|
  {
    SkipsAll(line, 0, |pad|);
  }

  /** One or more digits of the base, and something else after them. */
  predicate AreWhole(digits: string, base: nat, rest: string) {
    && 0 < |digits| <= 40 && AreDigits(digits, base) && DigitValue(At(rest, 0)) >= base
    && forall i :: 0 <= i < |digits| ==> digits[i] != NUL
  }

  /** The base in which a conversion reads the digits after a sign, when there is no prefix before it. */
  function PlainBase(conversion: char, sign: string, digits: string): nat
    requires digits != ""
  {
    if conversion in "xX" then 16 else if conversion == 'o' then 8
    else if conversion == 'i' && sign == "" && digits[0] == '0' then 8 else 10
  }

  /** Where the parts of a line are. */
  lemma Parts4(pad: string, prefix: string, sign: string, digits: string, rest: string)
    requires |sign| <= 1 && (prefix == "" || |prefix| == 2) && digits != ""
    ensures var line, s := pad + prefix + sign + digits + rest, |pad|;
            var first := s + |prefix| + |sign|;
            && first + |digits| <= |line| && line[first..first + |digits|] == digits
            && At(line, first + |digits|) == At(rest, 0)
            && (forall k :: 0 <= k < s ==> line[k] == pad[k])
            && (forall k :: first <= k < first + |digits| ==> line[k] == digits[k - first])
            && (prefix != "" ==> line[s] == prefix[0] && line[s + 1] == prefix[1])
            && (sign != "" ==> line[s + |prefix|] == sign[0])
            && (prefix == sign == "" ==> At(line, s + 1) == At(digits + rest, 1))
  {
    Placed(pad + prefix + sign, digits, rest);
  }

  /** How the scanner sees a line made of white space, a prefix, a sign, digits and something else. */
  lemma SeesParts(conversion: char, pad: string, prefix: string, sign: string, digits: string, rest: string, base: nat)
    requires conversion in "diuoxX" && AreSpaces(pad) && sign in {"", "+", "-"} && base in {8, 10, 16}
    requires AreWhole(digits, base, rest)
    requires if prefix == "" then base == PlainBase(conversion, sign, digits)
             else prefix in {"0x", "0X"} && conversion in "ixX" && base == 16
    requires prefix == sign == "" && digits[0] == '0' ==> At(digits + rest, 1) !in "xX"
    ensures var line, s := pad + prefix + sign + digits + rest, |pad|;
            var first := s + |prefix| + |sign|;
            && SkipSpaces(line, 0) == s && (HasPrefix(line, s, conversion) <==> prefix != "")
            && (At(line, s + |prefix|) in "+-" <==> sign != "") && (At(line, s + |prefix|) == '-' <==> sign == "-")
            && ScanBase(line, s, conversion) == base
            && Run(line, first, base, 99 - |prefix| - |sign|) == |digits| && first + |digits| <= |line|
            && line[first..first + |digits|] == digits
  {
    var line, s := pad + prefix + sign + digits + rest, |pad|;
    var first := s + |prefix| + |sign|;
    Parts4(pad, prefix, sign, digits, rest);
    FirstIsDigit(digits, base, rest);
    hide AreSpaces, IsSpace, Run, SkipSpaces, DigitValue, ScanBase, HasPrefix, PlainBase, AreWhole, AreDigits;
    DigitsSeen(line, first, digits, base, rest, 99 - |prefix| - |sign|);
    assert At(line, first) == digits[0];
    StartSeen(line, s, conversion, prefix, sign, digits, base);
    SkipsPad(line, pad);
  }

  lemma FirstIsDigit(digits: string, base: nat, rest: string)
    requires AreWhole(digits, base, rest)
    ensures 0 < |digits| <= 40 && DigitValue(digits[0]) < base
  {
  }

  lemma DigitsSeen(line: string, first: nat, digits: string, base: nat, rest: string, width: nat)
    requires base <= 16 && AreWhole(digits, base, rest) && first + |digits| <= |line| && |digits| < width
    requires forall k :: first <= k < first + |digits| ==> line[k] == digits[k - first]
    requires At(line, first + |digits|) == At(rest, 0)
    ensures Run(line, first, base, width) == |digits|
  {
    hide DigitValue, Run;
    RunsOver(line, first, |digits|, base, width);
  }

  lemma StartSeen(line: string, s: nat, conversion: char, prefix: string, sign: string, digits: string, base: nat)
    requires conversion in "diuoxX" && sign in {"", "+", "-"} && base in {8, 10, 16} && digits != ""
    requires DigitValue(digits[0]) < base && At(line, s + |prefix| + |sign|) == digits[0]
    requires if prefix == "" then base == PlainBase(conversion, sign, digits)
             else prefix in {"0x", "0X"} && conversion in "ixX" && base == 16
    requires prefix == sign == "" && digits[0] == '0' ==> At(line, s + 1) !in "xX"
    requires prefix != "" ==> At(line, s) == prefix[0] && At(line, s + 1) == prefix[1]
    requires sign != "" ==> At(line, s + |prefix|) == sign[0]
    ensures !IsSpace(At(line, s)) && (HasPrefix(line, s, conversion) <==> prefix != "")
    ensures (At(line, s + |prefix|) in "+-" <==> sign != "") && (At(line, s + |prefix|) == '-' <==> sign == "-")
    ensures ScanBase(line, s, conversion) == base
  {
    FirstOfNumeral(digits[0], base);
    hide DigitValue;
  }

  /** Reading such a line without a field width gives the value of the digits, negated after a minus. */
  method ScanLine(conversion: char, pad: string, prefix: string, sign: string, digits: string, rest: string, base: nat)
    returns (result: uint32)
    requires conversion in "diuoxX" && AreSpaces(pad) && sign in {"", "+", "-"} && base in {8, 10, 16}
    requires AreWhole(digits, base, rest)
    requires if prefix == "" then base == PlainBase(conversion, sign, digits)
             else prefix in {"0x", "0X"} && conversion in "ixX" && base == 16
    requires prefix == sign == "" && digits[0] == '0' ==> At(digits + rest, 1) !in "xX"
    ensures result == Wrap((if sign == "-" then -1 else 1) * Value(digits, base))
  {
    hide Value, Run, SkipSpaces, Wrap, HasPrefix, ScanBase, AreWhole, AreSpaces, PlainBase;
    SeesParts(conversion, pad, prefix, sign, digits, rest, base);
    var scanner := new Scanner(pad + prefix + sign + digits + rest);
    WrapSmall(99 - |prefix|);
    WrapSmall(99 - |prefix| - |sign|);
    WrapSmall(99);
    result := scanner.ScanInteger(conversion, 0);
  }

  lemma WholeNumeral(n: nat, radix: nat, caps: bool, rest: string)
    requires n < 0x1_0000_0000 && radix in {8, 10, 16} && Ends(rest)
    ensures AreWhole(Numeral(n, radix, caps), radix, rest) && Value(Numeral(n, radix, caps), radix) == n
    ensures |Numeral(n, radix, caps)| <= 32
    ensures Numeral(n, radix, caps)[0] == '0' ==> n == 0 && At(Numeral(n, radix, caps) + rest, 1) !in "xX"
  {
    NumeralIs(n, radix, caps);
    Numeral32(n, radix, caps);
  }

  /** %i reads digits after a 0 as octal. */
  method ScanOctal(pad: string, n: uint32, rest: string) returns (result: uint32)
    requires AreSpaces(pad) && Ends(rest)
    ensures result == n
  {
    hide Value, Numeral, Ends, AreSpaces;
    ghost var numeral := Numeral(n, 8, true);
    WholeNumeral(n, 8, true, rest);
    LeadingZero(numeral, 8, rest);
    WrapSmall(n);
    result := ScanLine('i', pad, "", "", "0" + Numeral(n, 8, true), rest, 8);
  }

  lemma {:induction false} LeadingZero(s: string, base: nat, rest: string)
    requires |s| < 40 && base in {8, 10} && (forall i :: 0 <= i < |s| ==> DigitValue(s[i]) < base && s[i] != NUL) && Ends(rest)
    ensures Value("0" + s, base) == Value(s, base) && AreWhole("0" + s, base, rest)
    ensures At("0" + s + rest, 1) !in "xX"
    decreases |s|
  {
    if s == "" {
      assert "0" + s == "0";
      OneDigit('0', base);
    } else {
      LeadingZero(s[..|s| - 1], base, rest);
      assert ("0" + s)[..|s|] == "0" + s[..|s| - 1];
    }
  }

  /** %i, %x and %X read digits after 0x or 0X as hexadecimal; the sign comes after the prefix. */
  method ScanHexadecimal(conversion: char, pad: string, x: char, sign: string, n: uint32, caps: bool, rest: string)
    returns (result: uint32)
    requires conversion in "ixX" && AreSpaces(pad) && x in "xX" && sign in {"", "+", "-"} && Ends(rest)
    ensures result == if sign == "-" && n > 0 then 0x1_0000_0000 - n else n
  {
    hide Value, Numeral, Ends, AreSpaces, AreWhole;
    WholeNumeral(n, 16, caps, rest);
    WrapNegated(n);
    assert ['0', 'x'] == "0x" && ['0', 'X'] == "0X";
    result := ScanLine(conversion, pad, ['0', x], sign, Numeral(n, 16, caps), rest, 16);
  }

  lemma WrapNegated(n: uint32)
    ensures Wrap(n) == n && Wrap(-1 * n) == if n > 0 then 0x1_0000_0000 - n else 0
  {
  }

  /** A sign before the digits negates, or not, in all conversions. */
  method ScanSigned(conversion: char, pad: string, sign: string, n: uint32, caps: bool, rest: string) returns (result: uint32)
    requires conversion in "diuoxX" && AreSpaces(pad) && sign in {"", "+", "-"} && Ends(rest)
    ensures result == if sign == "-" && n > 0 then 0x1_0000_0000 - n else n
  {
    hide Value, Numeral, Ends, AreSpaces, AreWhole;
    var base := if conversion in "xX" then 16 else if conversion == 'o' then 8 else 10;
    WholeNumeral(n, base, caps, rest);
    WrapNegated(n);
    if conversion == 'i' && sign == "" && n == 0 {
      ZeroIsOneDigit(10, caps);
      ZeroIsOneDigit(8, caps);
      WholeNumeral(0, 8, caps, rest);
      base := 8;
    }
    result := ScanLine(conversion, pad, "", sign, Numeral(n, base, caps), rest, base);
  }

  /** A prefix after the sign is not seen: a signed hexadecimal number is read as the 0 before its x. */
  method ScanSignBeforePrefix(conversion: char, pad: string, sign: string, x: char, rest: string) returns (result: uint32)
    requires conversion in "ixX" && AreSpaces(pad) && sign in {"+", "-"} && x in "xX"
    ensures result == 0
  {
    hide AreSpaces;
    OneDigit('0', 10);
    OneDigit('0', 16);
    result := ScanLine(conversion, pad, "", sign, "0", [x] + rest, if conversion == 'i' then 10 else 16);
  }

  /** And %i reads signed digits after a 0 as decimal, so that -017 is -17 and not -15. */
  method ScanSignedOctal(pad: string, sign: string, n: uint32, rest: string) returns (result: uint32)
    requires AreSpaces(pad) && sign in {"+", "-"} && Ends(rest)
    ensures result == Wrap((if sign == "-" then -1 else 1) * Value(Numeral(n, 8, true), 10))
  {
    hide Value, Numeral, Ends, AreSpaces;
    WholeNumeral(n, 8, true, rest);
    LeadingZero(Numeral(n, 8, true), 10, rest);
    result := ScanLine('i', pad, "", sign, "0" + Numeral(n, 8, true), rest, 10);
  }
}
