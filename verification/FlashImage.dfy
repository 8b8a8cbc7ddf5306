/** What erasing and programming do to the contents of a flash memory, and the alignment macros. */
module FlashImage {
  import opened Machine
  import opened Bits

  // ---------------------------------------------------------------------------------------------
  // Alignment
  // ---------------------------------------------------------------------------------------------

  function FloorTo(x: nat, a: nat): (r: nat)
    requires a > 0
    ensures r <= x < r + a
  {
    x - x % a
  }

  function CeilTo(x: nat, a: nat): (r: nat)
    requires a > 0
    ensures r < x + a && x <= r
  {
    if x % a == 0 then x else x - x % a + a
  }

  /** Negation of a 32-bit number. */
  function Negated(x: int): uint32 {
    Wrap(-x)
  }

  /** ALIGN_UP: two 32-bit negations around a mask. */
  function AlignUp(x: uint32, a: uint32): uint32 {
    Negated(And(Negated(x), Negated(a)))
  }

  lemma NegatedIs(x: nat)
    requires x <= 0x1_0000_0000
    ensures Negated(x) == if x == 0 || x == 0x1_0000_0000 then 0 else 0x1_0000_0000 - x
  {
  }

  /** The bit trick rounds up to a multiple of a power of two, modulo 2^32. */
  lemma AlignUpRounds(x: uint32, k: nat)
    requires k < 32
    ensures Pow2(k) < 0x1_0000_0000 && AlignUp(x, Pow2(k)) == Wrap(CeilTo(x, Pow2(k)))
  {
    hide And, Pow2, Negated, FloorTo, Wrap;
    var a, y := Pow2(k), Negated(x);
    Pow2Of32();
    Pow2Below(k, 32);
    NegatedIs(a);
    AndHigh(y, k, 32);
    LowIsMod(y, k);
    Pow2Split(k, 32);
    Opposite(x, a, Pow2(32 - k));
    RoundedBack(x, Remainder(y, a));
  }

  function Remainder(x: nat, a: nat): (r: nat)
    requires a > 0
    ensures r <= x && r < a
  {
    x % a
  }

  lemma RoundedBack(x: uint32, s: nat)
    requires s <= Negated(x)
    ensures Negated(Negated(x) - s) == Wrap(x + s)
  {
    hide Negated;
    NegatedIs(x);
    NegatedIs(Negated(x) - s);
  }

  /** The complement to 2^32 has the complementary remainder. */
  lemma Opposite(x: uint32, a: nat, b: nat)
    requires a > 0 && b * a == 0x1_0000_0000
    ensures Negated(x) % a == if Remainder(x, a) == 0 then 0 else a - Remainder(x, a)
  {
    hide Negated;
    NegatedIs(x);
    var q, r := x / a, x % a;
    assert x == q * a + r;
    OppositeParts(a, b, q, r);
  }

  lemma OppositeParts(a: nat, b: nat, q: nat, r: nat)
    requires a > 0 && r < a && q * a + r < b * a
    ensures (b * a - (q * a + r)) % a == if r == 0 then 0 else a - r
    ensures q * a + r == 0 ==> r == 0
  {
    LessFactor(q, a, b, r);
    if r == 0 {
      Distribute(b, q, a);
      ModIs(b * a - q * a, a, b - q, 0);
    } else {
      Distribute(b, q + 1, a);
      OneMore(q, a);
      ModIs(b * a - (q * a + r), a, b - q - 1, a - r);
    }
  }

  lemma OneMore(q: nat, a: nat)
    ensures (q + 1) * a == q * a + a
  {
  }

  lemma Distribute(b: nat, q: nat, a: nat)
    requires q <= b
    ensures (b - q) * a == b * a - q * a
  {
  }

  lemma LessFactor(q: nat, a: nat, b: nat, r: nat)
    requires q * a + r < b * a
    ensures q < b
  {
    MulLe(b, q, a);
  }

  predicate Multiple(x: nat, a: nat) {
    a > 0 && x % a == 0
  }

  /** Two powers of two divide one another. */
  lemma Pow2Divides(a: nat, n: nat)
    requires a <= n
    ensures Multiple(Pow2(n), Pow2(a))
  {
    hide Pow2;
    Pow2Split(a, n);
    ModIs(Pow2(n), Pow2(a), Pow2(n - a), 0);
  }

  /** The next multiple is a whole step away. */
  lemma NextMultiple(x: nat, y: nat, a: nat)
    requires Multiple(x, a) && Multiple(y, a)
    ensures x < y ==> x + a <= y
  {
    var p, q := x / a, y / a;
    assert x == p * a && y == q * a;
    MulLe(q, p, a);
    OneMore(p, a);
    MulLe(p + 1, q, a);
  }

  lemma StepMultiple(x: nat, a: nat)
    requires Multiple(x, a)
    ensures Multiple(x + a, a)
  {
    OneMore(x / a, a);
    ModIs(x + a, a, x / a + 1, 0);
  }

  lemma FloorCeilMultiples(x: nat, a: nat)
    requires a > 0
    ensures Multiple(FloorTo(x, a), a) && Multiple(CeilTo(x, a), a)
  {
    ModIs(FloorTo(x, a), a, x / a, 0);
    StepMultiple(FloorTo(x, a), a);
  }

  lemma FloorUnique(x: nat, m: nat, a: nat)
    requires Multiple(m, a) && m <= x < m + a
    ensures FloorTo(x, a) == m
  {
    ModIs(x, a, m / a, x - m);
  }

  lemma CeilUnique(x: nat, m: nat, a: nat)
    requires Multiple(m, a) && x <= m < x + a
    ensures CeilTo(x, a) == m
  {
    hide Multiple, CeilTo;
    FloorCeilMultiples(x, a);
    NextMultiple(m, CeilTo(x, a), a);
    NextMultiple(CeilTo(x, a), m, a);
  }

  /** A multiple of a multiple. */
  lemma MultipleOf(x: nat, a: nat, b: nat)
    requires Multiple(x, a) && Multiple(a, b)
    ensures Multiple(x, b)
  {
    var p, q := x / a, a / b;
    assert x == p * a && a == q * b;
    Regrouped(p, q, b);
    ModIs(x, b, p * q, 0);
  }

  lemma Regrouped(p: nat, q: nat, b: nat)
    ensures p * (q * b) == (p * q) * b
  {
  }

  // ---------------------------------------------------------------------------------------------
  // Contents
  // ---------------------------------------------------------------------------------------------

  function AndByte(x: byte, y: byte): byte {
    AndAtMost(x, y);
    And(x, y)
  }

  lemma {:induction false} AndAtMost(x: nat, y: nat)
    ensures And(x, y) <= x
  {
    if x == 0 || y == 0 {
    } else {
      AndAtMost(x / 2, y / 2);
    }
  }

  /** Programming an erased byte stores the data. */
  lemma ErasedTakesData(d: byte)
    ensures AndByte(0xFF, d) == d
  {
    assert Pow2(8) == 0x100;
    hide And, Pow2, Low;
    AndSwap(0xFF, d);
    AndLow(d, 8);
    LowIsMod(d, 8);
  }

  function Erased(mem: seq<byte>, from: nat, to: nat): (r: seq<byte>)
    ensures |r| == |mem|
  {
    seq(|mem|, i requires 0 <= i < |mem| => if from <= i < to then 0xFF else mem[i])
  }

  /** Programming can only clear bits. */
  function Programmed(mem: seq<byte>, at: nat, data: seq<byte>): (r: seq<byte>)
    ensures |r| == |mem|
  {
    seq(|mem|, i requires 0 <= i < |mem| => if at <= i < at + |data| then AndByte(mem[i], data[i - at]) else mem[i])
  }

  predicate Blank(mem: seq<byte>, from: nat, to: nat) {
    forall i :: from <= i < to && i < |mem| ==> mem[i] == 0xFF
  }

  predicate SameOutside(a: seq<byte>, b: seq<byte>, from: nat, to: nat) {
    |a| == |b| && forall i :: 0 <= i < |a| && !(from <= i < to) ==> a[i] == b[i]
  }

  lemma ErasedJoin(mem: seq<byte>, a: nat, b: nat, c: nat)
    requires a <= b <= c
    ensures Erased(Erased(mem, a, b), b, c) == Erased(mem, a, c)
  {
  }

  lemma ProgrammedJoin(mem: seq<byte>, at: nat, d: seq<byte>, e: seq<byte>)
    ensures Programmed(Programmed(mem, at, d), at + |d|, e) == Programmed(mem, at, d + e)
  {
    hide And, AndByte;
  }

  /** Programming an erased range stores the data there. */
  lemma ProgrammedBlank(mem: seq<byte>, at: nat, data: seq<byte>)
    requires at + |data| <= |mem| && Blank(mem, at, at + |data|)
    ensures Programmed(mem, at, data)[at..at + |data|] == data
    ensures SameOutside(mem, Programmed(mem, at, data), at, at + |data|)
  {
    hide And, AndByte;
    forall i | 0 <= i < |data| ensures Programmed(mem, at, data)[at + i] == data[i] {
      ErasedTakesData(data[i]);
    }
  }
}
