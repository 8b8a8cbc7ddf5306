/** Bitwise operators on naturals, bit by bit, and what they do with masks of low or high bits. */
module Bits {
  import opened Machine

  function Pow2(k: nat): (r: nat)
    ensures r > 0
  {
    if k == 0 then 1 else 2 * Pow2(k - 1)
  }

  function And(x: nat, y: nat): nat {
    if x == 0 || y == 0 then 0 else 2 * And(x / 2, y / 2) + (x % 2) * (y % 2)
  }

  function Or(x: nat, y: nat): nat {
    if x == 0 then y
    else if y == 0 then x
    else 2 * Or(x / 2, y / 2) + (if x % 2 == 1 then 1 else y % 2)
  }

  /** The quotient and remainder by a power of two, one bit at a time. */
  lemma HalfMod(x: nat, k: nat)
    requires k > 0
    ensures x % Pow2(k) == 2 * (x / 2 % Pow2(k - 1)) + x % 2
  {
    var p := Pow2(k - 1);
    var q, r := x / 2 / p, x / 2 % p;
    assert x / 2 == q * p + r;
    assert x == 2 * (q * p + r) + x % 2;
    assert x == q * (2 * p) + (2 * r + x % 2);
    ModIs(x, 2 * p, q, 2 * r + x % 2);
  }

  lemma ModIs(n: nat, d: nat, q: nat, r: nat)
    requires r < d && n == q * d + r
    ensures n % d == r && n / d == q
  {
    var a, b := n / d, n % d;
    assert n == a * d + b;
    if a < q {
      MulLe(a + 1, q, d);
    } else if q < a {
      MulLe(q + 1, a, d);
    }
  }

  /** The k low bits of x. */
  function Low(x: nat, k: nat): (r: nat)
    ensures r <= x
  {
    if k == 0 then 0 else 2 * Low(x / 2, k - 1) + x % 2
  }

  lemma {:induction false} LowIsMod(x: nat, k: nat)
    ensures Low(x, k) == x % Pow2(k)
    decreases k
  {
    if k > 0 {
      LowIsMod(x / 2, k - 1);
      HalfMod(x, k);
    }
  }

  /** Masking with the k low bits is the remainder by 2^k. */
  lemma {:induction false} AndLow(x: nat, k: nat)
    ensures And(x, Pow2(k) - 1) == Low(x, k)
    decreases k
  {
    if k == 0 {
      AndZero(x);
    } else {
      AndLow(x / 2, k - 1);
      var m := Pow2(k) - 1;
      assert m / 2 == Pow2(k - 1) - 1 && m % 2 == 1;
      hide And;
      AndStep(x, m);
    }
  }

  /** Masking a w-bit number with all but the k low bits takes away the k low bits. */
  lemma {:induction false} AndHigh(x: nat, k: nat, w: nat)
    requires x < Pow2(w) && k <= w
    ensures Pow2(k) <= Pow2(w)
    ensures And(x, Pow2(w) - Pow2(k)) == x - Low(x, k)
    decreases w
  {
    if w == 0 {
      assert And(x, 0) == 0;
    } else {
      var j := if k == 0 then 0 else k - 1;
      AndHigh(x / 2, j, w - 1);
      var m := Pow2(w) - Pow2(k);
      assert m / 2 == Pow2(w - 1) - Pow2(j) && m % 2 == if k == 0 then 1 else 0;
      hide And;
      AndStep(x, m);
    }
  }

  lemma {:induction false} LowAll(x: nat, w: nat)
    requires x < Pow2(w)
    ensures Low(x, w) == x
    decreases w
  {
    if w > 0 { LowAll(x / 2, w - 1); }
  }

  /** The k low bits of a disjunction. */
  lemma {:induction false} OrLow(x: nat, y: nat, k: nat)
    ensures Low(Or(x, y), k) == Or(Low(x, k), Low(y, k))
    decreases k
  {
    hide Or;
    OrZero();
    if k > 0 {
      OrLow(x / 2, y / 2, k - 1);
      OrStep(x, y);
      LowHalf(x, k);
      LowHalf(y, k);
      OrStep(Low(x, k), Low(y, k));
    }
  }

  /** The k low bits of a conjunction. */
  lemma {:induction false} LowAnd(x: nat, y: nat, k: nat)
    ensures Low(And(x, y), k) == And(Low(x, k), Low(y, k))
    decreases k
  {
    hide And;
    if k == 0 {
      AndZero(0);
    } else {
      LowAnd(x / 2, y / 2, k - 1);
      AndStep(x, y);
      LowHalf(x, k);
      LowHalf(y, k);
      AndStep(Low(x, k), Low(y, k));
    }
  }

  lemma LowHalf(x: nat, k: nat)
    requires k > 0
    ensures Low(x, k) / 2 == Low(x / 2, k - 1) && Low(x, k) % 2 == x % 2
  {
  }

  lemma AndZero(x: nat)
    ensures And(x, 0) == 0
  {
  }

  lemma OrZero()
    ensures Or(0, 0) == 0
  {
  }

  lemma AndStep(x: nat, y: nat)
    ensures And(x, y) / 2 == And(x / 2, y / 2)
    ensures And(x, y) % 2 == if x % 2 == 1 && y % 2 == 1 then 1 else 0
  {
  }

  lemma OrStep(x: nat, y: nat)
    ensures Or(x, y) / 2 == Or(x / 2, y / 2)
    ensures Or(x, y) % 2 == if x % 2 == 1 then 1 else y % 2
  {
  }

  /** The mask of a field that starts at the bit of weight p and holds numbers below w. */
  function MaskAt(p: nat, w: nat): nat
    requires w > 0
  {
    (w - 1) * p
  }

  /** The number in the field. */
  function FieldAt(x: nat, p: nat, w: nat): (f: nat)
    requires p > 0 && w > 0
    ensures f < w
  {
    x / p % w
  }

  /** A masked register is the number in the field, at the place of the field. */
  lemma {:induction false} FieldMask(x: nat, s: nat, n: nat)
    ensures And(x, MaskAt(Pow2(s), Pow2(n))) == FieldAt(x, Pow2(s), Pow2(n)) * Pow2(s)
    decreases s
  {
    var w := Pow2(n);
    if s == 0 {
      AndLow(x, n);
      LowIsMod(x, n);
    } else {
      var p := Pow2(s - 1);
      FieldMask(x / 2, s - 1, n);
      hide And, MaskAt, FieldAt;
      AndDouble(x, MaskAt(p, w));
      MaskDouble(p, w);
      FieldDouble(x, p, w);
      DoubleLast(FieldAt(x / 2, p, w), p);
    }
  }

  lemma AndDouble(x: nat, m: nat)
    ensures And(x, 2 * m) == 2 * And(x / 2, m)
  {
    AndStep(x, 2 * m);
  }

  lemma MaskDouble(p: nat, w: nat)
    requires w > 0
    ensures MaskAt(2 * p, w) == 2 * MaskAt(p, w)
  {
    DoubleLast(w - 1, p);
  }

  lemma FieldDouble(x: nat, p: nat, w: nat)
    requires p > 0 && w > 0
    ensures FieldAt(x, 2 * p, w) == FieldAt(x / 2, p, w)
  {
    HalfQuot(x, p);
  }

  lemma DoubleLast(a: nat, p: nat)
    ensures a * (2 * p) == 2 * (a * p)
  {
  }

  lemma HalfQuot(x: nat, p: nat)
    requires p > 0
    ensures x / 2 / p == x / (2 * p)
  {
    var q, r := x / 2 / p, x / 2 % p;
    assert x / 2 == q * p + r;
    assert x == q * (2 * p) + (2 * r + x % 2);
    ModIs(x, 2 * p, q, 2 * r + x % 2);
  }

  lemma Pow2Of32()
    ensures Pow2(32) == 0x1_0000_0000
  {
    assert Pow2(8) == 0x100;
    Pow2Split(8, 16);
    Pow2Split(16, 32);
  }

  lemma {:induction false} Pow2Split(a: nat, n: nat)
    requires a <= n
    ensures Pow2(n) == Pow2(n - a) * Pow2(a)
    decreases a
  {
    if a == 0 {
    } else {
      Pow2Split(a - 1, n - 1);
      DoubleLast(Pow2(n - a), Pow2(a - 1));
    }
  }

  lemma Pow2Below(a: nat, n: nat)
    requires a < n
    ensures Pow2(a) < Pow2(n)
    decreases n
  {
    if a < n - 1 { Pow2Below(a, n - 1); }
  }

  /** Shifts by the bits of a power of two. */
  function Shl(y: nat, p: nat): nat {
    y * p
  }

  function Shr(x: nat, p: nat): nat
    requires p > 0
  {
    x / p
  }

  /** A conjunction with a number shifted to the left. */
  lemma {:induction false} AndShifted(x: nat, y: nat, k: nat)
    ensures And(x, Shl(y, Pow2(k))) == Shl(And(Shr(x, Pow2(k)), y), Pow2(k))
    decreases k
  {
    if k == 0 {
    } else {
      AndShifted(x / 2, y, k - 1);
      AndShiftedOnce(x, y, Pow2(k - 1));
      hide And, Shl, Shr;
    }
  }

  lemma AndShiftedOnce(x: nat, y: nat, p: nat)
    requires p > 0 && And(x / 2, Shl(y, p)) == Shl(And(Shr(x / 2, p), y), p)
    ensures And(x, Shl(y, 2 * p)) == Shl(And(Shr(x, 2 * p), y), 2 * p)
  {
    hide And;
    DoubleLast(y, p);
    AndDouble(x, Shl(y, p));
    HalfQuot(x, p);
    DoubleLast(And(x / 2 / p, y), p);
  }

  /** Without a common bit a disjunction is a sum. */
  lemma {:induction false} OrIsSum(x: nat, y: nat)
    requires And(x, y) == 0
    ensures Or(x, y) == x + y
  {
    if x == 0 || y == 0 {
    } else {
      AndStep(x, y);
      OrIsSum(x / 2, y / 2);
    }
  }

  lemma {:induction false} AndSwap(x: nat, y: nat)
    ensures And(x, y) == And(y, x)
  {
    if x == 0 || y == 0 {
    } else {
      AndSwap(x / 2, y / 2);
    }
  }

  // ---------------------------------------------------------------------------------------------
  // Five-bit register fields
  // ---------------------------------------------------------------------------------------------

  /** A register in which the low five bits are cleared and `bits` are set. */
  function Set5(register: nat, bits: nat): nat {
    Or(And(register, 0xE0), bits)
  }

  /** Only the low five bits of what is stored reach the five-bit field. */
  lemma FieldOf(register: nat, bits: nat)
    ensures And(Set5(register, bits), 0x1F) == bits % 32
  {
    hide And, Or;
    var high := And(register, 0xE0);
    Mask5(Or(high, bits));
    Mask5(bits);
    OrLow(high, bits, 5);
    HighBits(register);
    OrWithZero(Low(bits, 5));
  }

  /** The three high bits stay, and the low five are the new ones. */
  lemma Set5Is(register: nat, bits: nat)
    requires register < 0x100 && bits < 32
    ensures Set5(register, bits) == register / 32 * 32 + bits
  {
    assert Pow2(8) == 0x100 && Pow2(5) == 32;
    AndHigh(register, 5, 8);
    LowIsMod(register, 5);
    var high := register / 32;
    assert And(register, 0xE0) == Shl(high, 32);
    AndShifted(bits, high, 5);
    assert Shr(bits, 32) == 0;
    AndSwap(bits, Shl(high, 32));
    OrIsSum(Shl(high, 32), bits);
  }

  lemma OrWithZero(x: nat)
    ensures Or(0, x) == x && Or(x, 0) == x
  {
  }

  lemma Mask5(x: nat)
    ensures And(x, 0x1F) == Low(x, 5) == x % 32
  {
    assert Pow2(5) == 32;
    AndLow(x, 5);
    LowIsMod(x, 5);
  }

  /** The mask of the three high bits clears the five low ones. */
  lemma HighBits(register: nat)
    ensures Low(And(register, 0xE0), 5) == 0
  {
    hide And;
    LowAnd(register, 0xE0, 5);
    assert Low(0xE0, 5) == 0;
    AndZero(Low(register, 5));
  }
}
