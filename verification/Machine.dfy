/** Fixed-width values of the C programs, as ranges of the integers. */
module Machine {

  type byte = x: int | 0 <= x < 0x100
  type uint16 = x: int | 0 <= x < 0x1_0000
  type uint32 = x: int | 0 <= x < 0x1_0000_0000

  datatype Option<+T> = None | Some(value: T)

  /** Reduction of an unsigned 32-bit expression. */
  function Wrap(x: int): (r: uint32) {
    x % 0x1_0000_0000
  }

  lemma WrapSmall(x: nat)
    ensures x < 0x1_0000_0000 ==> Wrap(x) == x
  {
  }

  /** The quotient of two unsigned numbers. */
  function Quot(n: nat, d: nat): nat
    requires d > 0
  {
    n / d
  }

  lemma MulLe(a: nat, b: nat, c: nat)
    ensures a <= b ==> a * c <= b * c
  {
  }

  lemma QuotBounds(n: nat, d: nat)
    requires d > 0
    ensures Quot(n, d) * d <= n < Quot(n, d) * d + d
  {
    assert n == n / d * d + n % d;
  }

  lemma QuotUnique(n: nat, d: nat, q: nat)
    requires d > 0 && q * d <= n < q * d + d
    ensures Quot(n, d) == q
  {
    hide Quot;
    var k := Quot(n, d);
    QuotBounds(n, d);
    MulLe(k + 1, q, d);
    MulLe(q + 1, k, d);
  }

  lemma QuotAtLeast(n: nat, d: nat, m: nat)
    requires d > 0 && m * d <= n
    ensures Quot(n, d) >= m
  {
    hide Quot;
    QuotBounds(n, d);
    MulLe(Quot(n, d) + 1, m, d);
  }

  lemma QuotBelow(n: nat, d: nat, m: nat)
    requires d > 0
    ensures Quot(n, d) < m <==> n < m * d
  {
    hide Quot;
    var q := Quot(n, d);
    QuotBounds(n, d);
    MulLe(m, q, d);
    MulLe(q + 1, m, d);
    MulNext(q, d);
  }

  lemma MulNext(a: nat, b: nat)
    ensures (a + 1) * b == a * b + b
  {
  }

  function Min(a: nat, b: nat): nat { if a < b then a else b }

  function Distance(a: nat, b: nat): nat {
    if a > b then a - b else b - a
  }

  lemma DistanceAbove(a: nat, b: nat)
    ensures a >= b ==> Distance(a, b) == a - b
  {
  }

  /** Pieces one after the other. */
  function Flat(pieces: seq<seq<byte>>): seq<byte> {
    if pieces == [] then [] else Flat(pieces[..|pieces| - 1]) + pieces[|pieces| - 1]
  }

  lemma FlatSnoc(pieces: seq<seq<byte>>, p: seq<byte>)
    ensures Flat(pieces + [p]) == Flat(pieces) + p
  {
    assert (pieces + [p])[..|pieces|] == pieces;
  }
}
