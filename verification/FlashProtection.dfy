/**
 FLASH_IsProtected of fsl_flash.c: the protection of a range, from the FPROT registers, one bit for each
 of 32 regions.
 */
module FlashProtection {
  import opened Machine
  import opened Bits
  import opened FlashImage
  import opened FlashDriver

  const REGIONS: nat := 32

  datatype State = Unprotected | Protected | Mixed

  /** Bit k of FPROT3 is region k, and so on to bit 7 of FPROT0; a cleared bit protects. */
  predicate IsProtectedRegion(fprot: seq<byte>, region: nat)
    requires |fprot| == 4 && region < REGIONS
  {
    fprot[3 - region / 8] / Pow2(region % 8) % 2 == 0
  }

  /** The four registers as one word; FPROT0 is the most significant. */
  function FprotWord(fprot: seq<byte>): nat
    requires |fprot| == 4
  {
    Word4(fprot[0], fprot[1], fprot[2], fprot[3])
  }

  function Word4(a: nat, b: nat, c: nat, d: nat): nat {
    a * 0x100_0000 + b * 0x1_0000 + c * 0x100 + d
  }

  /** Bit k of a word. */
  function BitAt(x: nat, k: nat): nat {
    Odd(x, Pow2(k))
  }

  function Odd(x: nat, d: nat): nat
    requires d > 0
  {
    x / d % 2
  }

  /** Each region is protected exactly when its bit of that word is clear. */
  lemma RegionBit(fprot: seq<byte>, region: nat)
    requires |fprot| == 4 && region < REGIONS
    ensures IsProtectedRegion(fprot, region) <==> BitAt(FprotWord(fprot), region) == 0
  {
    hide Pow2, Word4, BitAt;
    WordBit(fprot[0], fprot[1], fprot[2], fprot[3], region % 8);
    ByRegister(fprot, region);
    hide IsProtectedRegion;
  }

  lemma ByRegister(fprot: seq<byte>, region: nat)
    requires |fprot| == 4 && region < REGIONS
    ensures var b := region % 8;
            && IsProtectedRegion(fprot, region) <==>
               BitAt(if region < 8 then fprot[3] else if region < 16 then fprot[2] else if region < 24 then fprot[1] else fprot[0], b) == 0
    ensures var b := region % 8;
            region == if region < 8 then b else if region < 16 then 8 + b else if region < 24 then 16 + b else 24 + b
  {
    hide Pow2;
  }

  lemma WordBit(x0: byte, x1: byte, x2: byte, x3: byte, b: nat)
    requires b < 8
    ensures var word := Word4(x0, x1, x2, x3);
            && BitAt(word, b) == BitAt(x3, b) && BitAt(word, 8 + b) == BitAt(x2, b)
            && BitAt(word, 16 + b) == BitAt(x1, b) && BitAt(word, 24 + b) == BitAt(x0, b)
  {
    var a: nat, c: nat, d: nat, e: nat := x0, x1, x2, x3;
    assert Pow2(8) == 0x100 && Pow2(0) == 1;
    Pow2Split(8, 16);
    Pow2Split(8, 24);
    hide Pow2, BitAt;
    ByteBit(a * 0x1_0000 + c * 0x100 + d, x3, 0, 0, b);
    ByteBit(a * 0x100 + c, x2, e, 8, b);
    ByteBit(a, x1, d * 0x100 + e, 16, b);
    ByteBit(0, x0, c * 0x1_0000 + d * 0x100 + e, 24, b);
  }

  /** A bit of a byte in the middle of a word. */
  lemma ByteBit(high: nat, f: byte, low: nat, k: nat, b: nat)
    requires b < 8 && low < Pow2(k)
    ensures BitAt((high * 0x100 + f) * Pow2(k) + low, k + b) == BitAt(f, b)
  {
    hide Pow2, Odd;
    ByteOfBits(b);
    Pow2Split(b, k + b);
    assert k + b - b == k;
    MiddleByte(high, Pow2(7 - b), Pow2(b), f, Pow2(k), low, Pow2(k + b));
  }

  lemma ByteOfBits(b: nat)
    requires b < 8
    ensures 2 * Pow2(7 - b) * Pow2(b) == 0x100
  {
    assert Pow2(8) == 0x100;
    Pow2Split(b, 8);
    assert Pow2(8 - b) == 2 * Pow2(7 - b);
  }

  lemma MiddleByte(high: nat, half: nat, w: nat, f: nat, p: nat, low: nat, pw: nat)
    requires 0 < w && low < p && 2 * half * w == 0x100 && 0 < pw == p * w
    ensures Odd((high * 0x100 + f) * p + low, pw) == Odd(f, w)
  {
    var x, y := f / w, f % w;
    assert f == x * w + y;
    Spread(high, 2 * half, w, x, y, p, low);
    ModIs((high * 0x100 + f) * p + low, pw, high * (2 * half) + x, y * p + low);
    EvenPart(high, half, x);
  }

  lemma Spread(high: nat, e: nat, w: nat, x: nat, y: nat, p: nat, low: nat)
    requires y < w && low < p
    ensures (high * (e * w) + (x * w + y)) * p + low == (high * e + x) * (p * w) + (y * p + low)
    ensures y * p + low < p * w
  {
    MulLe(y + 1, w, p);
    assert high * (e * w) + x * w == (high * e + x) * w;
    assert (high * e + x) * w * p == (high * e + x) * (p * w);
    assert ((high * e + x) * w + y) * p == (high * e + x) * w * p + y * p;
  }

  lemma EvenPart(high: nat, half: nat, x: nat)
    ensures (high * (2 * half) + x) % 2 == x % 2
  {
    assert high * (2 * half) == 2 * (high * half);
  }

  /** flash_get_protection_info. */
  function RegionSize(c: Config): nat {
    if c.Total() > REGIONS * 1024 then c.Total() / REGIONS else 1024
  }

  /** The regions cover the flash. */
  lemma RegionsCover(c: Config)
    requires c.Valid()
    ensures 0 < RegionSize(c) <= 0x4_0000 && c.Total() <= REGIONS * RegionSize(c)
    ensures if c.Total() >= 0x8000 then c.Total() == 32 * RegionSize(c) else RegionSize(c) == 0x400
  {
    hide Pow2;
    Sizes(c);
    MultipleOf(c.Total(), c.Sector(), 1024);
    hide Config.Total, Config.Sector;
    ThirtySeconds(c.Total());
  }

  lemma ThirtySeconds(x: nat)
    requires Multiple(x, 1024)
    ensures x / 32 * 32 == x
  {
    ModIs(x, 32, 32 * (x / 1024), 0);
  }

  /** How many of the n regions from `first` on are protected. */
  function Count(fprot: seq<byte>, first: nat, n: nat): (k: nat)
    requires |fprot| == 4 && first + n <= REGIONS
    ensures k <= n
  {
    if n == 0 then 0 else Count(fprot, first, n - 1) + if IsProtectedRegion(fprot, first + n - 1) then 1 else 0
  }

  /** The state of n regions: none, all or some are protected. */
  predicate HasState(fprot: seq<byte>, first: nat, n: nat, state: State)
    requires |fprot| == 4 && first + n <= REGIONS
  {
    match state
    case Unprotected => forall i :: first <= i < first + n ==> !IsProtectedRegion(fprot, i)
    case Protected => n > 0 && forall i :: first <= i < first + n ==> IsProtectedRegion(fprot, i)
    case Mixed =>
      && (exists i :: first <= i < first + n && IsProtectedRegion(fprot, i))
      && (exists i :: first <= i < first + n && !IsProtectedRegion(fprot, i))
  }

  /** The two counters tell the state. */
  lemma {:induction false} CountTells(fprot: seq<byte>, first: nat, n: nat)
    requires |fprot| == 4 && first + n <= REGIONS
    ensures Count(fprot, first, n) == 0 <==> HasState(fprot, first, n, Unprotected)
    ensures Count(fprot, first, n) == n <==> forall i :: first <= i < first + n ==> IsProtectedRegion(fprot, i)
    decreases n
  {
    hide IsProtectedRegion;
    if n > 0 {
      CountTells(fprot, first, n - 1);
      assert IsProtectedRegion(fprot, first + n - 1) || !IsProtectedRegion(fprot, first + n - 1);
    }
  }

  lemma StateByCounts(fprot: seq<byte>, first: nat, n: nat)
    requires |fprot| == 4 && first + n <= REGIONS
    ensures var k := Count(fprot, first, n);
            HasState(fprot, first, n, if k == 0 then Unprotected else if k == n then Protected else Mixed)
  {
    hide IsProtectedRegion, Count;
    CountTells(fprot, first, n);
  }

  /**
   The program looks at one region for each region size in the range, from the region of `start` on. It never
   indexes past its two tables. The answer is right for the regions of the range exactly as `Right` says.
   Of a range that wraps round the address space it looks at no region, and calls it unprotected.
   */
  method IsProtected(c: Config, fprot: seq<byte>, start: uint32, length: uint32) returns (r: Status, state: State)
    requires c.Valid() && |fprot| == 4
    ensures r == CheckRange(c, start, length, WRITE_UNIT)
    ensures r == Success && start + length >= 0x1_0000_0000 ==> state == Unprotected
    ensures r == Success && start + length < 0x1_0000_0000 ==>
      var size := RegionSize(c);
      && size > 0 && c.base <= start
      && var a := start - c.base;
      && a + length <= REGIONS * size
      && Quot(a, size) + Steps(length, size) <= REGIONS
      && HasState(fprot, Quot(a, size), Steps(length, size), state)
      && (length > 0 ==>
            && Quot(a, size) + Intersecting(a, length, size) <= REGIONS
            && (HasState(fprot, Quot(a, size), Intersecting(a, length, size), state) <==> Right(fprot, a, length, size)))
  {
    hide Pow2, CheckRange, And, RegionSize, IsProtectedRegion, Count, HasState, Config.Total, Aligned, Times,
         Quot, Remainder, Right, Intersecting, Steps;
    state := Unprotected;
    CheckRangeAccepts(c, start, length, 3);
    SmallPowers();
    r := CheckRange(c, start, length, WRITE_UNIT);
    if r != Success {
      return;
    }
    RegionsCover(c);
    SmallTotal(c);
    var size := RegionSize(c);
    var endAddress := Wrap(start + length);
    var address := RegionAddresses(c.base, size);
    var status := RegionStatus(fprot);
    var first := Quot(start - c.base, size);
    FirstRegion(first, start - c.base, size);
    var checked, protected := CountRegions(address, status, c.base, size, start, endAddress, fprot, first);
    state := if protected == 0 then Unprotected else if protected == checked then Protected else Mixed;
    if start + length < 0x1_0000_0000 {
      StepsBy(length, size, checked);
      StateByCounts(fprot, first, checked);
      if length > 0 {
        AnswerRight(fprot, start - c.base, length, size, state);
      }
    }
  }

  /** The last loop of FLASH_IsProtected; a range that wraps ends before it starts. */
  method CountRegions(address: array<nat>, status: array<nat>, base: nat, size: nat, start: nat, endAddress: nat,
                      ghost fprot: seq<byte>, ghost first: nat)
    returns (checked: nat, protected: nat)
    requires |fprot| == 4 && size > 0 && base <= start
    requires start <= endAddress ==> first <= REGIONS && endAddress <= base + REGIONS * size
    requires Times(first, size) <= start - base < Times(first, size) + size
    requires address.Length == REGIONS + 1 && forall i :: 0 <= i <= REGIONS ==> address[i] == base + Times(i, size)
    requires status.Length == REGIONS
    requires forall i :: 0 <= i < REGIONS ==> (status[i] == 0 <==> IsProtectedRegion(fprot, i))
    ensures start > endAddress ==> checked == 0 && protected == 0
    ensures start <= endAddress ==> first + checked <= REGIONS && protected == Count(fprot, first, checked)
    ensures start <= endAddress ==> endAddress - start <= Times(checked, size)
    ensures checked > 0 ==> Times(checked, size) < endAddress - start + size
  {
    hide IsProtectedRegion, Count, Times;
    var regionCounter: nat := 0;
    var at := start;
    checked, protected := 0, 0;
    Times0(size);
    if start <= endAddress {
      CountZero(fprot, first);
    }
    while at < endAddress
      invariant regionCounter <= first + checked && (checked > 0 ==> regionCounter == first + checked)
      invariant at == start + Times(checked, size)
      invariant checked > 0 ==> at < endAddress + size
      invariant start > endAddress ==> checked == 0 && protected == 0
      invariant start <= endAddress ==> first + checked <= REGIONS && protected == Count(fprot, first, checked)
      decreases REGIONS + 1 - regionCounter
    {
      RegionOf(first, checked, regionCounter, start - base, size);
      if at >= address[regionCounter] && at < address[regionCounter + 1] {
        CountMore(fprot, first, checked);
        checked := checked + 1;
        if status[regionCounter] == 0 {
          protected := protected + 1;
        }
        at := at + size;
      }
      regionCounter := regionCounter + 1;
    }
  }

  /** A product, kept from the arithmetic of the verifier. */
  function Times(k: nat, size: nat): nat {
    k * size
  }

  lemma Times0(size: nat)
    ensures Times(0, size) == 0
  {
  }

  lemma FirstRegion(first: nat, a: nat, size: nat)
    requires 0 < size && first == Quot(a, size)
    ensures a <= REGIONS * size ==> first <= REGIONS
    ensures Times(first, size) <= a < Times(first, size) + size
  {
    QuotBounds(a, size);
    MulLe(REGIONS + 1, first, size);
  }

  lemma CountZero(fprot: seq<byte>, first: nat)
    requires |fprot| == 4 && first <= REGIONS
    ensures Count(fprot, first, 0) == 0
  {
  }

  lemma CountMore(fprot: seq<byte>, first: nat, n: nat)
    requires |fprot| == 4 && first + n < REGIONS
    ensures Count(fprot, first, n + 1) == Count(fprot, first, n) + if IsProtectedRegion(fprot, first + n) then 1 else 0
  {
  }

  /** How many steps of a region size it takes to get past a length. */
  function Steps(length: nat, size: nat): nat
    requires size > 0
  {
    Quot(length + size - 1, size)
  }

  lemma StepsBy(length: nat, size: nat, n: nat)
    requires size > 0 && Times(n, size) >= length && (n > 0 ==> Times(n, size) < length + size)
    ensures Steps(length, size) == n
  {
    QuotUnique(length + size - 1, size, n);
  }

  /** Region number k is the one at base + k * size, and the address is in region first + checked only. */
  lemma RegionOf(first: nat, checked: nat, counter: nat, a: nat, size: nat)
    requires Times(first, size) <= a < Times(first, size) + size && counter <= first + checked
    ensures Times(counter, size) <= a + Times(checked, size)
    ensures a + Times(checked, size) < Times(counter + 1, size) <==> counter == first + checked
    ensures Times(checked + 1, size) == Times(checked, size) + size
    ensures a + Times(checked, size) < REGIONS * size ==> first + checked < REGIONS
  {
    assert Times(first + checked, size) == Times(first, size) + Times(checked, size);
    MulLe(counter, first + checked, size);
    MulLe(counter + 1, first + checked, size);
    MulLe(REGIONS, first + checked, size);
  }

  /** The table of the region addresses, one past the last included. */
  method RegionAddresses(base: uint32, size: nat) returns (address: array<nat>)
    requires base + 33 * size < 0x1_0000_0000
    ensures fresh(address) && address.Length == REGIONS + 1
    ensures forall i :: 0 <= i <= REGIONS ==> address[i] == base + Times(i, size)
  {
    address := new nat[REGIONS + 1];
    var counter := 0;
    while counter <= REGIONS
      invariant 0 <= counter <= REGIONS + 1
      invariant forall i :: 0 <= i < counter ==> address[i] == base + Times(i, size)
    {
      MulLe(counter, 33, size);
      address[counter] := Wrap(base + size * counter);
      counter := counter + 1;
    }
  }

  /** The table of the status bits. */
  method RegionStatus(fprot: seq<byte>) returns (status: array<nat>)
    requires |fprot| == 4
    ensures fresh(status) && status.Length == REGIONS
    ensures forall i :: 0 <= i < REGIONS ==> (status[i] == 0 <==> IsProtectedRegion(fprot, i))
  {
    hide Pow2;
    status := new nat[REGIONS];
    var counter := 0;
    while counter < REGIONS
      invariant 0 <= counter <= REGIONS
      invariant forall i :: 0 <= i < counter ==> (status[i] == 0 <==> IsProtectedRegion(fprot, i))
    {
      if counter < 8 {
        status[counter] := fprot[3] / Pow2(counter) % 2;
      } else if counter >= 8 && counter < 16 {
        status[counter] := fprot[2] / Pow2(counter - 8) % 2;
      } else if counter >= 16 && counter < 24 {
        status[counter] := fprot[1] / Pow2(counter - 16) % 2;
      } else if counter >= 24 && counter < 32 {
        status[counter] := fprot[0] / Pow2(counter - 24) % 2;
      } else {
        break;
      }
      counter := counter + 1;
    }
  }

  // ---------------------------------------------------------------------------------------------
  // The regions of the range
  // ---------------------------------------------------------------------------------------------

  /** How many regions, from the one of `a` on, contain a byte of the range. */
  function Intersecting(a: nat, length: nat, size: nat): nat
    requires size > 0 && length > 0
  {
    SpanIsPositive(a, length, size);
    Quot(a + length - 1, size) - Quot(a, size) + 1
  }

  /**
   The regions the program looks at are those of the range exactly when the offsets of the first and the
   last byte, the latter from the end of whole regions, fit in one region; otherwise it misses the last.
   */
  lemma LooksAtIntersecting(a: nat, length: nat, size: nat)
    requires size > 0 && length > 0
    ensures Intersecting(a, length, size) ==
              if Remainder(a, size) + Remainder(length - 1, size) < size then Steps(length, size) else Steps(length, size) + 1
  {
    var p, q, s, t := Quot(a, size), Quot(length - 1, size), Remainder(a, size), Remainder(length - 1, size);
    Parts(a, size);
    Parts(length - 1, size);
    hide Quot, Remainder;
    OneMore(q, size);
    QuotUnique(length + size - 1, size, q + 1);
    Together(p, q, size);
    OneMore(p + q, size);
    if s + t < size {
      QuotUnique(a + length - 1, size, p + q);
    } else {
      QuotUnique(a + length - 1, size, p + q + 1);
    }
  }

  lemma Parts(x: nat, size: nat)
    requires size > 0
    ensures x == Quot(x, size) * size + Remainder(x, size)
  {
  }

  lemma Together(p: nat, q: nat, size: nat)
    ensures (p + q) * size == p * size + q * size
  {
  }

  lemma SpanIsPositive(a: nat, length: nat, size: nat)
    requires size > 0 && length > 0
    ensures Quot(a, size) <= Quot(a + length - 1, size)
  {
    hide Quot;
    QuotBounds(a, size);
    QuotAtLeast(a + length - 1, size, Quot(a, size));
  }

  /** At the start of a region the program looks at every region of the range, and no other. */
  lemma RegionAligned(a: nat, length: nat, size: nat)
    requires size > 0 && length > 0 && Remainder(a, size) == 0
    ensures Intersecting(a, length, size) == Steps(length, size)
  {
    LooksAtIntersecting(a, length, size);
  }

  predicate Alike(fprot: seq<byte>, i: nat, j: nat)
    requires |fprot| == 4 && i < REGIONS && j < REGIONS
  {
    IsProtectedRegion(fprot, i) <==> IsProtectedRegion(fprot, j)
  }

  predicate SomeAlike(fprot: seq<byte>, first: nat, last: nat)
    requires |fprot| == 4 && last < REGIONS
  {
    exists i :: first <= i < last && Alike(fprot, i, last)
  }

  /** When the last region is missed, the state is right exactly if some region looked at is like it. */
  lemma MissedRegion(fprot: seq<byte>, first: nat, n: nat, state: State)
    requires |fprot| == 4 && n > 0 && first + n + 1 <= REGIONS && HasState(fprot, first, n, state)
    ensures HasState(fprot, first, n + 1, state) <==> SomeAlike(fprot, first, first + n)
  {
    hide IsProtectedRegion;
    var last := first + n;
    match state
    case Unprotected => assert Alike(fprot, first, last) <==> !IsProtectedRegion(fprot, last);
    case Protected => assert Alike(fprot, first, last) <==> IsProtectedRegion(fprot, last);
    case Mixed =>
      var i :| first <= i < last && IsProtectedRegion(fprot, i);
      var j :| first <= j < last && !IsProtectedRegion(fprot, j);
      assert Alike(fprot, i, last) || Alike(fprot, j, last);
  }

  /**
   When FLASH_IsProtected is right: it looks at all regions of the range, or a region it looks at is protected
   like the last one, which it misses.
   */
  predicate Right(fprot: seq<byte>, a: nat, length: nat, size: nat)
    requires |fprot| == 4 && size > 0
  {
    var first, n := Quot(a, size), Steps(length, size);
    Remainder(a, size) + Remainder(if length > 0 then length - 1 else 0, size) < size
    || (first + n < REGIONS && SomeAlike(fprot, first, first + n))
  }

  /** Over all starts and lengths: the state of the regions looked at is that of the range exactly as `Right` says. */
  lemma AnswerRight(fprot: seq<byte>, a: nat, length: nat, size: nat, state: State)
    requires |fprot| == 4 && size > 0 && length > 0 && a + length <= REGIONS * size
    requires Quot(a, size) + Steps(length, size) <= REGIONS
    requires HasState(fprot, Quot(a, size), Steps(length, size), state)
    ensures Quot(a, size) + Intersecting(a, length, size) <= REGIONS
    ensures HasState(fprot, Quot(a, size), Intersecting(a, length, size), state) <==> Right(fprot, a, length, size)
  {
    hide IsProtectedRegion, HasState, Quot, Remainder, SomeAlike;
    LooksAtIntersecting(a, length, size);
    SpanIsPositive(a, length, size);
    QuotBelow(a + length - 1, size, REGIONS);
    SomeStep(length, size);
    hide Steps;
    if Remainder(a, size) + Remainder(length - 1, size) >= size {
      MissedRegion(fprot, Quot(a, size), Steps(length, size), state);
    }
  }

  lemma SomeStep(length: nat, size: nat)
    requires size > 0 && length > 0
    ensures Steps(length, size) > 0
  {
    QuotAtLeast(length + size - 1, size, 1);
  }

  lemma Mk64Regions()
    ensures RegionSize(MK64FN1M0) == 0x8000
  {
    hide Pow2;
    Mk64Sizes();
  }

  /**
   A wrong answer: of the 16 bytes around the end of the first region, with the second region protected, the
   program looks at the first region only. It calls them unprotected, while their protection is mixed.
   */
  method WrongAnswer() returns (r: Status, state: State)
    ensures r == Success && state == Unprotected
    ensures HasState([0xFF, 0xFF, 0xFF, 0xFD], 0, Intersecting(0x7FF8, 16, 0x8000), Mixed)
  {
    var fprot: seq<byte> := [0xFF, 0xFF, 0xFF, 0xFD];
    Mk64Sizes();
    Mk64Regions();
    SmallPowers();
    CheckRangeAccepts(MK64FN1M0, 0x7FF8, 16, 3);
    SecondRegion();
    var first := Quot(0x7FF8, 0x8000);
    assert first == 0 && Steps(16, 0x8000) == 1 && Intersecting(0x7FF8, 16, 0x8000) == 2;
    hide CheckRange, IsProtectedRegion, Config.Valid, Config.Total, RegionSize, Quot, Intersecting, Steps, Right, Pow2;
    r, state := IsProtected(MK64FN1M0, fprot, 0x7FF8, 16);
  }

  lemma SecondRegion()
    ensures !IsProtectedRegion([0xFF, 0xFF, 0xFF, 0xFD], 0) && IsProtectedRegion([0xFF, 0xFF, 0xFF, 0xFD], 1)
  {
    assert Pow2(0) == 1 && Pow2(1) == 2;
  }
}
