/**
 parse_hid_report_desc of dbg_lin.c: the report sizes of a HID report descriptor.

 A descriptor is a list of short items (USB HID 1.11, section 6.2.2.2): one prefix byte holding
 tag, type and data size, then 0, 1, 2 or 4 data bytes, least significant first.
 */
module HidParser {
  import opened Machine

  datatype Item = Item(tag: nat, kind: nat, data: seq<byte>) {
    predicate Valid() {
      tag < 16 && kind < 4 && |data| in {0, 1, 2, 4}
    }
  }

  /** `OutOfBuffer` stands for a read past the descriptor buffer, which C leaves undefined. */
  datatype Outcome = Size(size: nat) | Mismatch(input: nat, output: nat) | BadSize(detected: nat) | OutOfBuffer

  // ---------------------------------------------------------------------------------------------
  // The format
  // ---------------------------------------------------------------------------------------------

  function SizeCode(n: nat): nat {
    if n == 4 then 3 else n
  }

  function EncodeItem(i: Item): (r: seq<byte>)
    requires i.Valid()
    ensures |r| == 1 + |i.data|
  {
    [i.tag * 16 + i.kind * 4 + SizeCode(|i.data|)] + i.data
  }

  function Encode(items: seq<Item>): seq<byte>
    requires forall i | i in items :: i.Valid()
  {
    if items == [] then [] else EncodeItem(items[0]) + Encode(items[1..])
  }

  function LittleEndian(data: seq<byte>): nat {
    if data == [] then 0 else data[0] + 256 * LittleEndian(data[1..])
  }

  // ---------------------------------------------------------------------------------------------
  // The meaning of a descriptor
  // ---------------------------------------------------------------------------------------------

  predicate IsReportCount(i: Item) { i.kind == 1 && i.tag == 9 }
  predicate IsInput(i: Item) { i.kind == 0 && i.tag == 8 }
  predicate IsOutput(i: Item) { i.kind == 0 && i.tag == 9 }

  /** The value of the last Report Count item, zero when there is none. */
  function LastCount(items: seq<Item>): nat {
    if items == [] then 0
    else
      var last := items[|items| - 1];
      if IsReportCount(last) then LittleEndian(last.data) else LastCount(items[..|items| - 1])
  }

  /** The Report Count in force at the last item that satisfies `main`, zero when there is none. */
  function CountAtLast(items: seq<Item>, main: Item -> bool): nat {
    if items == [] then 0
    else
      var init := items[..|items| - 1];
      if main(items[|items| - 1]) then LastCount(init) else CountAtLast(init, main)
  }

  function Report(items: seq<Item>): Outcome {
    var input, output := CountAtLast(items, IsInput), CountAtLast(items, IsOutput);
    if input != output then Mismatch(input, output)
    else if input !in {64, 512, 1024} then BadSize(input)
    else Size(input)
  }

  // ---------------------------------------------------------------------------------------------
  // The parser
  // ---------------------------------------------------------------------------------------------

  /** The number of data bytes a prefix byte announces. */
  function DataSize(prefix: byte): nat {
    if prefix % 4 == 3 then 4 else prefix % 4
  }

  /** The place after the item that starts at `i`. */
  function Next(data: seq<byte>, i: nat): (r: nat)
    requires i < |data|
    ensures r > i
  {
    i + 1 + DataSize(data[i])
  }

  /** The item that starts at `i`; its data ends where the buffer ends. */
  function ItemAt(data: seq<byte>, i: nat): Item
    requires i < |data|
  {
    Item(data[i] / 16, data[i] / 4 % 4, data[i + 1..if Next(data, i) <= |data| then Next(data, i) else |data|])
  }

  /** The items that start at `i` or later and before `size`. */
  function Walk(data: seq<byte>, size: nat, i: nat): seq<Item>
    requires size <= |data|
    decreases size - i
  {
    if i >= size then [] else [ItemAt(data, i)] + Walk(data, size, Next(data, i))
  }

  /** Some Report Count item at or after `i` announces data that the buffer does not hold. */
  predicate Overruns(data: seq<byte>, size: nat, i: nat)
    requires size <= |data|
    decreases size - i
  {
    i < size && ((IsReportCount(ItemAt(data, i)) && Next(data, i) > |data|) || Overruns(data, size, Next(data, i)))
  }

  /** What the parser answers for a buffer whose first `size` bytes are the descriptor. */
  function Answer(data: seq<byte>, size: nat): Outcome
    requires size <= |data|
  {
    if Overruns(data, size, 0) then OutOfBuffer else Report(Walk(data, size, 0))
  }

  /** `count |= data[j] << (8 * j)` adds byte `j` to the value of the bytes below it. */
  lemma {:induction false} LittleEndianSnoc(data: seq<byte>, b: byte)
    ensures |data| == 0 ==> LittleEndian(data + [b]) == LittleEndian(data) + b
    ensures |data| == 1 ==> LittleEndian(data + [b]) == LittleEndian(data) + b * 0x100
    ensures |data| == 2 ==> LittleEndian(data + [b]) == LittleEndian(data) + b * 0x1_0000
    ensures |data| == 3 ==> LittleEndian(data + [b]) == LittleEndian(data) + b * 0x100_0000
    decreases |data|
  {
    if data != [] && |data| <= 3 {
      LittleEndianSnoc(data[1..], b);
      assert (data + [b])[1..] == data[1..] + [b];
    }
  }

  /** The weight of data byte `j` of an item. */
  function Weight(j: nat): nat {
    if j == 0 then 1 else if j == 1 then 0x100 else if j == 2 then 0x1_0000 else 0x100_0000
  }

  lemma Seen(seen: seq<Item>, item: Item)
    ensures LastCount(seen + [item]) == if IsReportCount(item) then LittleEndian(item.data) else LastCount(seen)
    ensures forall main: Item -> bool ::
              CountAtLast(seen + [item], main) == if main(item) then LastCount(seen) else CountAtLast(seen, main)
  {
    assert (seen + [item])[..|seen|] == seen;
  }

  lemma NothingSeen()
    ensures LastCount([]) == 0 && CountAtLast([], IsInput) == 0 && CountAtLast([], IsOutput) == 0
  {
  }

  lemma WalkEnds(data: seq<byte>, size: nat, i: nat)
    requires size <= |data| && size <= i
    ensures Walk(data, size, i) == [] && !Overruns(data, size, i)
  {
  }

  /** The inner loop: the value of a Report Count item. */
  method ReadCount(data: array<byte>, i: nat, bSize: nat) returns (count: nat)
    requires i + bSize <= data.Length && bSize <= 4
    ensures count == LittleEndian(data[i..i + bSize])
  {
    count := 0;
    var j := 0;
    while j < bSize
      invariant j <= bSize
      invariant count == LittleEndian(data[i..i + j])
    {
      LittleEndianSnoc(data[i..i + j], data[i + j]);
      assert data[i..i + j] + [data[i + j]] == data[i..i + j + 1];
      count := count + data[i + j] * Weight(j);
      j := j + 1;
    }
  }

  /** One turn of the parser's loop, as `Walk` and `Overruns` see it. */
  lemma WalkStep(data: seq<byte>, size: nat, i: nat)
    requires i < size <= |data|
    ensures Walk(data, size, i) == [ItemAt(data, i)] + Walk(data, size, Next(data, i))
    ensures Overruns(data, size, i) ==
            ((IsReportCount(ItemAt(data, i)) && Next(data, i) > |data|) || Overruns(data, size, Next(data, i)))
    ensures ItemAt(data, i).tag == data[i] / 16 % 16 && ItemAt(data, i).kind == data[i] / 4 % 4
    ensures Next(data, i) <= |data| ==> ItemAt(data, i).data == data[i + 1..Next(data, i)]
  {
  }

  /** The parser, over a buffer in which the descriptor takes the first `size` bytes. */
  method Parse(data: array<byte>, size: nat) returns (r: Outcome)
    requires size <= data.Length
    ensures r == Answer(data[..], size)
  {
    hide Walk, Overruns, ItemAt, LastCount, CountAtLast, LittleEndian;
    var count, input, output := 0, 0, 0;
    var i := 0;
    NothingSeen();
    ghost var seen: seq<Item> := [];
    while i < size
      invariant seen + Walk(data[..], size, i) == Walk(data[..], size, 0)
      invariant Overruns(data[..], size, i) == Overruns(data[..], size, 0)
      invariant count == LastCount(seen)
      invariant input == CountAtLast(seen, IsInput)
      invariant output == CountAtLast(seen, IsOutput)
      decreases size - i
    {
      ghost var item := ItemAt(data[..], i);
      ghost var next := Next(data[..], i);
      Seen(seen, item);
      WalkStep(data[..], size, i);
      assert seen + [item] + Walk(data[..], size, next) == seen + ([item] + Walk(data[..], size, next));
      var prefix := data[i];
      i := i + 1;
      var bTag := prefix / 16 % 16;
      var bType := prefix / 4 % 4;
      var bSize := prefix % 4;
      bSize := if bSize == 3 then 4 else bSize;

      if bType == 1 && bTag == 9 {
        if i + bSize > data.Length {
          return OutOfBuffer;
        }
        assert item.data == data[i..i + bSize];
        count := ReadCount(data, i, bSize);
      } else if bType == 0 && bTag == 8 {
        input := count;
      } else if bType == 0 && bTag == 9 {
        output := count;
      }

      i := i + bSize;
      seen := seen + [item];
    }
    WalkEnds(data[..], size, i);
    assert seen == Walk(data[..], size, 0);
    if input != output {
      return Mismatch(input, output);
    }
    if input != 64 && input != 512 && input != 1024 {
      return BadSize(input);
    }
    return Size(input);
  }

  // ---------------------------------------------------------------------------------------------
  // Round trip
  // ---------------------------------------------------------------------------------------------

  lemma PrefixFields(tag: nat, kind: nat, code: nat)
    requires tag < 16 && kind < 4 && code < 4
    ensures var p := tag * 16 + kind * 4 + code; p / 16 == tag && p / 4 % 4 == kind && p % 4 == code
  {
    assert (tag * 16 + kind * 4 + code) / 4 == tag * 4 + kind;
  }

  lemma DecodeItem(i: Item, data: seq<byte>, at: nat)
    requires i.Valid() && at + 1 + |i.data| <= |data|
    requires data[at..at + 1 + |i.data|] == EncodeItem(i)
    ensures ItemAt(data, at) == i && Next(data, at) == at + 1 + |i.data|
  {
    PrefixFields(i.tag, i.kind, SizeCode(|i.data|));
    var d := data[at..at + 1 + |i.data|];
    assert data[at] == d[0] && i.data == d[1..];
    assert data[at + 1..at + 1 + |i.data|] == d[1..];
  }

  lemma DecodeHead(i: Item, before: seq<byte>, code: seq<byte>, rest: seq<byte>, after: seq<byte>)
    requires i.Valid() && code == EncodeItem(i)
    ensures before + (code + rest) + after == (before + code) + rest + after
    ensures var data := before + (code + rest) + after;
            ItemAt(data, |before|) == i && Next(data, |before|) == |before + code|
  {
    hide ItemAt, Next, EncodeItem;
    var data := before + (code + rest) + after;
    assert data[|before|..|before| + |code|] == code;
    DecodeItem(i, data, |before|);
  }

  lemma WalkHead(data: seq<byte>, size: nat, at: nat, items: seq<Item>, next: nat)
    requires at < next <= size <= |data| && items != [] && ItemAt(data, at) == items[0] && Next(data, at) == next
    requires Walk(data, size, next) == items[1..] && !Overruns(data, size, next)
    ensures Walk(data, size, at) == items && !Overruns(data, size, at)
  {
    WalkStep(data, size, at);
    hide *;
    assert [items[0]] + items[1..] == items;
  }

  /** Walking over the encoding of a list of items sees exactly those items and stays in the buffer. */
  lemma {:induction false} WalkEncode(items: seq<Item>, before: seq<byte>, after: seq<byte>)
    requires forall i | i in items :: i.Valid()
    ensures var data := before + Encode(items) + after;
            var size := |before| + |Encode(items)|;
            Walk(data, size, |before|) == items && !Overruns(data, size, |before|)
    decreases |items|
  {
    if items == [] {
      WalkEnds(before + Encode(items) + after, |before|, |before|);
    } else {
      var code, rest := EncodeItem(items[0]), Encode(items[1..]);
      assert Encode(items) == code + rest;
      hide *;
      var data := before + Encode(items) + after;
      var next := before + code;
      DecodeHead(items[0], before, code, rest, after);
      WalkEncode(items[1..], next, after);
      assert data == next + rest + after;
      WalkHead(data, |before| + |Encode(items)|, |before|, items, |next|);
    }
  }

  /**
   Round trip: for every list of short items, whatever follows it in the buffer, the parser's answer
   is the report size those items describe.
   */
  lemma ParseEncode(items: seq<Item>, after: seq<byte>)
    requires forall i | i in items :: i.Valid()
    ensures var data := Encode(items) + after;
            !Overruns(data, |Encode(items)|, 0) && Walk(data, |Encode(items)|, 0) == items
    ensures Answer(Encode(items) + after, |Encode(items)|) == Report(items)
  {
    WalkEncode(items, [], after);
    assert [] + Encode(items) + after == Encode(items) + after;
  }

  // ---------------------------------------------------------------------------------------------
  // Which bytes, and which sizes
  // ---------------------------------------------------------------------------------------------

  /** The prefix bytes of the standard, without the two bits of the data size. */
  lemma Prefixes(i: Item)
    requires i.Valid()
    ensures IsReportCount(i) <==> EncodeItem(i)[0] / 4 == 0x25
    ensures IsInput(i) <==> EncodeItem(i)[0] / 4 == 0x20
    ensures IsOutput(i) <==> EncodeItem(i)[0] / 4 == 0x24
  {
  }

  /** The size of a report is the value of the last Report Count item before the last Input (Output) item. */
  lemma {:induction false} CountBeforeLast(items: seq<Item>, main: nat, m: nat, c: nat)
    requires c < m < |items| && main in {8, 9}
    requires items[m].kind == 0 && items[m].tag == main && items[c].kind == 1 && items[c].tag == 9
    requires forall k | m < k < |items| :: !(items[k].kind == 0 && items[k].tag == main)
    requires forall k | c < k < m :: !(items[k].kind == 1 && items[k].tag == 9)
    ensures CountAtLast(items, if main == 8 then IsInput else IsOutput) == LittleEndian(items[c].data)
    decreases |items|
  {
    if m == |items| - 1 {
      LastCountAt(items[..m], c);
    } else {
      CountBeforeLast(items[..|items| - 1], main, m, c);
    }
  }

  lemma {:induction false} LastCountAt(items: seq<Item>, c: nat)
    requires c < |items| && items[c].kind == 1 && items[c].tag == 9
    requires forall k | c < k < |items| :: !(items[k].kind == 1 && items[k].tag == 9)
    ensures LastCount(items) == LittleEndian(items[c].data)
    decreases |items|
  {
    if c < |items| - 1 {
      LastCountAt(items[..|items| - 1], c);
    }
  }

  function ByteAt(data: seq<byte>, k: nat): nat {
    if k < |data| then data[k] else 0
  }

  /** A number of up to four bytes, the least significant first. */
  lemma FourBytes(data: seq<byte>)
    requires |data| <= 4
    ensures LittleEndian(data) ==
            ByteAt(data, 0) + 0x100 * ByteAt(data, 1) + 0x1_0000 * ByteAt(data, 2) + 0x100_0000 * ByteAt(data, 3)
  {
    if data != [] {
      assert LittleEndian(data) == data[0] + 256 * LittleEndian(data[1..]);
      ThreeBytes(data[1..]);
    }
  }

  lemma ThreeBytes(data: seq<byte>)
    requires |data| <= 3
    ensures LittleEndian(data) == ByteAt(data, 0) + 0x100 * ByteAt(data, 1) + 0x1_0000 * ByteAt(data, 2)
  {
  }

  /**
   The answer for a descriptor, from the places of the last Input and the last Output item and of the Report Count
   items before them: a size if, and only if, both counts are this size and it is 64, 512 or 1024.
   */
  lemma SizeExactly(items: seq<Item>, after: seq<byte>, input: nat, inputCount: nat, output: nat, outputCount: nat, n: nat)
    requires forall i | i in items :: i.Valid()
    requires inputCount < input < |items| && outputCount < output < |items|
    requires items[input].kind == 0 && items[input].tag == 8 && items[output].kind == 0 && items[output].tag == 9
    requires items[inputCount].kind == 1 && items[inputCount].tag == 9
    requires items[outputCount].kind == 1 && items[outputCount].tag == 9
    requires forall k | input < k < |items| :: !(items[k].kind == 0 && items[k].tag == 8)
    requires forall k | output < k < |items| :: !(items[k].kind == 0 && items[k].tag == 9)
    requires forall k | inputCount < k < input || outputCount < k < output :: !(items[k].kind == 1 && items[k].tag == 9)
    ensures var r := Answer(Encode(items) + after, |Encode(items)|);
            var counted := LittleEndian(items[inputCount].data);
            && (r == Size(n) <==> counted == LittleEndian(items[outputCount].data) == n && n in {64, 512, 1024})
            && (r.Mismatch? <==> counted != LittleEndian(items[outputCount].data))
            && r != OutOfBuffer
  {
    ParseEncode(items, after);
    CountBeforeLast(items, 8, input, inputCount);
    CountBeforeLast(items, 9, output, outputCount);
  }

  /** A descriptor without an Input item, or without an Output item, has no size. */
  lemma NoReport(items: seq<Item>, after: seq<byte>, main: nat)
    requires (forall i | i in items :: i.Valid()) && main in {8, 9}
    requires forall i | i in items :: !(i.kind == 0 && i.tag == main)
    ensures !Answer(Encode(items) + after, |Encode(items)|).Size?
  {
    ParseEncode(items, after);
    NoCount(items, main);
  }

  lemma {:induction false} NoCount(items: seq<Item>, main: nat)
    requires main in {8, 9} && forall i | i in items :: !(i.kind == 0 && i.tag == main)
    ensures CountAtLast(items, if main == 8 then IsInput else IsOutput) == 0
    decreases |items|
  {
    if items != [] { NoCount(items[..|items| - 1], main); }
  }

  /** Input and output reports of 64 fields of eight bits. */
  method SixtyFour() returns (r: Outcome)
    ensures r == Size(64)
  {
    var data := new byte[][0x75, 0x08, 0x95, 0x40, 0x81, 0x02, 0x95, 0x40, 0x91, 0x02];
    assert data[..] == [0x75, 0x08, 0x95, 0x40, 0x81, 0x02, 0x95, 0x40, 0x91, 0x02];
    SixtyFourAnswers();
    hide Answer;
    r := Parse(data, 10);
  }

  lemma SixtyFourAnswers()
    ensures Answer([0x75, 0x08, 0x95, 0x40, 0x81, 0x02, 0x95, 0x40, 0x91, 0x02], 10) == Size(64)
  {
    var size, count := Item(7, 1, [0x08]), Item(9, 1, [0x40]);
    var input, output := Item(8, 0, [0x02]), Item(9, 0, [0x02]);
    var items := [size, count, input, count, output];
    EncodeFive(size, count, input, count, output);
    OneByteItem(7, 1, 0x08);
    OneByteItem(9, 1, 0x40);
    OneByteItem(8, 0, 0x02);
    OneByteItem(9, 0, 0x02);
    FourBytes([0x40]);
    hide Answer, Encode, EncodeItem, LittleEndian;
    var data: seq<byte> := [0x75, 0x08, 0x95, 0x40, 0x81, 0x02, 0x95, 0x40, 0x91, 0x02];
    assert Encode(items) == data && Encode(items) + [] == data;
    SizeExactly(items, [], 2, 1, 4, 3, 64);
  }

  lemma OneByteItem(tag: nat, kind: nat, b: byte)
    requires tag < 16 && kind < 4
    ensures EncodeItem(Item(tag, kind, [b])) == [tag * 16 + kind * 4 + 1, b]
  {
  }

  lemma EncodeFive(a: Item, b: Item, c: Item, d: Item, e: Item)
    requires a.Valid() && b.Valid() && c.Valid() && d.Valid() && e.Valid()
    ensures Encode([a, b, c, d, e]) == EncodeItem(a) + EncodeItem(b) + EncodeItem(c) + EncodeItem(d) + EncodeItem(e)
  {
    hide EncodeItem, Encode;
    assert [a] + [b, c, d, e] == [a, b, c, d, e] && [b] + [c, d, e] == [b, c, d, e] && [c] + [d, e] == [c, d, e];
    assert [d] + [e] == [d, e] && [e] + [] == [e];
    EncodeFirst(a, [b, c, d, e]);
    EncodeFirst(b, [c, d, e]);
    EncodeFirst(c, [d, e]);
    EncodeFirst(d, [e]);
    EncodeFirst(e, []);
    FiveJoined(EncodeItem(a), EncodeItem(b), EncodeItem(c), EncodeItem(d), EncodeItem(e));
  }

  lemma FiveJoined(a: seq<byte>, b: seq<byte>, c: seq<byte>, d: seq<byte>, e: seq<byte>)
    ensures a + (b + (c + (d + (e + [])))) == a + b + c + d + e
  {
    assert e + [] == e;
  }

  lemma EncodeFirst(i: Item, rest: seq<Item>)
    requires i.Valid() && forall r | r in rest :: r.Valid()
    ensures Encode([i] + rest) == EncodeItem(i) + Encode(rest) && Encode([]) == []
  {
    hide EncodeItem;
    assert ([i] + rest)[1..] == rest;
  }
}
