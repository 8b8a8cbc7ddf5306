/**
 The memory accesses of dap.c: register and word transfers and block transfers, packed into CMSIS-DAP
 packets for an adapter that drives a MEM-AP with 32-bit accesses and single auto-increment.

 The adapter and the port are modelled by `Execute`, which answers each request correctly; the bus behind
 the port is a parameter. By the ARM Debug Interface v5 (IHI 0031), section "Auto-incrementing the Transfer
 Address Register (TAR)", the increment is guaranteed for the low ten bits only, so here it wraps there.
 */
module Dap {
  import opened Machine
  import opened Bits

  const ID_DAP_TRANSFER: byte := 0x05
  const ID_DAP_TRANSFER_BLOCK: byte := 0x06
  const DAP_TRANSFER_OK: byte := 1
  const SWD_AP_TAR: byte := 0x05
  const SWD_AP_DRW: byte := 0x0D
  /** SWD_AP_DRW | DAP_TRANSFER_RnW. */
  const SWD_AP_DRW_READ: byte := 0x0F

  /** What is behind the memory port: a read may change the state, as that of a status register does. */
  datatype Bus<!S> = Bus(write: (S, uint32, uint32) -> S, read: (S, uint32) -> (uint32, S))

  /** The state behind the port and its Transfer Address Register. */
  datatype Link<S> = Link(state: S, tar: uint32)

  // ---------------------------------------------------------------------------------------------
  // Words and bytes
  // ---------------------------------------------------------------------------------------------

  /** A whole number of words. */
  predicate Whole(x: int) {
    x % 4 == 0
  }

  /** Four bytes, the least significant first. */
  function FromBytes(b0: int, b1: int, b2: int, b3: int): int {
    b0 + 0x100 * b1 + 0x1_0000 * b2 + 0x100_0000 * b3
  }

  function Word(b: seq<byte>): uint32
    requires |b| == 4
  {
    FromBytes(b[0], b[1], b[2], b[3])
  }

  function WordBytes(w: uint32): (b: seq<byte>)
    ensures |b| == 4
  {
    [w % 0x100, w / 0x100 % 0x100, w / 0x1_0000 % 0x100, w / 0x100_0000]
  }

  lemma WordOfBytes(w: uint32)
    ensures Word(WordBytes(w)) == w
  {
    var q1 := w / 0x100;
    var q2 := q1 / 0x100;
    var q3 := q2 / 0x100;
    assert w == 0x100 * q1 + w % 0x100 && q1 == 0x100 * q2 + q1 % 0x100 && q2 == 0x100 * q3 + q2 % 0x100;
    ModIs(w, 0x1_0000, q2, 0x100 * (q1 % 0x100) + w % 0x100);
    ModIs(w, 0x100_0000, q3, 0x1_0000 * (q2 % 0x100) + 0x100 * (q1 % 0x100) + w % 0x100);
  }

  lemma BytesOfWord(b: seq<byte>)
    requires |b| == 4
    ensures WordBytes(Word(b)) == b
  {
    BytesBack(b[0], b[1], b[2], b[3]);
  }

  lemma BytesBack(b0: nat, b1: nat, b2: nat, b3: nat)
    requires b0 < 0x100 && b1 < 0x100 && b2 < 0x100
    ensures var w := FromBytes(b0, b1, b2, b3);
            w % 0x100 == b0 && w / 0x100 % 0x100 == b1 && w / 0x1_0000 % 0x100 == b2 && w / 0x100_0000 == b3
  {
    var w := FromBytes(b0, b1, b2, b3);
    ModIs(w, 0x100, b1 + 0x100 * b2 + 0x1_0000 * b3, b0);
    ModIs(w, 0x1_0000, b2 + 0x100 * b3, b0 + 0x100 * b1);
    ModIs(w, 0x100_0000, b3, b0 + 0x100 * b1 + 0x1_0000 * b2);
  }

  // ---------------------------------------------------------------------------------------------
  // The adapter and the memory port
  // ---------------------------------------------------------------------------------------------

  function NextTar(tar: uint32): uint32 {
    tar - tar % 0x400 + (tar % 0x400 + 4) % 0x400
  }

  function WriteDrw<S>(bus: Bus<S>, l: Link<S>, w: uint32): Link<S> {
    Link(bus.write(l.state, l.tar, w), NextTar(l.tar))
  }

  function WriteDrws<S>(bus: Bus<S>, l: Link<S>, data: seq<byte>): Link<S>
    decreases |data|
  {
    if |data| < 4 then l else WriteDrws(bus, WriteDrw(bus, l, Word(data[..4])), data[4..])
  }

  function ReadDrws<S>(bus: Bus<S>, l: Link<S>, n: nat): (Link<S>, seq<byte>)
    decreases n
  {
    if n == 0 then (l, [])
    else
      var (w, s) := bus.read(l.state, l.tar);
      var (end, rest) := ReadDrws(bus, Link(s, NextTar(l.tar)), n - 1);
      (end, WordBytes(w) + rest)
  }

  function Count(low: int, high: int): int { low + 0x100 * high }

  /** A request of the program and its answer, the latter without the command byte. */
  function Execute<S>(bus: Bus<S>, l: Link<S>, q: seq<byte>): Option<(Link<S>, seq<byte>)> {
    if |q| >= 4 && q[0] == ID_DAP_TRANSFER && q[1] == 0 && q[2] == 1 then
      if q[3] == SWD_AP_TAR && |q| == 8 then
        Some((l.(tar := Word(q[4..])), [1, DAP_TRANSFER_OK]))
      else if q[3] == SWD_AP_DRW && |q| == 8 then
        Some((WriteDrw(bus, l, Word(q[4..])), [1, DAP_TRANSFER_OK]))
      else if q[3] == SWD_AP_DRW_READ && |q| == 4 then
        var (end, data) := ReadDrws(bus, l, 1);
        Some((end, [1, DAP_TRANSFER_OK] + data))
      else None
    else if |q| >= 5 && q[0] == ID_DAP_TRANSFER_BLOCK && q[1] == 0 then
      var n := Count(q[2], q[3]);
      if q[4] == SWD_AP_DRW && |q| == 5 + 4 * n then
        Some((WriteDrws(bus, l, q[5..]), [q[2], q[3], DAP_TRANSFER_OK]))
      else if q[4] == SWD_AP_DRW_READ && |q| == 5 then
        var (end, data) := ReadDrws(bus, l, n);
        Some((end, [q[2], q[3], DAP_TRANSFER_OK] + data))
      else None
    else None
  }

  // ---------------------------------------------------------------------------------------------
  // What the program wants: words at consecutive addresses
  // ---------------------------------------------------------------------------------------------

  function WriteAll<S>(bus: Bus<S>, s: S, addr: nat, data: seq<byte>): S
    decreases |data|
  {
    if |data| < 4 then s else WriteAll(bus, bus.write(s, Wrap(addr), Word(data[..4])), addr + 4, data[4..])
  }

  function ReadAll<S>(bus: Bus<S>, s: S, addr: nat, n: nat): (r: (S, seq<byte>))
    ensures |r.1| == 4 * n
    decreases n
  {
    if n == 0 then (s, [])
    else
      var (w, t) := bus.read(s, Wrap(addr));
      var (end, rest) := ReadAll(bus, t, addr + 4, n - 1);
      (end, WordBytes(w) + rest)
  }

  lemma InWindow(tar: uint32, size: nat)
    requires size >= 4 && Whole(tar) && tar % 0x400 + size <= 0x400 && tar + size <= 0x1_0000_0000
    ensures size > 4 ==> NextTar(tar) == tar + 4 && Whole(NextTar(tar)) && NextTar(tar) % 0x400 + (size - 4) <= 0x400
  {
    if size > 4 {
      hide Whole;
      var q, r := tar / 0x400, tar % 0x400;
      ModIs(r + 4, 0x400, 0, r + 4);
      ModIs(tar + 4, 0x400, q, r + 4);
      WholeFour();
      WholeSum(tar, 4);
    }
  }

  lemma WholeFour()
    ensures Whole(4)
  {
  }

  /** Inside a 1 KB window the increment of TAR gives consecutive addresses. */
  lemma {:induction false} WriteWindow<S>(bus: Bus<S>, l: Link<S>, data: seq<byte>)
    requires Whole(l.tar) && Whole(|data|) && l.tar % 0x400 + |data| <= 0x400 && l.tar + |data| <= 0x1_0000_0000
    ensures WriteDrws(bus, l, data).state == WriteAll(bus, l.state, l.tar, data)
    decreases |data|
  {
    hide NextTar, Word;
    if |data| >= 4 {
      InWindow(l.tar, |data|);
      if |data| > 4 {
        WriteWindow(bus, WriteDrw(bus, l, Word(data[..4])), data[4..]);
      }
    }
  }

  lemma {:induction false} ReadWindow<S>(bus: Bus<S>, l: Link<S>, n: nat)
    requires Whole(l.tar) && l.tar % 0x400 + 4 * n <= 0x400 && l.tar + 4 * n <= 0x1_0000_0000
    ensures var (end, data) := ReadDrws(bus, l, n); (end.state, data) == ReadAll(bus, l.state, l.tar, n)
    decreases n
  {
    hide NextTar, WordBytes;
    if n > 0 {
      InWindow(l.tar, 4 * n);
      if n > 1 {
        ReadWindow(bus, Link(bus.read(l.state, l.tar).1, NextTar(l.tar)), n - 1);
      }
    }
  }

  lemma {:induction false} WriteAllJoin<S>(bus: Bus<S>, s: S, addr: nat, d: seq<byte>, e: seq<byte>)
    requires Whole(|d|)
    ensures WriteAll(bus, s, addr, d + e) == WriteAll(bus, WriteAll(bus, s, addr, d), addr + |d|, e)
    decreases |d|
  {
    hide Word;
    if d == [] {
      assert d + e == e;
    } else {
      assert (d + e)[..4] == d[..4] && (d + e)[4..] == d[4..] + e;
      WriteAllJoin(bus, bus.write(s, Wrap(addr), Word(d[..4])), addr + 4, d[4..], e);
    }
  }

  lemma {:induction false} ReadAllJoin<S>(bus: Bus<S>, s: S, addr: nat, m: nat, n: nat)
    ensures var (mid, d) := ReadAll(bus, s, addr, m);
            var (end, e) := ReadAll(bus, mid, addr + 4 * m, n);
            ReadAll(bus, s, addr, m + n) == (end, d + e)
    decreases m
  {
    hide WordBytes;
    if m == 0 {
      var (end, e) := ReadAll(bus, s, addr, n);
      assert [] + e == e;
    } else {
      var (w, t) := bus.read(s, Wrap(addr));
      ReadAllJoin(bus, t, addr + 4, m - 1, n);
      var (mid, d) := ReadAll(bus, t, addr + 4, m - 1);
      var (end, e) := ReadAll(bus, mid, addr + 4 * m, n);
      assert WordBytes(w) + (d + e) == WordBytes(w) + d + e;
    }
  }

  /** A buffer in which `d` has been stored from index `from` on. */
  function Spliced(s: seq<byte>, from: nat, d: seq<byte>): (r: seq<byte>)
    requires from + |d| <= |s|
    ensures |r| == |s|
  {
    s[..from] + d + s[from + |d|..]
  }

  // ---------------------------------------------------------------------------------------------
  // The program
  // ---------------------------------------------------------------------------------------------

  /** dap.c for one adapter; `reportSize` is the report size found in the HID descriptor. */
  class Dap<S> {
    const bus: Bus<S>
    const reportSize: nat
    var link: Link<S>

    constructor (bus: Bus<S>, reportSize: nat, link: Link<S>)
      ensures this.bus == bus && this.reportSize == reportSize && this.link == link
    {
      this.bus := bus;
      this.reportSize := reportSize;
      this.link := link;
    }

    /** A report must hold a word and its header, and the 1024-byte packet buffer a whole report. */
    predicate Valid() { 9 <= reportSize <= 1024 }

    /**
     dbg_dap_cmd: the request is sent in a report, and as much of the answer as `buf` has room for is copied
     back. It must be a request the adapter knows, and request and answer must fit a report.
     */
    method Cmd(buf: array<byte>, rsize: nat)
      requires rsize <= buf.Length && rsize <= reportSize
      requires Execute(bus, link, buf[..rsize]).Some?
      requires |Execute(bus, link, buf[..rsize]).value.1| + 1 <= reportSize
      modifies buf, this`link
      ensures var (end, answer) := old(Execute(bus, link, buf[..rsize]).value);
              && link == end
              && (|answer| <= buf.Length ==> buf[..|answer|] == answer)
    {
      hide Execute;
      var (end, answer) := Execute(bus, link, buf[..rsize]).value;
      link := end;
      var n := if buf.Length < |answer| then buf.Length else |answer|;
      forall i | 0 <= i < n { buf[i] := answer[i]; }
    }

    /** dap_write_reg. */
    method WriteReg(reg: byte, data: uint32)
      requires Valid() && reg in {SWD_AP_TAR, SWD_AP_DRW}
      modifies this`link
      ensures link == if reg == SWD_AP_TAR then old(link).(tar := data) else WriteDrw(bus, old(link), data)
    {
      var buf := new byte[8];
      buf[0] := ID_DAP_TRANSFER;
      buf[1] := 0;
      buf[2] := 1;
      buf[3] := reg;
      buf[4] := data % 0x100;
      buf[5] := data / 0x100 % 0x100;
      buf[6] := data / 0x1_0000 % 0x100;
      buf[7] := data / 0x100_0000 % 0x100;
      ghost var request := buf[..8];
      assert request[..4] == [ID_DAP_TRANSFER, 0, 1, reg] && request[4..] == WordBytes(data);
      hide WriteDrw, Word, WordBytes;
      TransferRequest(bus, link, request, reg, data);
      hide Execute;
      Cmd(buf, 8);
      // otherwise the program exits
      assert buf[..2] == [1, DAP_TRANSFER_OK] && buf[0] == 1 && buf[1] == DAP_TRANSFER_OK;
    }

    /** dap_read_reg, for the data register. */
    method ReadReg(reg: byte) returns (w: uint32)
      requires Valid() && reg == SWD_AP_DRW
      modifies this`link
      ensures (w, link.state) == bus.read(old(link.state), old(link.tar)) && link.tar == NextTar(old(link.tar))
    {
      var buf := new byte[8];
      buf[0] := ID_DAP_TRANSFER;
      buf[1] := 0;
      buf[2] := 1;
      buf[3] := SWD_AP_DRW_READ;
      hide Word, WordBytes, NextTar;
      ReadRequest(bus, link, buf[..4]);
      hide Execute;
      Cmd(buf, 4);
      ghost var answer := buf[..6];
      // otherwise the program exits
      assert buf[0] == answer[0] == 1 && buf[1] == answer[1] == DAP_TRANSFER_OK;
      assert buf[2..6] == answer[2..6];
      WordOfBytes(bus.read(old(link.state), old(link.tar)).0);
      hide Execute, FromBytes;
      WordAt(buf[2..6]);
      w := FromBytes(buf[2], buf[3], buf[4], buf[5]);
    }

    /** dap_write_word. */
    method WriteWord(addr: uint32, data: uint32)
      requires Valid()
      modifies this`link
      ensures link.state == bus.write(old(link.state), addr, data)
    {
      WriteReg(SWD_AP_TAR, addr);
      WriteReg(SWD_AP_DRW, data);
    }

    /** dap_read_word. */
    method ReadWord(addr: uint32) returns (w: uint32)
      requires Valid()
      modifies this`link
      ensures (w, link.state) == bus.read(old(link.state), addr)
    {
      WriteReg(SWD_AP_TAR, addr);
      w := ReadReg(SWD_AP_DRW);
    }

    /** One packet of dap_write_block. */
    method WriteChunk(data: array<byte>, from: nat, sz: nat)
      requires Valid() && 0 < sz && Whole(sz) && 5 + sz <= reportSize && from + sz <= data.Length
      modifies this`link
      ensures link == WriteDrws(bus, old(link), data[from..from + sz])
    {
      var buf := new byte[1024];
      buf[0] := ID_DAP_TRANSFER_BLOCK;
      buf[1] := 0;
      buf[2] := sz / 4 % 0x100;
      buf[3] := sz / 4 / 0x100 % 0x100;
      buf[4] := SWD_AP_DRW;
      forall i | 0 <= i < sz { buf[5 + i] := data[from + i]; }
      hide WriteDrws, Word, Execute, Whole;
      ghost var request := buf[..5 + sz];
      assert request[5..] == data[from..from + sz];
      assert request[0] == ID_DAP_TRANSFER_BLOCK && request[1] == 0 && request[4] == SWD_AP_DRW;
      assert request[2] == sz / 4 % 0x100 && request[3] == sz / 4 / 0x100 % 0x100;
      BlockWriteRequest(bus, link, request, sz);
      Cmd(buf, 5 + sz);
      // otherwise the program exits
      assert buf[..3][2] == buf[2] == DAP_TRANSFER_OK;
    }

    /** One packet of dap_read_block, up to the answer. */
    method FetchChunk(sz: nat) returns (buf: array<byte>)
      requires Valid() && 0 < sz && Whole(sz) && 4 + sz <= reportSize
      modifies this`link
      ensures fresh(buf) && buf.Length == 1024
      ensures (link, buf[3..3 + sz]) == ReadDrws(bus, old(link), sz / 4)
    {
      buf := new byte[1024];
      buf[0] := ID_DAP_TRANSFER_BLOCK;
      buf[1] := 0;
      buf[2] := sz / 4 % 0x100;
      buf[3] := sz / 4 / 0x100 % 0x100;
      buf[4] := SWD_AP_DRW_READ;
      hide ReadDrws, Word;
      BlockReadRequest(bus, link, buf[..5], sz);
      ghost var low, high, got := buf[2], buf[3], ReadDrws(bus, link, sz / 4).1;
      hide Execute;
      Cmd(buf, 5);
      ghost var answer := buf[..3 + sz];
      // otherwise the program exits
      assert answer[2] == buf[2] == DAP_TRANSFER_OK;
      AnswerData(answer, low, high, got);
      assert buf[3..3 + sz] == answer[3..];
    }

    /** One packet of dap_read_block. */
    method ReadChunk(data: array<byte>, from: nat, sz: nat)
      requires Valid() && 0 < sz && Whole(sz) && 4 + sz <= reportSize && from + sz <= data.Length
      modifies this`link, data
      ensures var (end, got) := ReadDrws(bus, old(link), sz / 4);
              link == end && |got| == sz && data[..] == Spliced(old(data[..]), from, got)
    {
      hide ReadDrws;
      var buf := FetchChunk(sz);
      ghost var packet := buf[3..3 + sz];
      forall i | 0 <= i < sz { data[from + i] := buf[3 + i]; }
      assert data[from..from + sz] == packet && data[..from] == old(data[..from]);
      assert data[..] == Spliced(old(data[..]), from, packet);
    }

    /** dap_write_block: the words of data[from..from + size], at consecutive addresses, in order. */
    method WriteBlock(addr: uint32, data: array<byte>, from: nat, size: nat)
      requires Valid() && Whole(addr) && Whole(size) && addr + size <= 0x1_0000_0000 && from + size <= data.Length
      modifies this`link
      ensures link.state == WriteAll(bus, old(link.state), addr, data[from..from + size])
    {
      hide WriteAll, WriteDrws, And, Whole;
      var maxSize: nat := And(reportSize - 5, 0xFFFF_FFFC);
      var at: nat, remaining: nat, offs: nat := addr, size, 0;
      ghost var all := data[from..from + size];
      NothingWritten(bus, link.state, addr, all);
      WholeNone();
      while remaining > 0
        invariant at == addr + offs && offs + remaining == size && Whole(remaining) && Whole(at) && Whole(offs)
        invariant link.state == WriteAll(bus, old(link.state), addr, all[..offs])
      {
        var align: int := 0x400 - (at - And(at, 0xFFFF_FC00));
        var sz: nat := if remaining > maxSize then maxSize else remaining;
        ChunkFits(reportSize, at, remaining);
        sz := if sz > align then align else sz;
        WholeSum(offs, sz);
        ghost var before := link;
        WriteReg(SWD_AP_TAR, at);
        WriteChunk(data, from + offs, sz);
        WriteWindow(bus, Link(before.state, at), data[from + offs..from + offs + sz]);
        WrittenSoFar(bus, old(link.state), before.state, addr, all, offs, sz);
        assert data[from + offs..from + offs + sz] == all[offs..offs + sz];
        remaining := remaining - sz;
        at := at + sz;
        offs := offs + sz;
      }
      assert all[..size] == all;
    }

    /** dap_read_block: the words at consecutive addresses, in order, into data[from..from + size]. */
    method ReadBlock(addr: uint32, data: array<byte>, from: nat, size: nat)
      requires Valid() && Whole(addr) && Whole(size) && addr + size <= 0x1_0000_0000 && from + size <= data.Length
      modifies this`link, data
      ensures var (end, got) := ReadAll(bus, old(link.state), addr, size / 4);
              link.state == end && |got| == size && data[..] == Spliced(old(data[..]), from, got)
    {
      hide ReadAll, ReadDrws, And, Whole, Spliced;
      var maxSize: nat := And(reportSize - 5, 0xFFFF_FFFC);
      var at: nat, remaining: nat, offs: nat := addr, size, 0;
      NothingRead(bus, link.state, addr);
      WholeNone();
      SplicedNothing(data[..], from);
      while remaining > 0
        invariant at == addr + offs && offs + remaining == size && Whole(remaining) && Whole(at) && Whole(offs)
        invariant var (mid, got) := ReadAll(bus, old(link.state), addr, offs / 4);
                  link.state == mid && |got| == offs && data[..] == Spliced(old(data[..]), from, got)
      {
        var align: int := 0x400 - (at - And(at, 0xFFFF_FC00));
        var sz: nat := if remaining > maxSize then maxSize else remaining;
        ChunkFits(reportSize, at, remaining);
        sz := if sz > align then align else sz;
        WholeSum(offs, sz);
        ghost var before := link;
        WriteReg(SWD_AP_TAR, at);
        ReadChunk(data, from + offs, sz);
        ReadWindow(bus, Link(before.state, at), sz / 4);
        ReadSoFar(bus, old(link.state), addr, offs, sz);
        SplicedTwice(old(data[..]), from, ReadAll(bus, old(link.state), addr, offs / 4).1, ReadAll(bus, before.state, at, sz / 4).1);
        remaining := remaining - sz;
        at := at + sz;
        offs := offs + sz;
      }
    }
  }

  // ---------------------------------------------------------------------------------------------
  // Packets
  // ---------------------------------------------------------------------------------------------

  lemma TransferRequest<S>(bus: Bus<S>, l: Link<S>, q: seq<byte>, reg: byte, data: uint32)
    requires |q| == 8 && q[..4] == [ID_DAP_TRANSFER, 0, 1, reg] && q[4..] == WordBytes(data)
    requires reg in {SWD_AP_TAR, SWD_AP_DRW}
    ensures Execute(bus, l, q) ==
              Some((if reg == SWD_AP_TAR then l.(tar := data) else WriteDrw(bus, l, data), [1, DAP_TRANSFER_OK]))
  {
    hide Word, WordBytes, WriteDrw;
    FirstFour(q);
    WordOfBytes(data);
  }

  lemma FirstFour(q: seq<byte>)
    requires |q| >= 4
    ensures q[0] == q[..4][0] && q[1] == q[..4][1] && q[2] == q[..4][2] && q[3] == q[..4][3]
  {
  }

  lemma ReadRequest<S>(bus: Bus<S>, l: Link<S>, q: seq<byte>)
    requires q == [ID_DAP_TRANSFER, 0, 1, SWD_AP_DRW_READ]
    ensures var (w, s) := bus.read(l.state, l.tar);
            Execute(bus, l, q) == Some((Link(s, NextTar(l.tar)), [1, DAP_TRANSFER_OK] + WordBytes(w)))
  {
    hide WordBytes, NextTar;
    var (end, data) := ReadDrws(bus, l, 1);
    var (w, s) := bus.read(l.state, l.tar);
    assert ReadDrws(bus, Link(s, NextTar(l.tar)), 0) == (Link(s, NextTar(l.tar)), []);
    assert data == WordBytes(w) + [] == WordBytes(w);
  }

  lemma WordAt(b: seq<byte>)
    requires |b| == 4
    ensures Word(b) == FromBytes(b[0], b[1], b[2], b[3])
  {
  }

  lemma Count16(sz: nat)
    requires sz < 0x4_0000 && Whole(sz)
    ensures 4 * Count(sz / 4 % 0x100, sz / 4 / 0x100 % 0x100) == sz
  {
    TwoBytes(sz / 4);
  }

  lemma TwoBytes(n: nat)
    requires n < 0x1_0000
    ensures Count(n % 0x100, n / 0x100 % 0x100) == n
  {
  }

  lemma BlockWriteRequest<S>(bus: Bus<S>, l: Link<S>, q: seq<byte>, sz: nat)
    requires 0 < sz < 0x4_0000 && Whole(sz) && |q| == 5 + sz
    requires q[0] == ID_DAP_TRANSFER_BLOCK && q[1] == 0 && q[4] == SWD_AP_DRW
    requires q[2] == sz / 4 % 0x100 && q[3] == sz / 4 / 0x100 % 0x100
    ensures Execute(bus, l, q) == Some((WriteDrws(bus, l, q[5..]), [q[2], q[3], DAP_TRANSFER_OK]))
  {
    hide WriteDrws;
    Count16(sz);
  }

  lemma BlockReadRequest<S>(bus: Bus<S>, l: Link<S>, q: seq<byte>, sz: nat)
    requires 0 < sz < 0x4_0000 && Whole(sz) && |q| == 5
    requires q[0] == ID_DAP_TRANSFER_BLOCK && q[1] == 0 && q[4] == SWD_AP_DRW_READ
    requires q[2] == sz / 4 % 0x100 && q[3] == sz / 4 / 0x100 % 0x100
    ensures var (end, data) := ReadDrws(bus, l, sz / 4);
            Execute(bus, l, q) == Some((end, [q[2], q[3], DAP_TRANSFER_OK] + data)) && |data| == sz
  {
    ReadLength(bus, l, sz / 4);
    hide ReadDrws;
    Count16(sz);
  }

  lemma AnswerData(answer: seq<byte>, low: byte, high: byte, data: seq<byte>)
    requires answer == [low, high, DAP_TRANSFER_OK] + data
    ensures answer[2] == DAP_TRANSFER_OK && answer[3..] == data
  {
  }

  lemma {:induction false} ReadLength<S>(bus: Bus<S>, l: Link<S>, n: nat)
    ensures |ReadDrws(bus, l, n).1| == 4 * n
    decreases n
  {
    hide WordBytes, NextTar;
    if n > 0 {
      ReadLength(bus, Link(bus.read(l.state, l.tar).1, NextTar(l.tar)), n - 1);
    }
  }

  /** The requests of the program, byte by byte, and what the adapter does on them. */
  lemma Packets<S>(bus: Bus<S>, l: Link<S>, w: uint32, data: seq<byte>)
    requires Whole(|data|) && |data| < 0x400
    ensures Execute(bus, l, [5, 0, 1, 0x05] + WordBytes(w)) == Some((Link(l.state, w), [1, 1]))
    ensures Execute(bus, l, [5, 0, 1, 0x0D] + WordBytes(w)) == Some((Link(bus.write(l.state, l.tar, w), NextTar(l.tar)), [1, 1]))
    ensures var (value, s) := bus.read(l.state, l.tar);
            Execute(bus, l, [5, 0, 1, 0x0F]) == Some((Link(s, NextTar(l.tar)), [1, 1] + WordBytes(value)))
    ensures var n: byte := |data| / 4;
            var (end, got) := ReadDrws(bus, l, n);
            && Execute(bus, l, [6, 0, n, 0, 0x0D] + data) == Some((WriteDrws(bus, l, data), [n, 0, 1]))
            && Execute(bus, l, [6, 0, n, 0, 0x0F]) == Some((end, [n, 0, 1] + got))
  {
    var n: byte := |data| / 4;
    PacketParts([5, 0, 1, 0x05], WordBytes(w));
    PacketParts([5, 0, 1, 0x0D], WordBytes(w));
    PacketParts([6, 0, n, 0, 0x0D], data);
    hide Word, WordBytes, WriteDrws, NextTar, Execute;
    TransferRequest(bus, l, [5, 0, 1, 0x05] + WordBytes(w), 0x05, w);
    TransferRequest(bus, l, [5, 0, 1, 0x0D] + WordBytes(w), 0x0D, w);
    ReadRequest(bus, l, [5, 0, 1, 0x0F]);
    BlockPackets(bus, l, n, data);
  }

  lemma PacketParts(head: seq<byte>, data: seq<byte>)
    ensures (head + data)[..|head|] == head && (head + data)[|head|..] == data
  {
  }

  lemma BlockPackets<S>(bus: Bus<S>, l: Link<S>, n: byte, data: seq<byte>)
    requires |data| == 4 * n
    ensures var (end, got) := ReadDrws(bus, l, n);
            && Execute(bus, l, [6, 0, n, 0, 0x0D] + data) == Some((WriteDrws(bus, l, data), [n, 0, 1]))
            && Execute(bus, l, [6, 0, n, 0, 0x0F]) == Some((end, [n, 0, 1] + got))
  {
    hide WriteDrws, ReadDrws;
    PacketParts([6, 0, n, 0, 0x0D], data);
  }

  // ---------------------------------------------------------------------------------------------
  // Chunks
  // ---------------------------------------------------------------------------------------------

  lemma Masks(x: uint32)
    ensures And(x, 0xFFFF_FFFC) == x - x % 4 && And(x, 0xFFFF_FC00) == x - x % 0x400
  {
    Pow2Of32();
    assert Pow2(2) == 4 && Pow2(5) == 32;
    Pow2Split(5, 10);
    hide And, Pow2;
    AndHigh(x, 2, 32);
    AndHigh(x, 10, 32);
    LowIsMod(x, 2);
    LowIsMod(x, 10);
  }

  /** A chunk is positive, whole words, in one 1 KB window and no more than a packet holds. */
  lemma ChunkFits(reportSize: nat, at: uint32, remaining: nat)
    requires 9 <= reportSize <= 1024 && Whole(at) && remaining > 0 && Whole(remaining)
    ensures var maxSize, align := And(reportSize - 5, 0xFFFF_FFFC), 0x400 - (at - And(at, 0xFFFF_FC00));
            var limited := if remaining > maxSize then maxSize else remaining;
            var sz := if limited > align then align else limited;
            0 < sz <= remaining && Whole(sz) && at % 0x400 + sz <= 0x400 && 5 + sz <= reportSize && Whole(at + sz)
            && Whole(remaining - sz)
  {
    hide And, Whole;
    Masks(reportSize - 5);
    Masks(at);
    WindowRest(at);
    PacketRest(reportSize - 5);
    var maxSize, align := reportSize - 5 - (reportSize - 5) % 4, 0x400 - at % 0x400;
    var limited := if remaining > maxSize then maxSize else remaining;
    var sz := if limited > align then align else limited;
    WholeSum(at, sz);
    WholeSum(remaining, -sz);
    WholeNegated(sz);
  }

  lemma PacketRest(x: nat)
    ensures Whole(x - x % 4)
  {
  }

  lemma WholeNone()
    ensures Whole(0)
  {
  }

  lemma WholeSum(x: int, y: int)
    ensures Whole(x) && Whole(y) ==> Whole(x + y)
  {
  }

  lemma WholeNegated(x: int)
    ensures Whole(x) ==> Whole(-x)
  {
  }

  lemma WindowRest(at: nat)
    requires Whole(at)
    ensures Whole(0x400 - at % 0x400) && 0x400 - at % 0x400 > 0
  {
  }

  lemma NothingWritten<S>(bus: Bus<S>, s: S, addr: nat, all: seq<byte>)
    ensures WriteAll(bus, s, addr, all[..0]) == s
  {
  }

  lemma NothingRead<S>(bus: Bus<S>, s: S, addr: nat)
    ensures ReadAll(bus, s, addr, 0) == (s, [])
  {
  }

  lemma WrittenSoFar<S>(bus: Bus<S>, s: S, mid: S, addr: nat, all: seq<byte>, offs: nat, sz: nat)
    requires offs + sz <= |all| && Whole(offs) && mid == WriteAll(bus, s, addr, all[..offs])
    ensures WriteAll(bus, s, addr, all[..offs + sz]) == WriteAll(bus, mid, addr + offs, all[offs..offs + sz])
  {
    hide WriteAll;
    WriteAllJoin(bus, s, addr, all[..offs], all[offs..offs + sz]);
    assert all[..offs] + all[offs..offs + sz] == all[..offs + sz];
  }

  lemma ReadSoFar<S>(bus: Bus<S>, s: S, addr: nat, offs: nat, sz: nat)
    requires Whole(offs) && Whole(sz)
    ensures var (mid, d) := ReadAll(bus, s, addr, offs / 4);
            var (end, e) := ReadAll(bus, mid, addr + offs, sz / 4);
            ReadAll(bus, s, addr, (offs + sz) / 4) == (end, d + e)
  {
    hide ReadAll;
    ReadAllJoin(bus, s, addr, offs / 4, sz / 4);
  }

  lemma SplicedNothing(s: seq<byte>, from: nat)
    requires from <= |s|
    ensures Spliced(s, from, []) == s
  {
  }

  lemma SplicedTwice(s: seq<byte>, from: nat, d: seq<byte>, e: seq<byte>)
    requires from + |d| + |e| <= |s|
    ensures Spliced(Spliced(s, from, d), from + |d|, e) == Spliced(s, from, d + e)
  {
  }

  // ---------------------------------------------------------------------------------------------
  // Plain memory
  // ---------------------------------------------------------------------------------------------

  function MemoryWrite(m: seq<byte>, addr: uint32, w: uint32): seq<byte> {
    if addr + 4 <= |m| then Spliced(m, addr, WordBytes(w)) else m
  }

  function MemoryRead(m: seq<byte>, addr: uint32): (uint32, seq<byte>) {
    (if addr + 4 <= |m| then Word(m[addr..addr + 4]) else 0, m)
  }

  const MEMORY := Bus(MemoryWrite, MemoryRead)

  /** Words at consecutive addresses store their bytes, and nothing else. */
  lemma {:induction false} WritesBytes(m: seq<byte>, addr: nat, data: seq<byte>)
    requires Whole(|data|) && addr + |data| <= |m| <= 0x1_0000_0000
    ensures WriteAll(MEMORY, m, addr, data) == Spliced(m, addr, data)
    decreases |data|
  {
    hide Word, WordBytes, Spliced;
    if data == [] {
      SplicedNothing(m, addr);
    } else {
      BytesOfWord(data[..4]);
      WritesBytes(Spliced(m, addr, data[..4]), addr + 4, data[4..]);
      SplicedTwice(m, addr, data[..4], data[4..]);
      assert data[..4] + data[4..] == data;
      WrapSmall(addr);
    }
  }

  lemma {:induction false} ReadsBytes(m: seq<byte>, addr: nat, n: nat)
    requires addr + 4 * n <= |m| <= 0x1_0000_0000
    ensures ReadAll(MEMORY, m, addr, n) == (m, m[addr..addr + 4 * n])
    decreases n
  {
    hide Word, WordBytes, Wrap;
    if n == 0 {
      assert m[addr..addr] == [];
    } else {
      WrapSmall(addr);
      BytesOfWord(m[addr..addr + 4]);
      ReadsBytes(m, addr + 4, n - 1);
      assert m[addr..addr + 4] + m[addr + 4..addr + 4 * n] == m[addr..addr + 4 * n];
    }
  }

  /** What dap_write_block has written to plain memory, dap_read_block reads back; nothing else has changed. */
  method WriteThenRead(d: Dap<seq<byte>>, addr: uint32, data: array<byte>, back: array<byte>, size: nat)
    requires d.Valid() && d.bus == MEMORY && Whole(addr) && Whole(size) && size <= data.Length && size <= back.Length
    requires addr + size <= |d.link.state| <= 0x1_0000_0000 && data != back
    modifies d, back
    ensures d.link.state == Spliced(old(d.link.state), addr, data[..size])
    ensures back[..size] == data[..size] && back[size..] == old(back[size..])
  {
    hide WriteAll, ReadAll, Spliced;
    ghost var m, bytes := d.link.state, data[0..size];
    WritesBytes(m, addr, bytes);
    d.WriteBlock(addr, data, 0, size);
    ghost var n := d.link.state;
    ReadsBytes(n, addr, size / 4);
    ghost var was := back[..];
    d.ReadBlock(addr, back, 0, size);
    SplicedPart(m, addr, bytes);
    SplicedPart(was, 0, bytes);
    assert data[..size] == data[0..size] == bytes && d.link.state == n;
    ghost var now := back[..];
    assert now == Spliced(was, 0, bytes);
    assert back[..size] == now[0..0 + size] && back[size..] == now[0 + size..];
    assert was[size..] == old(back[size..]);
  }

  lemma SplicedPart(s: seq<byte>, from: nat, d: seq<byte>)
    requires from + |d| <= |s|
    ensures Spliced(s, from, d)[from..from + |d|] == d
    ensures Spliced(s, from, d)[..from] == s[..from] && Spliced(s, from, d)[from + |d|..] == s[from + |d|..]
  {
  }
}
