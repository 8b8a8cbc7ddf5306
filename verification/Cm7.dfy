/**
 Programming, verifying and reading the flash of the Atmel SAM E/S/V devices, from target_atmel_cm7.c, over
 the word and block accesses of the Dap module and a model of the flash controller; and the check of the
 options, from target.c.
 */
module Cm7 {
  import opened Machine
  import opened Bits
  import opened FlashImage
  import opened Dap

  const FLASH_START: uint32 := 0x40_0000
  const PAGE: nat := 512
  const PAGES_IN_ERASE_BLOCK: nat := 16
  /** What offsets and sizes are multiples of. */
  const ERASE_BLOCK: nat := 8192

  const EEFC_FCR: uint32 := 0x400E_0C04
  const EEFC_FSR: uint32 := 0x400E_0C08
  const CMD_WP: nat := 0x5A00_0001
  const CMD_EA: nat := 0x5A00_0005
  const CMD_EPA: nat := 0x5A00_0007
  const CMD_SGPB: nat := 0x5A00_000B

  // ---------------------------------------------------------------------------------------------
  // The device
  // ---------------------------------------------------------------------------------------------

  /**
   The flash, the latch buffer of one page, for how many reads of the status register the controller will
   still be busy and how long each command keeps it busy, the GPNVM bits that are set, and whether anything
   was done that the controller does not define: an access to the flash or a command while it was busy, or
   a command it does not have.
   */
  datatype Chip = Chip(flash: seq<byte>, latch: seq<byte>, busy: nat, latency: nat, bits: set<nat>, misused: bool)
  {
    predicate Valid() {
      |flash| in {0x8_0000, 0x10_0000, 0x20_0000} && |latch| == PAGE
    }

    predicate Ready() {
      Valid() && busy == 0 && !misused
    }
  }

  /** The latch buffer after a page has been written. */
  function Empty(): (r: seq<byte>)
    ensures |r| == PAGE
  {
    seq(PAGE, i => 0xFF)
  }

  /** A command: the key in the high byte, the argument in the middle, the command in the low byte. */
  function Command(c: Chip, w: uint32): Chip
    requires c.Valid()
  {
    var key, argument, code := w / 0x100_0000, w / 0x100 % 0x1_0000, w % 0x100;
    if c.busy > 0 || key != 0x5A then c.(misused := true)
    else
      match code
      case 0x01 => if (argument + 1) * PAGE > |c.flash| then c.(misused := true)
                   else c.(flash := Programmed(c.flash, argument * PAGE, c.latch), latch := Empty(), busy := c.latency)
      case 0x05 => c.(flash := Erased(c.flash, 0, |c.flash|), busy := c.latency)
      case 0x07 => var pages := [4, 8, 16, 32][argument % 4];
                   var first := argument - argument % pages;
                   if (first + pages) * PAGE > |c.flash| then c.(misused := true)
                   else c.(flash := Erased(c.flash, first * PAGE, (first + pages) * PAGE), busy := c.latency)
      case 0x0B => c.(bits := c.bits + {argument})
      case _ => c.(misused := true)
  }

  /** A word written into the flash goes to the latch buffer, wherever the page. */
  function ChipWrite(c: Chip, addr: uint32, w: uint32): Chip {
    if !c.Valid() then c.(misused := true)
    else if addr == EEFC_FCR then Command(c, w)
    else if FLASH_START <= addr && addr + 4 <= FLASH_START + |c.flash| && addr % 4 == 0 then
      if c.busy > 0 then c.(misused := true)
      else c.(latch := Spliced(c.latch, (addr - FLASH_START) % PAGE, WordBytes(w)))
    else c
  }

  function ChipRead(c: Chip, addr: uint32): (uint32, Chip) {
    if addr == EEFC_FSR then
      if c.busy == 0 then (1, c) else (0, c.(busy := c.busy - 1))
    else if FLASH_START <= addr && addr + 4 <= FLASH_START + |c.flash| then
      var at := addr - FLASH_START;
      (Word(c.flash[at..at + 4]), if c.busy > 0 then c.(misused := true) else c)
    else (0, c)
  }

  const CHIP := Bus(ChipWrite, ChipRead)

  // ---------------------------------------------------------------------------------------------
  // What words and commands do
  // ---------------------------------------------------------------------------------------------

  /** Writing a page fills the latch buffer. */
  lemma {:induction false} FillsLatch(c: Chip, at: nat, data: seq<byte>)
    requires c.Ready() && Whole(at) && Whole(|data|) && at % PAGE + |data| <= PAGE && at + |data| <= |c.flash|
    ensures WriteAll(CHIP, c, FLASH_START + at, data) == c.(latch := Spliced(c.latch, at % PAGE, data))
    decreases |data|
  {
    hide WordBytes, Word, Spliced, Command;
    if data == [] {
      SplicedNothing(c.latch, at % PAGE);
    } else {
      WrapSmall(FLASH_START + at);
      BytesOfWord(data[..4]);
      var d := c.(latch := Spliced(c.latch, at % PAGE, data[..4]));
      assert ChipWrite(c, FLASH_START + at, Word(data[..4])) == d;
      NextInPage(at, |data|);
      SplicedTwice(c.latch, at % PAGE, data[..4], data[4..]);
      assert data[..4] + data[4..] == data;
      if |data| == 4 {
        assert data[..4] == data;
      } else {
        FillsLatch(d, at + 4, data[4..]);
      }
    }
  }

  lemma NextInPage(at: nat, size: nat)
    requires size > 0 && Whole(at) && Whole(size) && at % PAGE + size <= PAGE
    ensures size >= 4 && Whole(at + 4) && Whole(size - 4)
    ensures size > 4 ==> (at + 4) % PAGE == at % PAGE + 4
  {
    if size > 4 {
      ModIs(at + 4, PAGE, at / PAGE, at % PAGE + 4);
    }
  }

  /** Reading a ready flash gives its bytes and changes nothing. */
  lemma {:induction false} ReadsFlash(c: Chip, at: nat, n: nat)
    requires c.Ready() && at + 4 * n <= |c.flash|
    ensures ReadAll(CHIP, c, FLASH_START + at, n) == (c, c.flash[at..at + 4 * n])
    decreases n
  {
    hide WordBytes, Word;
    if n == 0 {
      assert c.flash[at..at] == [];
    } else {
      WrapSmall(FLASH_START + at);
      BytesOfWord(c.flash[at..at + 4]);
      ReadsFlash(c, at + 4, n - 1);
      assert c.flash[at..at + 4] + c.flash[at + 4..at + 4 * n] == c.flash[at..at + 4 * n];
    }
  }

  /** The command word the program puts together. */
  lemma CommandWord(command: nat, argument: nat)
    requires command in {CMD_WP, CMD_EPA, CMD_SGPB} && argument < 0x1_0000
    ensures Or(command, argument * 0x100) == command + argument * 0x100
    ensures var w := command + argument * 0x100;
            w < 0x1_0000_0000 && w / 0x100_0000 == 0x5A && w / 0x100 % 0x1_0000 == argument && w % 0x100 == command % 0x100
  {
    hide And, Or, Pow2;
    Powers();
    AndShifted(command, argument, 8);
    AndShifted(argument, 0x5A, 16);
    AndSwap(0x5A_0000, argument);
    AndOfZero(0x5A);
    OrIsSum(command, argument * 0x100);
    ModIs(command + argument * 0x100, 0x100, 0x5A_0000 + argument, command % 0x100);
  }

  lemma Powers()
    ensures Pow2(8) == 0x100 && Pow2(16) == 0x1_0000
  {
    assert Pow2(8) == 0x100;
    Pow2Split(8, 16);
  }

  lemma AndOfZero(x: nat)
    ensures And(0, x) == 0 && And(x, 0) == 0
  {
  }

  /** The erase command for the 16 pages from a multiple of 16 on. */
  lemma EraseArgument(page: nat)
    requires page % 16 == 0
    ensures Or(page, 2) == page + 2 && (page + 2) % 4 == 2 && (page + 2) - (page + 2) % 16 == page
  {
    var q := page / 16;
    ModIs(page, 4, 4 * q, 0);
    ModIs(page + 2, 4, 4 * q, 2);
    ModIs(page + 2, 16, q, 2);
    NoBitOne(page, 4 * q);
    OrIsSum(page, 2);
  }

  lemma NoBitOne(page: nat, q: nat)
    requires page == 4 * q
    ensures And(page, 2) == 0
  {
    hide And;
    AndStep(page, 2);
    AndStep(2 * q, 1);
    AndOfZero(q);
  }

  /** The registers, commands and addresses of the device in numbers. */
  lemma Device(c: Chip, n: nat, at: nat)
    requires c.Ready() && (n + 1) * 512 <= |c.flash|
    requires at % 4 == 0 && at + 4 <= |c.flash|
    ensures n < 0x1_0000
    ensures ChipRead(c, 0x400E_0C08) == (1, c) && ChipRead(c.(busy := 1), 0x400E_0C08) == (0, c)
    ensures ChipRead(c, 0x40_0000 + at) == (Word(c.flash[at..at + 4]), c)
    ensures ChipWrite(c, 0x400E_0C04, 0x5A00_0001 + 0x100 * n)
            == c.(flash := Programmed(c.flash, 512 * n, c.latch), latch := Empty(), busy := c.latency)
    ensures n % 16 == 2 && (n + 14) * 512 <= |c.flash| ==>
              ChipWrite(c, 0x400E_0C04, 0x5A00_0007 + 0x100 * n)
              == c.(flash := Erased(c.flash, 512 * (n - 2), 512 * (n + 14)), busy := c.latency)
    ensures ChipWrite(c, 0x400E_0C04, 0x5A00_000B + 0x100 * n) == c.(bits := c.bits + {n})
  {
    hide Programmed, Erased, Word;
    CommandParts(1, n);
    CommandParts(7, n);
    CommandParts(11, n);
    if n % 16 == 2 { SixteenPages(n); }
  }

  lemma CommandParts(code: nat, n: nat)
    requires code < 0x100 && n < 0x1_0000
    ensures var w := 0x5A00_0000 + code + 0x100 * n;
            w < 0x1_0000_0000 && w / 0x100_0000 == 0x5A && w / 0x100 % 0x1_0000 == n && w % 0x100 == code
  {
    ModIs(0x5A00_0000 + code + 0x100 * n, 0x100, 0x5A_0000 + n, code);
  }

  lemma SixteenPages(n: nat)
    requires n % 16 == 2
    ensures n % 4 == 2 && n - n % 16 == n - 2
  {
    ModIs(n, 4, 4 * (n / 16), 2);
  }

  // ---------------------------------------------------------------------------------------------
  // Options
  // ---------------------------------------------------------------------------------------------

  /** The remainder of C, which has the sign of the dividend. */
  function Rem(x: int, y: nat): int
    requires y > 0
  {
    if x >= 0 then x % y else -((-x) % y)
  }

  /** target_options_t, without the name of the file. */
  class Options {
    var program: bool
    var verify: bool
    var read: bool
    var offset: int
    var size: int
    var fileSize: int
    var fileData: array<byte>

    constructor (program: bool, verify: bool, read: bool, offset: int, size: int)
      ensures this.program == program && this.verify == verify && this.read == read
      ensures this.offset == offset && this.size == size && fresh(fileData)
    {
      this.program, this.verify, this.read, this.offset, this.size := program, verify, read, offset, size;
      this.fileSize, this.fileData := 0, new byte[0];
    }

    /**
     target_check_options for a flash of `total` bytes. `file` is the contents of the file; a negative size
     cannot be allocated. A file larger than the size is cut off without a word.
     */
    method Check(total: int, align: nat, file: seq<byte>) returns (ok: bool)
      requires align > 0
      modifies this
      ensures program == old(program) && verify == old(verify) && read == old(read)
      ensures offset == (if old(offset) == -1 then 0 else old(offset))
      ensures size == (if old(size) == -1 then total - offset else old(size))
      ensures ok <==>
        && offset % align == 0 && size % align == 0 && size <= total && offset < total
        && (program || verify || read ==> size >= 0)
        && (program || verify ==> offset + (if |file| < size then |file| else size) <= total)
      ensures ok && (program || verify) ==>
        && fresh(fileData) && fileData.Length == size && 0 <= fileSize <= size
        && fileSize == (if |file| < size then |file| else size)
        && fileData[..fileSize] == file[..fileSize]
        && forall i :: fileSize <= i < size ==> fileData[i] == 0xFF
      ensures ok && read && !program && !verify ==> fresh(fileData) && fileData.Length == fileSize == size
    {
      fileSize := 0;
      if offset == -1 {
        offset := 0;
      }
      if size == -1 {
        size := total - offset;
      }
      RemZero(offset, align);
      RemZero(size, align);
      if Rem(offset, align) != 0 || Rem(size, align) != 0 || size > total || offset >= total {
        return false;
      }
      if program || verify {
        if size < 0 {
          return false;
        }
        FillData(file);
        if fileSize + offset > total {
          return false;
        }
      } else if read {
        if size < 0 {
          return false;
        }
        fileData := new byte[size];
        fileSize := size;
      }
      ok := true;
    }

    /** The file in a new buffer, padded with the value of erased flash. */
    method FillData(file: seq<byte>)
      requires size >= 0
      modifies this`fileData, this`fileSize
      ensures fresh(fileData) && fileData.Length == size && 0 <= fileSize <= size
      ensures fileSize == (if |file| < size then |file| else size)
      ensures fileData[..fileSize] == file[..fileSize] && forall i :: fileSize <= i < size ==> fileData[i] == 0xFF
    {
      fileData := new byte[size];
      fileSize := Load(file);
      forall i | fileSize <= i < size { fileData[i] := 0xFF; }
      assert fileData[..fileSize] == file[..fileSize];
    }

    /** load_file. */
    method Load(file: seq<byte>) returns (n: nat)
      modifies fileData
      ensures n == if |file| < fileData.Length then |file| else fileData.Length
      ensures fileData[..n] == file[..n]
    {
      n := if |file| < fileData.Length then |file| else fileData.Length;
      forall i | 0 <= i < n { fileData[i] := file[i]; }
    }

    /** What programming and verifying need of the options. */
    predicate Checked(total: int)
      reads this, fileData
    {
      && 0 <= offset < total && offset % ERASE_BLOCK == 0
      && fileData.Length % ERASE_BLOCK == 0 && 0 <= fileSize <= fileData.Length && offset + fileSize <= total
      && forall i :: fileSize <= i < fileData.Length ==> fileData[i] == 0xFF
    }
  }

  lemma RemZero(x: int, y: nat)
    requires y > 0
    ensures Rem(x, y) == 0 <==> x % y == 0
  {
    if x < 0 {
      var q, r := (-x) / y, (-x) % y;
      assert -x == q * y + r;
      NegatedMultiple(x, y, q, r);
    }
  }

  lemma NegatedMultiple(x: int, y: nat, q: nat, r: nat)
    requires y > 0 && -x == q * y + r && r < y
    ensures r == 0 <==> x % y == 0
  {
    var p, s := x / y, x % y;
    assert x == p * y + s;
    assert (p + q) * y + s + r == 0;
    if r == 0 && s != 0 {
      if p + q >= 0 { MulLe(0, p + q, y); } else { MulLe(1, -(p + q), y); }
    }
    if s == 0 && r != 0 {
      if p + q >= 0 { MulLe(0, p + q, y); } else { MulLe(1, -(p + q), y); }
    }
  }

  /**
   Options accepted for programming or verifying are fit for it exactly when the offset is not negative: a
   negative offset with a size given by the user passes all the checks.
   */
  method CheckForProgramming(o: Options, total: int, file: seq<byte>) returns (ok: bool)
    requires o.program || o.verify
    modifies o
    ensures ok ==> (o.Checked(total) <==> o.offset >= 0)
  {
    ok := o.Check(total, ERASE_BLOCK, file);
  }

  /** An offset of -8192 with a size of 8192 is accepted, and is not fit for programming. */
  method NegativeOffsetAccepted() returns (ok: bool, o: Options)
    ensures ok && o.offset == -8192 && !o.Checked(0x8_0000)
  {
    o := new Options(true, false, false, -8192, 8192);
    ok := o.Check(0x8_0000, ERASE_BLOCK, seq(10, i => 0));
  }

  /**
   Options accepted for reading stay in the flash exactly when, as they were given, the offset is not negative
   and offset and size together, unless the size is the default, do not exceed the flash.
   */
  method CheckForReading(o: Options, total: int, file: seq<byte>) returns (ok: bool)
    requires o.read && !o.program && !o.verify
    modifies o
    ensures ok ==>
      var offset := if old(o.offset) == -1 then 0 else old(o.offset);
      && o.fileData.Length == o.fileSize == o.size
      && (0 <= o.offset && o.offset + o.size <= total <==>
            offset >= 0 && (old(o.size) == -1 || offset + old(o.size) <= total))
  {
    ok := o.Check(total, ERASE_BLOCK, file);
  }

  /** A read of 512 KB from an offset of 8192 is accepted for a flash of 512 KB. */
  method ReadPastTheEndAccepted() returns (ok: bool, o: Options)
    ensures ok && o.offset + o.size > 0x8_0000
  {
    o := new Options(false, false, true, 8192, 0x8_0000);
    ok := o.Check(0x8_0000, ERASE_BLOCK, []);
  }

  // ---------------------------------------------------------------------------------------------
  // The target
  // ---------------------------------------------------------------------------------------------

  /** How many pages a file takes. */
  function Pages(size: nat): nat {
    (size + PAGE - 1) / PAGE
  }

  lemma PagesHold(size: nat)
    ensures size <= Pages(size) * PAGE < size + PAGE
  {
  }

  /** Where the erased blocks of a file end, in pages. */
  function ErasedPages(size: nat): nat {
    CeilTo(Pages(size), PAGES_IN_ERASE_BLOCK)
  }

  /** The erased blocks and the pages stay in the flash and the pages in the padded file. */
  lemma Room(size: nat, length: nat, offset: nat, total: nat)
    requires size <= length && length % ERASE_BLOCK == 0 && offset % ERASE_BLOCK == 0 && offset + size <= total
    requires total in {0x8_0000, 0x10_0000, 0x20_0000}
    ensures Pages(size) <= ErasedPages(size) && ErasedPages(size) % 16 == 0
    ensures ErasedPages(size) * PAGE <= length && offset + ErasedPages(size) * PAGE <= total
  {
    PagesHold(size);
    FloorCeilMultiples(Pages(size), PAGES_IN_ERASE_BLOCK);
    var e := ErasedPages(size) * PAGE;
    assert e % ERASE_BLOCK == 0 by {
      ModIs(e, ERASE_BLOCK, ErasedPages(size) / 16, 0);
    }
    assert e < size + ERASE_BLOCK by {
      if size == 0 { } else { PageBlocks(size); }
    }
    BlockRoom(e, size, length);
    BlockRoom(e, size, total - offset);
  }

  lemma PageBlocks(size: nat)
    requires size > 0
    ensures ErasedPages(size) * PAGE < size + ERASE_BLOCK
  {
    PagesHold(size);
    var p := Pages(size);
    FloorCeilMultiples(p - 1, PAGES_IN_ERASE_BLOCK);
    StepMultiple(FloorTo(p - 1, PAGES_IN_ERASE_BLOCK), PAGES_IN_ERASE_BLOCK);
    CeilUnique(p, FloorTo(p - 1, PAGES_IN_ERASE_BLOCK) + PAGES_IN_ERASE_BLOCK, PAGES_IN_ERASE_BLOCK);
  }

  /** In bytes, the erased blocks of a file are its size rounded up to 8 KB, its pages to 512 bytes. */
  lemma BlocksInBytes(size: nat)
    ensures ErasedPages(size) * PAGE == CeilTo(size, 8192) && Pages(size) * PAGE == CeilTo(size, 512)
  {
    PagesHold(size);
    FloorCeilMultiples(Pages(size), PAGES_IN_ERASE_BLOCK);
    var e := ErasedPages(size) * PAGE;
    ModIs(e, 8192, ErasedPages(size) / 16, 0);
    ModIs(Pages(size) * PAGE, 512, Pages(size), 0);
    if size > 0 { PageBlocks(size); }
    hide Pages, ErasedPages, CeilTo;
    CeilUnique(size, e, 8192);
    CeilUnique(size, Pages(size) * PAGE, 512);
  }

  lemma BlockRoom(e: nat, size: nat, room: nat)
    requires e % ERASE_BLOCK == 0 && room % ERASE_BLOCK == 0 && size <= room && e < size + ERASE_BLOCK
    ensures e <= room
  {
  }

  /** The flash after programming: the blocks of the file erased, then the whole pages of the padded file stored. */
  function Image(flash: seq<byte>, offset: nat, data: seq<byte>, size: nat): seq<byte>
    requires Pages(size) * PAGE <= |data| && offset + Pages(size) * PAGE <= |flash|
  {
    Spliced(Erased(flash, offset, offset + ErasedPages(size) * PAGE), offset, data[..Pages(size) * PAGE])
  }

  /** What a page of memory reads as. */
  function PageAt(c: Chip, addr: nat): seq<byte> {
    ReadAll(CHIP, c, addr, PAGE / 4).1
  }

  /** The first `n` bytes of the data are those of the flash from `offset` on, as far as the flash goes. */
  predicate Holds(flash: seq<byte>, data: seq<byte>, offset: int, n: nat) {
    n <= |data| && forall i :: 0 <= i < n && 0 <= offset + i < |flash| ==> data[i] == flash[offset + i]
  }

  /** The flash holds the first bytes of the data. */
  predicate Matches(flash: seq<byte>, data: seq<byte>, offset: nat, size: nat) {
    offset + size <= |flash| && size <= |data| && forall i :: 0 <= i < size ==> flash[offset + i] == data[i]
  }

  class Target {
    const dap: Dap<Chip>
    const options: Options

    constructor (dap: Dap<Chip>, options: Options)
      ensures this.dap == dap && this.options == options
    {
      this.dap, this.options := dap, options;
    }

    ghost predicate Valid()
      reads dap, options, options.fileData
    {
      && dap.Valid() && dap.bus == CHIP && dap.link.state.Ready()
      && options.Checked(|dap.link.state.flash|)
    }

    /** The wait for the controller to be ready. */
    method WaitReady()
      requires dap.Valid() && dap.bus == CHIP && dap.link.state.Valid() && !dap.link.state.misused
      modifies dap`link
      ensures dap.link.state == old(dap.link.state).(busy := 0)
    {
      var w := dap.ReadWord(EEFC_FSR);
      ReadyBit();
      while And(w, 1) == 0
        invariant dap.link.state == old(dap.link.state).(busy := dap.link.state.busy)
        invariant w == 1 ==> dap.link.state.busy == 0
        invariant w in {0, 1}
        decreases dap.link.state.busy, w == 0
      {
        w := dap.ReadWord(EEFC_FSR);
      }
    }

    /** A command and the wait for it. */
    method Run(command: nat, argument: nat)
      requires dap.Valid() && dap.bus == CHIP && dap.link.state.Ready()
      requires command in {CMD_WP, CMD_EPA} && argument < 0x1_0000
      requires command == CMD_WP ==> (argument + 1) * PAGE <= |dap.link.state.flash|
      requires command == CMD_EPA ==>
        argument % 4 == 2 && (argument - argument % 16 + 16) * PAGE <= |dap.link.state.flash|
      modifies dap`link
      ensures var c, first := old(dap.link.state), argument - argument % 16;
              dap.link.state ==
                if command == CMD_WP then c.(flash := Programmed(c.flash, argument * PAGE, c.latch), latch := Empty())
                else c.(flash := Erased(c.flash, first * PAGE, (first + 16) * PAGE))
    {
      hide Programmed, Erased, Or;
      CommandWord(command, argument);
      dap.WriteWord(EEFC_FCR, Or(command, argument * 0x100));
      WaitReady();
    }

    /** The first loop of target_program. */
    method EraseBlocks(numberOfPages: nat, pageOffset: nat)
      requires Valid() && Multiple(pageOffset, 16)
      requires (pageOffset + CeilTo(numberOfPages, 16)) * PAGE <= |dap.link.state.flash| <= 0x20_0000
      modifies dap`link
      ensures var c := old(dap.link.state);
              dap.link.state ==
                c.(flash := Erased(c.flash, pageOffset * PAGE, (pageOffset + CeilTo(numberOfPages, 16)) * PAGE))
    {
      hide Erased, Or, Multiple, CeilTo;
      ghost var c := dap.link.state;
      var page: nat := 0;
      NothingErased(c.flash, pageOffset * PAGE);
      FloorCeilMultiples(0, 16);
      EndOfBlocks(numberOfPages);
      while page < numberOfPages
        invariant Multiple(page, 16) && page <= CeilTo(numberOfPages, 16)
        invariant dap.Valid() && dap.bus == CHIP
        invariant dap.link.state == c.(flash := Erased(c.flash, pageOffset * PAGE, (pageOffset + page) * PAGE))
      {
        EraseStep(pageOffset, page, numberOfPages);
        ErasedJoin(c.flash, pageOffset * PAGE, (pageOffset + page) * PAGE, (pageOffset + page + 16) * PAGE);
        Run(CMD_EPA, Or(pageOffset + page, 2));
        page := page + PAGES_IN_ERASE_BLOCK;
      }
    }

    /** The second loop of target_program. */
    method WritePages(numberOfPages: nat, pageOffset: nat)
      requires dap.Valid() && dap.bus == CHIP && dap.link.state.Ready()
      requires (pageOffset + numberOfPages) * PAGE <= |dap.link.state.flash| <= 0x20_0000
      requires numberOfPages * PAGE <= options.fileData.Length
      modifies dap`link
      ensures var c := old(dap.link.state);
              && dap.link.state.Ready() && dap.link.state.bits == c.bits
              && dap.link.state.flash == Programmed(c.flash, pageOffset * PAGE, options.fileData[..numberOfPages * PAGE])
    {
      hide Programmed, Or;
      ghost var c := dap.link.state;
      ghost var data := options.fileData[..];
      var addr: nat := FLASH_START + pageOffset * PAGE;
      var offs: nat, page: nat := 0, 0;
      NothingProgrammed(c.flash, pageOffset * PAGE);
      assert data[..0] == [];
      while page < numberOfPages
        invariant page <= numberOfPages && offs == page * PAGE && addr == FLASH_START + (pageOffset + page) * PAGE
        invariant dap.Valid() && dap.bus == CHIP && dap.link.state.Ready() && dap.link.state.bits == c.bits
        invariant dap.link.state.flash == Programmed(c.flash, pageOffset * PAGE, data[..offs])
      {
        WritePage(addr, offs, page + pageOffset);
        assert options.fileData[offs..offs + PAGE] == data[offs..offs + PAGE];
        ProgrammedJoin(c.flash, pageOffset * PAGE, data[..offs], data[offs..offs + PAGE]);
        assert data[..offs] + data[offs..offs + PAGE] == data[..offs + PAGE];
        addr := addr + PAGE;
        offs := offs + PAGE;
        page := page + 1;
      }
      assert options.fileData[..numberOfPages * PAGE] == data[..offs];
    }

    /** One page: its data goes to the latch buffer, then the page is written. */
    method WritePage(addr: nat, offs: nat, page: nat)
      requires dap.Valid() && dap.bus == CHIP && dap.link.state.Ready() && |dap.link.state.flash| <= 0x20_0000
      requires addr == FLASH_START + page * PAGE && (page + 1) * PAGE <= |dap.link.state.flash|
      requires offs + PAGE <= options.fileData.Length
      modifies dap`link
      ensures var c := old(dap.link.state);
              dap.link.state == c.(flash := Programmed(c.flash, page * PAGE, options.fileData[offs..offs + PAGE]), latch := Empty())
    {
      hide Programmed, WriteAll, Spliced;
      WholePages(page);
      FillsLatch(dap.link.state, page * PAGE, options.fileData[offs..offs + PAGE]);
      WholeLatch(dap.link.state.latch, options.fileData[offs..offs + PAGE]);
      dap.WriteBlock(addr, options.fileData, offs, PAGE);
      Run(CMD_WP, page);
    }

    /** target_program: the file, padded to a whole page, is in the flash; outside its blocks nothing has changed. */
    method Program()
      requires Valid()
      modifies dap`link
      ensures var c, offset := old(dap.link.state), options.offset;
              && Pages(options.fileSize) * PAGE <= options.fileData.Length
              && offset + Pages(options.fileSize) * PAGE <= |c.flash|
              && dap.link.state.Ready() && dap.link.state.bits == c.bits + {1}
              && dap.link.state.flash == Image(c.flash, offset, options.fileData[..], options.fileSize)
    {
      hide Programmed, Erased, Or, Spliced;
      ghost var c := dap.link.state;
      Room(options.fileSize, options.fileData.Length, options.offset, |c.flash|);
      var numberOfPages := (options.fileSize + PAGE - 1) / PAGE;
      var pageOffset := options.offset / PAGE;
      OffsetPages(options.offset);
      EraseBlocks(numberOfPages, pageOffset);
      WritePages(numberOfPages, pageOffset);
      ProgrammedOnErased(c.flash, options.offset, options.offset + ErasedPages(options.fileSize) * PAGE,
                         options.fileData[..numberOfPages * PAGE]);
      assert options.fileData[..][..numberOfPages * PAGE] == options.fileData[..numberOfPages * PAGE];
      CommandWord(CMD_SGPB, 1);
      dap.WriteWord(EEFC_FCR, Or(CMD_SGPB, 1 * 0x100));
    }

    /** target_verify: it accepts exactly when the flash holds the file. */
    method Verify() returns (accepted: bool)
      requires Valid()
      modifies dap`link
      ensures dap.link.state == old(dap.link.state)
      ensures var offset, size := options.offset, options.fileSize;
              accepted <==> Matches(old(dap.link.state).flash, options.fileData[..], offset, size)
    {
      hide Image, ReadAll, Spliced, Matches, Multiple, PageAt, Pages, ErasedPages;
      ghost var c := dap.link.state;
      var addr: nat := FLASH_START + options.offset;
      var size: nat, offs: nat := options.fileSize, 0;
      var bufb := new byte[PAGE];
      Room(options.fileSize, options.fileData.Length, options.offset, |c.flash|);
      PagesHold(options.fileSize);
      FloorCeilMultiples(0, PAGE);
      NothingMatches(c.flash, options.fileData[..], options.offset, options.fileSize);
      while size > 0
        invariant dap.Valid() && dap.bus == CHIP && dap.link.state == c && Multiple(offs, PAGE) && size <= options.fileSize
        invariant addr == FLASH_START + options.offset + offs && (size > 0 ==> offs + size == options.fileSize)
        invariant Matches(c.flash, options.fileData[..], options.offset, options.fileSize - size)
        decreases size
      {
        PageInside(offs, options.fileSize, options.offset, |c.flash|);
        ghost var was := bufb[..];
        ReadPage(addr, bufb, 0);
        PageOfFlash(c, options.offset + offs);
        WholeLatch(was, c.flash[options.offset + offs..options.offset + offs + PAGE]);
        var blockSize: nat := if size > PAGE then PAGE else size;
        var same := Compare(bufb, offs, blockSize);
        MatchesMore(c.flash, options.fileData[..], options.offset, offs, blockSize, options.fileSize, bufb[..]);
        if !same {
          return false;
        }
        addr := addr + PAGE;
        StepMultiple(offs, PAGE);
        offs := offs + PAGE;
        size := size - blockSize;
      }
      accepted := true;
    }

    /** The inner loop of target_verify. */
    method Compare(bufb: array<byte>, offs: nat, blockSize: nat) returns (same: bool)
      requires blockSize <= bufb.Length && offs + blockSize <= options.fileData.Length
      ensures same <==> forall i :: 0 <= i < blockSize ==> options.fileData[offs + i] == bufb[i]
    {
      var i := 0;
      while i < blockSize
        invariant 0 <= i <= blockSize
        invariant forall j :: 0 <= j < i ==> options.fileData[offs + j] == bufb[j]
      {
        if options.fileData[offs + i] != bufb[i] {
          return false;
        }
        i := i + 1;
      }
      same := true;
    }

    /** A page of the memory, read into a buffer; of the flash, where it is the flash. */
    method ReadPage(addr: nat, buf: array<byte>, offs: nat)
      requires dap.Valid() && dap.bus == CHIP && dap.link.state.Ready()
      requires addr + PAGE <= 0x1_0000_0000 && addr % PAGE == 0 && offs + PAGE <= buf.Length
      modifies dap`link, buf
      ensures dap.link.state == old(dap.link.state)
      ensures |PageAt(dap.link.state, addr)| == PAGE && buf[..] == Spliced(old(buf[..]), offs, PageAt(dap.link.state, addr))
    {
      hide ReadAll, Spliced;
      WholeAddress(addr);
      ReadsMemory(dap.link.state, addr, PAGE / 4);
      dap.ReadBlock(addr, buf, offs, PAGE);
    }

    /** What has been programmed is accepted. */
    method ProgramAndVerify() returns (accepted: bool)
      requires Valid()
      modifies dap`link
      ensures accepted
    {
      hide Image, Matches, Spliced, Erased;
      ghost var c := dap.link.state;
      Program();
      ImageMatches(c.flash, options.offset, options.fileData[..], options.fileSize);
      accepted := Verify();
    }

    /**
     target_read, without the file it is saved in, for all options the check accepts: every byte of the buffer
     that stands for one of the flash holds it. What is read outside the flash is not said.
     */
    method Read()
      requires dap.Valid() && dap.bus == CHIP && dap.link.state.Ready()
      requires -0x8000_0000 <= options.offset < 0x8000_0000 && options.offset % ERASE_BLOCK == 0
      requires options.size == options.fileData.Length && options.size % ERASE_BLOCK == 0
      modifies dap`link, options.fileData
      ensures dap.link.state == old(dap.link.state)
      ensures Holds(dap.link.state.flash, options.fileData[..], options.offset, options.size)
      ensures 0 <= options.offset && options.offset + options.size <= |dap.link.state.flash| ==>
        options.fileData[..] == dap.link.state.flash[options.offset..options.offset + options.size]
    {
      hide Spliced, PageAt, Multiple, Holds;
      ghost var c := dap.link.state;
      ghost var offset := options.offset;
      var addr: uint32 := Wrap(FLASH_START + options.offset);
      var offs: nat := 0;
      var size: nat := options.size;
      StartAligned(offset, options.size);
      NothingHeld(c.flash, options.fileData[..], offset);
      while size > 0
        invariant offs + size == options.size && Multiple(size, PAGE) && Multiple(addr, PAGE)
        invariant addr == Wrap(FLASH_START + offset + offs) && Multiple(offs, PAGE)
        invariant dap.Valid() && dap.bus == CHIP && dap.link.state == c
        invariant Holds(c.flash, options.fileData[..], offset, offs)
      {
        PageRoom(addr, size);
        ghost var was := options.fileData[..];
        ReadPage(addr, options.fileData, offs);
        HoldsMore(c, was, options.fileData[..], offset, offs, addr);
        NextPage(addr, offs, size);
        WrapAgain(FLASH_START + offset + offs, PAGE);
        addr := Wrap(addr + PAGE);
        offs := offs + PAGE;
        size := size - PAGE;
      }
      HoldsAll(c.flash, options.fileData[..], offset);
    }
  }

  // ---------------------------------------------------------------------------------------------
  // Small steps
  // ---------------------------------------------------------------------------------------------

  lemma ReadyBit()
    ensures And(0, 1) == 0 && And(1, 1) == 1
  {
  }

  lemma NothingErased(mem: seq<byte>, at: nat)
    ensures Erased(mem, at, at) == mem
  {
  }

  lemma NothingProgrammed(mem: seq<byte>, at: nat)
    ensures Programmed(mem, at, []) == mem
  {
  }

  lemma EraseStep(pageOffset: nat, page: nat, pages: nat)
    requires Multiple(pageOffset, 16) && Multiple(page, 16) && page < pages
    ensures var argument := Or(pageOffset + page, 2);
            argument == pageOffset + page + 2 && argument % 4 == 2 && argument - argument % 16 == pageOffset + page
    ensures Multiple(page + 16, 16) && page + 16 <= CeilTo(pages, 16)
  {
    hide Or, CeilTo;
    ModIs(pageOffset + page, 16, pageOffset / 16 + page / 16, 0);
    EraseArgument(pageOffset + page);
    StepMultiple(page, 16);
    FloorCeilMultiples(pages, 16);
    NextMultiple(page, CeilTo(pages, 16), 16);
  }

  lemma EndOfBlocks(pages: nat)
    ensures CeilTo(pages, 16) >= pages && (pages == 0 ==> CeilTo(pages, 16) == 0)
    ensures forall page: nat :: Multiple(page, 16) && pages <= page <= CeilTo(pages, 16) ==> page == CeilTo(pages, 16)
  {
    hide CeilTo;
    FloorCeilMultiples(pages, 16);
    forall page: nat | Multiple(page, 16) && pages <= page <= CeilTo(pages, 16) ensures page == CeilTo(pages, 16) {
      CeilUnique(pages, page, 16);
    }
  }

  lemma WholePages(page: nat)
    ensures Whole(page * PAGE) && Whole(FLASH_START + page * PAGE) && Whole(PAGE) && page * PAGE % PAGE == 0
  {
    ModIs(page * PAGE, PAGE, page, 0);
  }

  lemma WholeLatch(latch: seq<byte>, data: seq<byte>)
    requires |latch| == |data|
    ensures Spliced(latch, 0, data) == data
  {
  }

  lemma OffsetPages(offset: nat)
    requires offset % ERASE_BLOCK == 0
    ensures offset / PAGE * PAGE == offset && Multiple(offset / PAGE, 16)
  {
    var q := offset / ERASE_BLOCK;
    assert offset == q * ERASE_BLOCK;
    ModIs(offset, PAGE, 16 * q, 0);
    ModIs(16 * q, 16, q, 0);
  }

  lemma WholeAddress(addr: nat)
    requires addr % PAGE == 0
    ensures Whole(addr) && Whole(PAGE)
  {
    var q := addr / PAGE;
    assert addr == q * PAGE;
    ModIs(addr, 4, 128 * q, 0);
  }

  /** Programming into erased flash. */
  lemma ProgrammedOnErased(flash: seq<byte>, offset: nat, end: nat, data: seq<byte>)
    requires offset + |data| <= end <= |flash|
    ensures Programmed(Erased(flash, offset, end), offset, data) == Spliced(Erased(flash, offset, end), offset, data)
  {
    var e := Erased(flash, offset, end);
    ProgrammedBlank(e, offset, data);
    var p := Programmed(e, offset, data);
    hide Programmed, Erased;
    assert p[..offset] == e[..offset] && p[offset + |data|..] == e[offset + |data|..];
    assert p == p[..offset] + p[offset..offset + |data|] + p[offset + |data|..];
  }

  lemma PageInside(offs: nat, size: nat, offset: nat, total: nat)
    requires offs < size && Multiple(offs, PAGE) && offset % ERASE_BLOCK == 0 && offset + size <= total && total % PAGE == 0
    ensures offset + offs + PAGE <= total && (FLASH_START + offset + offs) % PAGE == 0
  {
    PagesInBlock(offset);
    PageSum(offset, offs);
    PageSum(FLASH_START + offset, offs);
    PageSum(FLASH_START, offset);
    NextMultiple(offset + offs, total, PAGE);
  }

  lemma PagesInBlock(x: nat)
    requires x % ERASE_BLOCK == 0
    ensures x % PAGE == 0
  {
    ModIs(x, PAGE, 16 * (x / ERASE_BLOCK), 0);
  }

  lemma PageSum(x: nat, y: nat)
    requires x % PAGE == 0 && y % PAGE == 0
    ensures (x + y) % PAGE == 0 && (y <= x ==> (x - y) % PAGE == 0)
  {
    ModIs(x + y, PAGE, x / PAGE + y / PAGE, 0);
  }

  /** Reading a ready device changes nothing, wherever. */
  lemma {:induction false} ReadsMemory(c: Chip, addr: nat, n: nat)
    requires c.Ready()
    ensures ReadAll(CHIP, c, addr, n).0 == c
    decreases n
  {
    hide Word, Wrap;
    if n > 0 { ReadsMemory(c, addr + 4, n - 1); }
  }

  lemma StartAligned(offset: int, size: nat)
    requires offset % ERASE_BLOCK == 0 && size % ERASE_BLOCK == 0
    ensures Multiple(Wrap(FLASH_START + offset), PAGE) && Multiple(size, PAGE) && Multiple(0, PAGE)
  {
    PagesInBlock(size);
    WrapAligned(FLASH_START + offset);
  }

  lemma WrapAligned(x: int)
    requires x % ERASE_BLOCK == 0
    ensures Wrap(x) % PAGE == 0
  {
    var q, a, r := x / 0x1_0000_0000, x / ERASE_BLOCK, Wrap(x);
    assert x == q * 0x1_0000_0000 + r && x == a * ERASE_BLOCK;
    BlocksLeft(a, q, r);
    PagesInBlock(r);
  }

  lemma BlocksLeft(a: int, q: int, r: nat)
    requires r == a * ERASE_BLOCK - q * 0x1_0000_0000
    ensures r % ERASE_BLOCK == 0
  {
    assert r == (a - q * 0x8_0000) * ERASE_BLOCK;
  }

  lemma PageRoom(addr: uint32, size: nat)
    requires Multiple(addr, PAGE) && Multiple(size, PAGE) && size > 0
    ensures addr % PAGE == 0 && addr + PAGE <= 0x1_0000_0000 && size >= PAGE
  {
    NextMultiple(addr, 0x1_0000_0000, PAGE);
    NextMultiple(0, size, PAGE);
  }

  lemma NextPage(addr: uint32, offs: nat, size: nat)
    requires Multiple(addr, PAGE) && Multiple(offs, PAGE) && Multiple(size, PAGE) && size >= PAGE
    ensures Multiple(Wrap(addr + PAGE), PAGE) && Multiple(offs + PAGE, PAGE) && Multiple(size - PAGE, PAGE)
  {
    StepMultiple(addr, PAGE);
    StepMultiple(offs, PAGE);
    PageSum(size, PAGE);
    NextMultiple(addr, 0x1_0000_0000, PAGE);
  }

  lemma WrapAgain(x: int, n: nat)
    ensures Wrap(Wrap(x) + n) == Wrap(x + n)
  {
    var q, r := x / 0x1_0000_0000, x % 0x1_0000_0000;
    assert x + n == q * 0x1_0000_0000 + (r + n);
  }

  lemma NothingHeld(flash: seq<byte>, data: seq<byte>, offset: int)
    ensures Holds(flash, data, offset, 0)
  {
  }

  lemma HoldsAll(flash: seq<byte>, data: seq<byte>, offset: int)
    requires Holds(flash, data, offset, |data|)
    ensures 0 <= offset && offset + |data| <= |flash| ==> data == flash[offset..offset + |data|]
  {
  }

  /** A page is in the flash or outside it as a whole. */
  lemma PageInOrOut(c: Chip, at: int, addr: uint32)
    requires c.Valid() && at % PAGE == 0 && addr == Wrap(FLASH_START + at)
    ensures 0 < at + PAGE && at < |c.flash| ==> 0 <= at && at + PAGE <= |c.flash| && addr == FLASH_START + at
  {
    if 0 < at + PAGE && at < |c.flash| {
      assert at >= 0;
      NextMultiple(at, |c.flash|, PAGE);
    }
  }

  lemma HoldsMore(c: Chip, was: seq<byte>, now: seq<byte>, offset: int, offs: nat, addr: uint32)
    requires c.Ready() && offset % ERASE_BLOCK == 0 && Multiple(offs, PAGE) && addr == Wrap(FLASH_START + offset + offs)
    requires |PageAt(c, addr)| == PAGE && offs + PAGE <= |was| && now == Spliced(was, offs, PageAt(c, addr))
    requires Holds(c.flash, was, offset, offs)
    ensures Holds(c.flash, now, offset, offs + PAGE)
  {
    PageOfOffset(offset, offs);
    hide Multiple, Wrap;
    var at := offset + offs;
    PageInOrOut(c, at, addr);
    if 0 < at + PAGE && at < |c.flash| {
      PageOfFlash(c, at);
    }
    hide PageAt;
    HoldsPage(c.flash, was, now, offset, offs, PageAt(c, addr));
  }

  /** A page read from the flash is a page of the flash. */
  lemma PageOfFlash(c: Chip, at: nat)
    requires c.Ready() && at + PAGE <= |c.flash|
    ensures PageAt(c, FLASH_START + at) == c.flash[at..at + PAGE]
  {
    hide ReadAll;
    ReadsFlash(c, at, PAGE / 4);
  }

  lemma HoldsPage(flash: seq<byte>, was: seq<byte>, now: seq<byte>, offset: int, offs: nat, page: seq<byte>)
    requires |page| == PAGE && offs + PAGE <= |was| && now == Spliced(was, offs, page) && Holds(flash, was, offset, offs)
    requires var at := offset + offs;
             0 < at + PAGE && at < |flash| ==> 0 <= at && at + PAGE <= |flash| && page == flash[at..at + PAGE]
    ensures Holds(flash, now, offset, offs + PAGE)
  {
    forall i | 0 <= i < offs + PAGE && 0 <= offset + i < |flash| ensures now[i] == flash[offset + i] {
      if i < offs {
        assert now[i] == was[i];
      } else {
        assert now[i] == page[i - offs];
      }
    }
  }

  lemma PageOfOffset(offset: int, offs: nat)
    requires offset % ERASE_BLOCK == 0 && Multiple(offs, PAGE)
    ensures (offset + offs) % PAGE == 0
  {
    assert offset == PAGE * (16 * (offset / ERASE_BLOCK));
    assert offs == PAGE * (offs / PAGE);
    assert offset + offs == PAGE * (16 * (offset / ERASE_BLOCK) + offs / PAGE);
  }

  lemma NothingMatches(flash: seq<byte>, data: seq<byte>, offset: nat, size: nat)
    requires offset + size <= |flash| && size <= |data|
    ensures Matches(flash, data, offset, 0)
  {
  }

  /** A page of the comparison. */
  lemma MatchesMore(flash: seq<byte>, data: seq<byte>, offset: nat, offs: nat, n: nat, size: nat, buf: seq<byte>)
    requires offset + offs + PAGE <= |flash| && n <= PAGE && offs + n <= size <= |data| && offset + size <= |flash|
    requires buf == flash[offset + offs..offset + offs + PAGE] && Matches(flash, data, offset, offs)
    ensures (forall j :: 0 <= j < n ==> data[offs + j] == buf[j]) <==> Matches(flash, data, offset, offs + n)
    ensures Matches(flash, data, offset, size) ==> Matches(flash, data, offset, offs + n)
  {
    if forall j :: 0 <= j < n ==> data[offs + j] == buf[j] {
      forall i | 0 <= i < offs + n ensures flash[offset + i] == data[i] {
        if i >= offs { assert data[offs + (i - offs)] == buf[i - offs]; }
      }
    }
    if Matches(flash, data, offset, offs + n) {
      forall j | 0 <= j < n ensures data[offs + j] == buf[j] {
        assert flash[offset + (offs + j)] == data[offs + j];
      }
    }
  }

  /**
   The image: outside the erased blocks nothing changes, the file is at its offset, and the rest of its last
   page, and of its blocks, is erased.
   */
  lemma ImageMatches(flash: seq<byte>, offset: nat, data: seq<byte>, size: nat)
    requires size <= |data| && Pages(size) * PAGE <= |data| && offset + ErasedPages(size) * PAGE <= |flash|
    requires Pages(size) <= ErasedPages(size)
    ensures var image := Image(flash, offset, data, size);
            && |image| == |flash| && Matches(image, data, offset, size)
            && SameOutside(flash, image, offset, offset + ErasedPages(size) * PAGE)
            && ((forall i :: size <= i < |data| ==> data[i] == 0xFF) ==> Blank(image, offset + size, offset + ErasedPages(size) * PAGE))
  {
    PagesHold(size);
    hide Pages, ErasedPages;
  }
}
