/**
 The program-flash part of fsl_flash.c: erase, program, program section and verify erase, over a model
 of the flash controller and its commands.

 A command that does not meet what the controller asks of its address and size is an access error and changes
 nothing. Any other command may still fail at any time (`faults` counts how often one did); what is then in the
 bytes it was to change is not known. The commands keep 24 bits of an address.
 */
module FlashDriver {
  import opened Machine
  import opened Bits
  import opened FlashImage

  const ERASE_KEY: uint32 := 0x6B66_656B
  const WRITE_UNIT: nat := 8
  const COMMAND_ALIGNMENT: nat := 16
  const RAM_SIZE: nat := 0x400
  const ADDRESSES: nat := 0x100_0000

  datatype Status = Success | AlignmentError | AddressError | EraseKeyError
                  | AccessError | ProtectionViolation | CommandFailure

  /** flash_config_t, with the sizes of a sector and a block as powers of two. */
  datatype Config = Config(base: uint32, sectorLog: nat, blockLog: nat, blockCount: nat)
  {
    function Sector(): nat { Pow2(sectorLog) }
    function Block(): nat { Pow2(blockLog) }
    function Total(): nat { blockCount * Pow2(blockLog) }

    /** A command address has 24 bits, of which the highest selects the data flash, a phrase count 16 bits. */
    predicate Valid() {
      && 10 <= sectorLog <= blockLog < 20
      && 0 < blockCount && Total() <= 0x80_0000
      && Multiple(base, ADDRESSES) && base + Total() <= 0x8000_0000
    }
  }

  /** The flash of the MK64FN1M0: 1 MB in two blocks, with sectors of 4 KB. */
  const MK64FN1M0 := Config(0, 12, 19, 2)

  lemma Mk64Sizes()
    ensures MK64FN1M0.Valid() && MK64FN1M0.Sector() == 0x1000 && MK64FN1M0.Total() == 0x10_0000
  {
    assert Pow2(10) == 0x400 && Pow2(9) == 0x200 && Pow2(2) == 4;
    Pow2Split(9, 19);
    Pow2Split(2, 12);
    assert Pow2(19) == 0x8_0000;
  }

  lemma Sizes(c: Config)
    requires c.Valid()
    ensures c.Sector() > 0 && Multiple(c.Sector(), 1024)
    ensures Multiple(c.Block(), c.Sector()) && c.Sector() <= c.Block() < 0x10_0000 && c.Block() <= c.Total()
    ensures Multiple(c.Total(), c.Block()) && Multiple(c.Total(), c.Sector())
    ensures Multiple(ADDRESSES, c.Block()) && Multiple(ADDRESSES, c.Sector())
  {
    assert Pow2(5) == 32 && Pow2(4) == 16;
    Pow2Split(5, 10);
    Pow2Split(10, 20);
    Pow2Split(4, 24);
    hide Pow2;
    Pow2Divides(10, c.sectorLog);
    Pow2Divides(c.sectorLog, c.blockLog);
    Pow2Divides(c.blockLog, 24);
    Pow2Divides(c.sectorLog, 24);
    Pow2Below(c.blockLog, 20);
    if c.sectorLog < c.blockLog { Pow2Below(c.sectorLog, c.blockLog); }
    ModIs(c.Total(), c.Block(), c.blockCount, 0);
    MultipleOf(c.Total(), c.Block(), c.Sector());
    MulLe(1, c.blockCount, c.Block());
  }

  /** A multiple of what the commands ask of addresses and lengths. */
  predicate Aligned(x: int) {
    x % COMMAND_ALIGNMENT == 0
  }

  // ---------------------------------------------------------------------------------------------
  // The range check
  // ---------------------------------------------------------------------------------------------

  /** flash_check_range. */
  function CheckRange(c: Config, start: uint32, length: uint32, alignment: nat): Status
    requires alignment > 0
  {
    if And(start, alignment - 1) != 0 || And(length, alignment - 1) != 0 then AlignmentError
    else if start >= c.base && Wrap(start + length) <= Wrap(c.base + c.Total()) then Success
    else AddressError
  }

  /**
   The check accepts exactly the aligned ranges inside the flash, and the aligned ranges that wrap
   around the address space and end below the end of the flash.
   */
  lemma CheckRangeAccepts(c: Config, start: uint32, length: uint32, k: nat)
    requires c.Valid()
    ensures CheckRange(c, start, length, Pow2(k)) == Success <==>
            && start % Pow2(k) == 0 && length % Pow2(k) == 0 && c.base <= start
            && (start + length <= c.base + c.Total()
                || 0x1_0000_0000 <= start + length <= 0x1_0000_0000 + c.base + c.Total())
    ensures CheckRange(c, start, length, Pow2(k)) in {Success, AlignmentError, AddressError}
  {
    hide And, Pow2, Config.Total, CheckRange, Low;
    MaskTest(start, k);
    MaskTest(length, k);
    CheckRangeWith(c, start, length, Pow2(k));
  }

  lemma MaskTest(x: nat, k: nat)
    ensures And(x, Pow2(k) - 1) == x % Pow2(k)
  {
    AndLow(x, k);
    LowIsMod(x, k);
  }

  lemma CheckRangeWith(c: Config, start: uint32, length: uint32, alignment: nat)
    requires c.Valid() && alignment > 0
    ensures CheckRange(c, start, length, alignment) ==
            if And(start, alignment - 1) != 0 || And(length, alignment - 1) != 0 then AlignmentError
            else if start >= c.base && (start + length <= c.base + c.Total()
                 || 0x1_0000_0000 <= start + length <= 0x1_0000_0000 + c.base + c.Total()) then Success
            else AddressError
  {
    hide And, Config.Total;
  }

  predicate Accepted(c: Config, start: uint32, length: uint32, alignment: nat)
    requires alignment > 0
  {
    CheckRange(c, start, length, alignment) == Success
  }

  /** The 24 bits that a command keeps of an address. */
  function Alias(address: nat): (r: nat)
    ensures r < ADDRESSES && r <= address && Multiple(address - r, ADDRESSES)
  {
    FloorCeilMultiples(address, ADDRESSES);
    address - FloorTo(address, ADDRESSES)
  }

  /**
   The commands of an accepted range start at the 24 bits of its offset in the flash. The range fits into the
   flash from there exactly when it does not wrap round the address space.
   */
  lemma AcceptedFits(c: Config, start: uint32, length: uint32, alignment: nat)
    requires c.Valid() && alignment in {WRITE_UNIT, COMMAND_ALIGNMENT} && Accepted(c, start, length, alignment)
    ensures c.base <= start && Multiple(start, alignment) && Multiple(length, alignment)
    ensures var at := Alias(start - c.base);
            (at + length <= c.Total() <==> start + length < 0x1_0000_0000)
            && (start + length < 0x1_0000_0000 ==> at == start - c.base)
            && (start - c.base + length < 0x1_0000_0000 ==> start - c.base - at <= 0xFE00_0000)
  {
    SmallPowers();
    hide And, Pow2, CheckRange, Config.Total, Alias;
    CheckRangeAccepts(c, start, length, if alignment == 8 then 3 else 4);
    SmallTotal(c);
    var a := start - c.base;
    AliasSmall(a);
    AliasShift(c.base, a);
  }

  lemma AliasSmall(a: nat)
    ensures a < ADDRESSES ==> Alias(a) == a
  {
  }

  /** Below the place where the address space ends there is room for a whole multiple of 2^24. */
  lemma AliasShift(base: uint32, a: nat)
    requires Multiple(base, ADDRESSES) && base + a < 0x1_0000_0000
    ensures base + (a - Alias(a)) + ADDRESSES <= 0x1_0000_0000
    ensures base > 0 ==> base >= ADDRESSES
  {
    var shift := a - Alias(a);
    assert Multiple(0x1_0000_0000, ADDRESSES);
    hide Alias;
    SumMultiple(base, shift, ADDRESSES);
    assert Multiple(0, ADDRESSES);
    hide Multiple;
    NextMultiple(base + shift, 0x1_0000_0000, ADDRESSES);
    NextMultiple(0, base, ADDRESSES);
  }

  lemma SumMultiple(x: nat, y: nat, a: nat)
    requires Multiple(x, a) && Multiple(y, a)
    ensures Multiple(x + y, a)
  {
    var p, q := x / a, y / a;
    assert x == p * a && y == q * a;
    SumOfProducts(p, q, a);
    ModIs(x + y, a, p + q, 0);
  }

  lemma SumOfProducts(p: nat, q: nat, a: nat)
    ensures (p + q) * a == p * a + q * a
  {
  }

  // ---------------------------------------------------------------------------------------------
  // The commands
  // ---------------------------------------------------------------------------------------------

  datatype Kind = Erases | Phrases | Sections | Reads

  datatype Command =
    | EraseSector(address: nat)
    | WritePhrase(address: nat)
    | WriteSection(address: nat, bytes: nat)
    | ReadSection(address: nat, bytes: nat)

  function KindOf(c: Command): Kind {
    match c
    case EraseSector(_) => Erases
    case WritePhrase(_) => Phrases
    case WriteSection(_, _) => Sections
    case ReadSection(_, _) => Reads
  }

  /** How many bytes a command programs or verifies. */
  function Bytes(c: Command): nat {
    match c
    case EraseSector(_) => 0
    case WritePhrase(_) => WRITE_UNIT
    case WriteSection(_, bytes) => bytes
    case ReadSection(_, bytes) => bytes
  }

  /** Whole units of a section command inside one part of the flash, a sector or a block. */
  predicate Within(address: nat, bytes: nat, part: nat, total: nat)
    requires part > 0
  {
    && Aligned(address) && Aligned(bytes) && 0 < bytes
    && address + bytes <= FloorTo(address, part) + part && address + bytes <= total
  }

  /** What the controller asks of the address and the size of a command. */
  predicate Fits(c: Config, command: Command) {
    && c.Sector() > 0 && c.Block() > 0
    && match command
       case EraseSector(address) => Aligned(address) && address < c.Total()
       case WritePhrase(address) => Multiple(address, WRITE_UNIT) && address + WRITE_UNIT <= c.Total()
       case WriteSection(address, bytes) => Within(address, bytes, c.Sector(), c.Total()) && bytes <= RAM_SIZE
       case ReadSection(address, bytes) => Within(address, bytes, c.Block(), c.Total())
  }

  /** The sector erase commands for the sectors from `first` to `limit`, each at `offset` in its sector. */
  function EraseCommands(first: nat, limit: nat, offset: nat, sector: nat): seq<Command>
    requires sector > 0
    decreases limit
  {
    if limit < first + sector then []
    else EraseCommands(first, limit - sector, offset, sector) + [EraseSector(limit - sector + offset)]
  }

  /** Commands of one kind that the controller can do and that cover the bytes from `from` to `end` in order. */
  predicate Cover(c: Config, kind: Kind, commands: seq<Command>, from: nat, end: nat)
    decreases |commands|
  {
    if commands == [] then from == end
    else
      var last := commands[|commands| - 1];
      && KindOf(last) == kind && Fits(c, last) && last.address + Bytes(last) == end
      && Cover(c, kind, commands[..|commands| - 1], from, last.address)
  }

  /** A longer log that covers more. */
  ghost predicate Covers(c: Config, kind: Kind, was: seq<Command>, now: seq<Command>, from: nat, end: nat) {
    |was| <= |now| && now[..|was|] == was && Cover(c, kind, now[|was|..], from, end)
  }

  /** As `Covers`, and then one command that the controller refused. */
  ghost predicate CoversAndOne(c: Config, kind: Kind, was: seq<Command>, now: seq<Command>, from: nat, end: nat) {
    |now| > 0 && !Fits(c, now[|now| - 1]) && Covers(c, kind, was, now[..|now| - 1], from, end)
  }

  lemma CoversNothing(c: Config, kind: Kind, log: seq<Command>, from: nat)
    ensures Covers(c, kind, log, log, from, from)
  {
  }

  lemma CoversMore(c: Config, was: seq<Command>, now: seq<Command>, from: nat, last: Command)
    requires Fits(c, last) && Covers(c, KindOf(last), was, now, from, last.address)
    ensures Covers(c, KindOf(last), was, now + [last], from, last.address + Bytes(last))
  {
    hide Fits, Cover;
    var rest := now[|was|..];
    assert (now + [last])[|was|..] == rest + [last];
    CoverSnoc(c, rest, from, last);
  }

  lemma CoverSnoc(c: Config, commands: seq<Command>, from: nat, last: Command)
    requires Fits(c, last) && Cover(c, KindOf(last), commands, from, last.address)
    ensures Cover(c, KindOf(last), commands + [last], from, last.address + Bytes(last))
  {
    hide Fits, Bytes, KindOf;
    assert (commands + [last])[..|commands|] == commands;
  }

  lemma CoversThenRefused(c: Config, was: seq<Command>, now: seq<Command>, from: nat, last: Command, end: nat)
    requires !Fits(c, last) && Covers(c, KindOf(last), was, now, from, end)
    ensures CoversAndOne(c, KindOf(last), was, now + [last], from, end)
  {
    hide Fits;
    assert (now + [last])[..|now|] == now;
  }

  lemma {:induction false} CoverJoin(c: Config, kind: Kind, x: seq<Command>, y: seq<Command>, from: nat, mid: nat, end: nat)
    requires Cover(c, kind, x, from, mid) && Cover(c, kind, y, mid, end)
    ensures Cover(c, kind, x + y, from, end)
    decreases |y|
  {
    hide Fits;
    if y == [] {
      assert x + y == x;
    } else {
      var most := y[..|y| - 1];
      CoverJoin(c, kind, x, most, from, mid, y[|y| - 1].address);
      assert (x + y)[..|x + y| - 1] == x + most;
    }
  }

  lemma CoversJoin(c: Config, kind: Kind, x: seq<Command>, y: seq<Command>, z: seq<Command>, from: nat, mid: nat, end: nat)
    requires Covers(c, kind, x, y, from, mid) && Covers(c, kind, y, z, mid, end)
    ensures Covers(c, kind, x, z, from, end)
  {
    hide Fits;
    CoverJoin(c, kind, y[|x|..], z[|y|..], from, mid, end);
    assert z[|x|..] == y[|x|..] + z[|y|..];
  }

  lemma CoversAndOneJoin(c: Config, kind: Kind, x: seq<Command>, y: seq<Command>, z: seq<Command>, from: nat, mid: nat, end: nat)
    requires Covers(c, kind, x, y, from, mid) && CoversAndOne(c, kind, y, z, mid, end)
    ensures CoversAndOne(c, kind, x, z, from, end)
  {
    hide Fits, Cover;
    CoversJoin(c, kind, x, y, z[..|z| - 1], from, mid, end);
  }

  class Flash {
    const config: Config
    var memory: seq<byte>
    var flexRam: seq<byte>
    ghost var log: seq<Command>
    ghost var faults: nat

    predicate Valid()
      reads this
    {
      config.Valid() && |memory| == config.Total() && |flexRam| == RAM_SIZE
    }

    ghost function Contents(): Snapshot
      reads this
    {
      Snapshot(memory, log, faults)
    }

    /** A command that did not succeed may leave anything in the bytes it works on. */
    method Fault(from: nat, to: nat) returns (r: Status)
      requires Valid() && from <= to <= |memory|
      modifies this`memory, this`faults
      ensures Valid() && r in {AccessError, ProtectionViolation, CommandFailure}
      ensures faults == old(faults) + 1 && SameOutside(old(memory), memory, from, to)
    {
      var garbage: seq<byte> := *;
      faults := faults + 1;
      if |garbage| == to - from {
        memory := memory[..from] + garbage + memory[to..];
      }
      r := if |garbage| % 3 == 0 then AccessError else if |garbage| % 3 == 1 then ProtectionViolation else CommandFailure;
    }

    /** Erase Flash Sector, at any address in the sector. */
    method EraseSectorCommand(address: nat) returns (r: Status)
      requires Valid() && config.Sector() > 0
      modifies this`memory, this`log, this`faults
      ensures Valid()
      ensures var command := EraseSector(Alias(address));
              var from := FloorTo(command.address, config.Sector());
              && log == old(log) + [command]
              && (!Fits(config, command) ==> r == AccessError && memory == old(memory) && faults == old(faults))
              && (Fits(config, command) && r == Success ==>
                    memory == Erased(old(memory), from, from + config.Sector()) && faults == old(faults))
              && (Fits(config, command) && r != Success ==>
                    SameOutside(old(memory), memory, from, from + config.Sector()) && faults == old(faults) + 1)
      ensures r in {Success, AccessError, ProtectionViolation, CommandFailure}
    {
      hide Pow2, Alias;
      var at := Alias(address);
      var from := FloorTo(at, config.Sector());
      log := log + [EraseSector(at)];
      var works: bool := *;
      if !Fits(config, EraseSector(at)) {
        r := AccessError;
      } else if works {
        memory := Erased(memory, from, from + config.Sector());
        r := Success;
      } else {
        Sizes(config);
        SectorEnd(at, config.Total(), config.Sector());
        r := Fault(from, from + config.Sector());
      }
    }

    /** Program Phrase. */
    method ProgramPhraseCommand(address: nat, phrase: seq<byte>) returns (r: Status)
      requires Valid() && |phrase| == WRITE_UNIT
      modifies this`memory, this`log, this`faults
      ensures Valid()
      ensures Performed(config, old(Contents()), Contents(), WritePhrase(Alias(address)), phrase, r)
    {
      hide Pow2, Alias;
      var command := WritePhrase(Alias(address));
      log := log + [command];
      var works: bool := *;
      if !Fits(config, command) {
        r := AccessError;
      } else if works {
        memory := Programmed(memory, command.address, phrase);
        r := Success;
      } else {
        r := Fault(command.address, command.address + WRITE_UNIT);
      }
    }

    /** The driver copies the data of a section to the RAM buffer of the controller. */
    method CopyToRam(data: seq<byte>)
      requires Valid() && |data| <= RAM_SIZE
      modifies this`flexRam
      ensures Valid() && flexRam[..|data|] == data
    {
      flexRam := data + flexRam[|data|..];
    }

    /** Program Section takes its data from the RAM buffer and must stay in a sector. */
    method ProgramSectionCommand(address: nat, phrases: nat) returns (r: Status)
      requires Valid() && phrases < 0x1_0000 && COMMAND_ALIGNMENT * phrases <= RAM_SIZE
      modifies this`memory, this`log, this`faults
      ensures Valid()
      ensures var bytes := COMMAND_ALIGNMENT * phrases;
              Performed(config, old(Contents()), Contents(), WriteSection(Alias(address), bytes), flexRam[..bytes], r)
    {
      hide Pow2, Alias;
      var command := WriteSection(Alias(address), COMMAND_ALIGNMENT * phrases);
      log := log + [command];
      var works: bool := *;
      if !Fits(config, command) {
        r := AccessError;
      } else if works {
        memory := Programmed(memory, command.address, flexRam[..command.bytes]);
        r := Success;
      } else {
        r := Fault(command.address, command.address + command.bytes);
      }
    }

    /** Read 1s Section must stay in a block. */
    method VerifySectionCommand(address: nat, phrases: nat) returns (r: Status)
      requires Valid() && phrases < 0x1_0000
      modifies this`log, this`faults
      ensures Valid()
      ensures Compared(config, old(Contents()), Contents(), ReadSection(Alias(address), COMMAND_ALIGNMENT * phrases), r)
    {
      hide Pow2, Alias;
      var command := ReadSection(Alias(address), COMMAND_ALIGNMENT * phrases);
      log := log + [command];
      var works: bool := *;
      if !Fits(config, command) {
        r := AccessError;
      } else if !works {
        faults := faults + 1;
        r := AccessError;
      } else if Blank(memory, command.address, command.address + command.bytes) {
        r := Success;
      } else {
        r := CommandFailure;
      }
    }

    // -------------------------------------------------------------------------------------------
    // The driver
    // -------------------------------------------------------------------------------------------

    /** The start of each operation: flash_get_matched_operation_info and flash_check_range. */
    method Match(start: uint32, length: uint32, alignment: nat) returns (r: Status, address: uint32)
      requires Valid() && alignment in {WRITE_UNIT, COMMAND_ALIGNMENT}
      ensures r == CheckRange(config, start, length, alignment)
      ensures r == Success ==>
        && config.base <= start && address == start - config.base && config.Total() <= 0x80_0000
        && (Alias(address) + length <= config.Total() <==> start + length < 0x1_0000_0000)
        && (address + length < 0x1_0000_0000 ==> address - Alias(address) <= 0xFE00_0000)
        && (alignment == WRITE_UNIT ==> Multiple(length, WRITE_UNIT) && Multiple(Alias(address), WRITE_UNIT))
        && (alignment == COMMAND_ALIGNMENT ==> Aligned(length) && Aligned(address) && Aligned(Alias(address)))
    {
      hide And, Pow2, CheckRange, Config.Total, Alias, Multiple, Aligned;
      address := Wrap(start - config.base);
      r := CheckRange(config, start, length, alignment);
      if r == Success {
        AcceptedFits(config, start, length, alignment);
        SmallTotal(config);
        WrapSmall(start - config.base);
        StillAligned(start, config.base, Alias(address), length);
      }
    }

    /**
     FLASH_Erase. The sectors from the one of `start` to `EraseLimit` are erased in order, each by one
     command, even when `start` is inside a sector.
     */
    method Erase(start: uint32, length: uint32, key: uint32) returns (r: Status)
      requires Valid()
      modifies this`memory, this`log, this`faults
      ensures Valid()
      ensures !Accepted(config, start, length, COMMAND_ALIGNMENT) ==>
        r == CheckRange(config, start, length, COMMAND_ALIGNMENT) && Contents() == old(Contents())
      ensures Accepted(config, start, length, COMMAND_ALIGNMENT) ==>
        var a, sector := start - config.base, config.Sector();
        var limit := EraseLimit(a, length, sector) - (a - Alias(a));
        EraseOutcome(old(Contents()), Contents(), Alias(a), limit, sector, key, r)
    {
      hide And, Pow2, CheckRange, EraseOutcome, EraseLimit, Multiple, FloorTo, Config.Sector, Config.Block,
           Config.Total, Aligned, Alias;
      var address: uint32;
      r, address := Match(start, length, COMMAND_ALIGNMENT);
      if r != Success {
        return;
      }
      Sizes(config);
      var sectorSize := config.Sector();
      var endAddress := Wrap(address + length - 1);
      EndOfErase(config, address, length);
      if endAddress % sectorSize != 0 {
        var numberOfSectors := endAddress / sectorSize + 1;
        endAddress := Wrap(numberOfSectors * sectorSize - 1);
      }
      r := EraseUpTo(address, endAddress, sectorSize, key);
    }

    /** The loop of FLASH_Erase. */
    method EraseUpTo(start: uint32, endAddress: uint32, sectorSize: nat, key: uint32) returns (r: Status)
      requires Valid() && sectorSize == config.Sector() && Aligned(start)
      requires sectorSize > 0 && Multiple(endAddress + 1, sectorSize)
      modifies this`memory, this`log, this`faults
      ensures Valid()
      ensures EraseOutcome(old(Contents()), Contents(), Alias(start), endAddress + 1 - (start - Alias(start)), sectorSize, key, r)
    {
      hide Pow2, Multiple, FloorTo, Erased, SameOutside, EraseCommands, EraseOutcome, Config.Sector,
           Config.Total, Config.Valid, Aligned, Wrap, Alias;
      Sizes(config);
      SmallTotal(config);
      ghost var at, shift := Alias(start), start - Alias(start);
      ghost var first, limit := FloorTo(at, sectorSize), endAddress + 1 - shift;
      ghost var offset: nat, hi: nat, was := at - first, first, memory;
      EraseStart(config, start, endAddress + 1);
      ErasedNothing(memory, first, offset, sectorSize);
      var address := start;
      r := Success;
      while address <= endAddress
        invariant Valid() && r == Success && faults == old(faults) && sectorSize == config.Sector()
        invariant address == shift + hi + offset && first <= hi && (hi == first || hi <= config.Total())
        invariant Multiple(hi, sectorSize) && hi + offset < ADDRESSES
        invariant address <= endAddress <==> hi < limit
        invariant hi < limit ==> hi + sectorSize <= limit
        invariant hi > first ==> key == ERASE_KEY && hi <= limit
        invariant memory == Erased(was, first, hi) && log == old(log) + EraseCommands(first, hi, offset, sectorSize)
        decreases config.Total() - hi
      {
        if key != ERASE_KEY {
          RefusedErase(old(Contents()), at, limit, sectorSize, key);
          return EraseKeyError;
        }
        EraseStep(config, start, hi, endAddress + 1);
        EraseOneMore(was, first, hi, offset, sectorSize);
        r := EraseSectorCommand(address);
        if r != Success {
          FailedErase(old(Contents()), Contents(), at, hi, limit, sectorSize, r);
          return;
        }
        address := Wrap(address + sectorSize);
        hi := hi + sectorSize;
      }
      DoneErase(old(Contents()), Contents(), at, limit, sectorSize, key);
    }

    /** FLASH_Program. Of a range that does not fit it programs what fits and ends with an access error. */
    method Program(start: uint32, src: seq<byte>, length: uint32) returns (r: Status)
      requires Valid() && |src| >= length
      modifies this`memory, this`log, this`faults
      ensures Valid()
      ensures !Accepted(config, start, length, WRITE_UNIT) ==>
        r == CheckRange(config, start, length, WRITE_UNIT) && Contents() == old(Contents())
      ensures Accepted(config, start, length, WRITE_UNIT) ==>
        var at := Alias(start - config.base);
        && (at + length <= config.Total() <==> start + length < 0x1_0000_0000)
        && ProgramOutcome(config, Phrases, old(Contents()), Contents(), at, src[..length], Room(config, at, length), r)
    {
      hide And, Pow2, CheckRange, Programmed, SameOutside, Config.Total, Config.Sector, Config.Block, Config.Valid,
           ProgramOutcome, Covers, Fits, Alias, Room, Performed, Wrap, Multiple;
      var address: uint32;
      r, address := Match(start, length, WRITE_UNIT);
      if r != Success {
        return;
      }
      var remaining: nat := length;
      ghost var at, shift, room := Alias(address), address - Alias(address), Room(config, Alias(address), length);
      NothingProgrammed(config, Phrases, Contents(), at, src);
      RoomBounds(config, at, length);
      while remaining > 0
        invariant Valid() && r == Success && remaining <= length && Multiple(remaining, WRITE_UNIT)
        invariant address == shift + at + (length - remaining) && length - remaining <= room
        invariant ProgramOutcome(config, Phrases, old(Contents()), Contents(), at, src[..length - remaining], length - remaining, Success)
      {
        var k := length - remaining;
        ghost var before := Contents();
        PhraseStep(config, start - config.base, length, k, remaining);
        r := ProgramPhraseCommand(address, src[k..k + WRITE_UNIT]);
        CommandOutcome(config, before, Contents(), WritePhrase(at + k), src[k..k + WRITE_UNIT], r);
        OutcomeJoin(config, Phrases, old(Contents()), before, Contents(), at, src, k, k + WRITE_UNIT, length,
                    Done(config, WritePhrase(at + k)), room, r);
        if r != Success {
          return;
        }
        address := Wrap(address + WRITE_UNIT);
        remaining := remaining - WRITE_UNIT;
      }
    }

    /**
     FLASH_ProgramSection. The commands cover the range in order, whatever its alignment to sectors; each
     stays in a sector and in the RAM buffer. Of a range that does not fit it programs the first `SectionsDone`
     bytes and ends with an access error.
     */
    method ProgramSection(start: uint32, src: seq<byte>, length: uint32) returns (r: Status)
      requires Valid() && |src| >= length
      modifies this`memory, this`flexRam, this`log, this`faults
      ensures Valid()
      ensures !Accepted(config, start, length, COMMAND_ALIGNMENT) ==>
        r == CheckRange(config, start, length, COMMAND_ALIGNMENT) && Contents() == old(Contents())
      ensures Accepted(config, start, length, COMMAND_ALIGNMENT) ==>
        var a := start - config.base;
        && (Alias(a) + length <= config.Total() <==> start + length < 0x1_0000_0000)
        && ProgramOutcome(config, Sections, old(Contents()), Contents(), Alias(a), src[..length], SectionsDone(config, a, length), r)
    {
      hide And, Pow2, CheckRange, Programmed, SameOutside, Config.Total, Config.Sector, Config.Block, Config.Valid,
           ProgramOutcome, Covers, Multiple, AlignUp, FloorTo, Aligned, Alias, SectionsDone, PassesDone, Wrap, Fits;
      var address: uint32;
      r, address := Match(start, length, COMMAND_ALIGNMENT);
      if r != Success {
        return;
      }
      SectorBelow(config);
      var sectorSize := config.Sector();
      var remaining: nat := length;
      var next: nat := 0;
      ghost var a, at, done := address, Alias(address), SectionsDone(config, address, length);
      NothingProgrammed(config, Sections, Contents(), at, src);
      RamAligned();
      while remaining > 0
        invariant Valid() && r == Success && remaining + next == length && Aligned(next) && Aligned(remaining)
        invariant address == a + next && Alias(address) == at + next
        invariant next > 0 ==> a + length < 0x1_0000_0000 && at + next <= config.Total()
        invariant ProgramOutcome(config, Sections, old(Contents()), Contents(), at, src[..next], next, Success)
      {
        AlignedSum(a, next);
        var endAddress := AlignUp(address, sectorSize);
        if endAddress == address {
          endAddress := Wrap(endAddress + sectorSize);
        }
        var toProgram: nat := if Wrap(remaining + address) > endAddress then Wrap(endAddress - address) else remaining;
        SectorShare(config, address, remaining, endAddress, toProgram);
        SectionStep(config, a, length, next, toProgram);
        AlignedSum(next, toProgram);
        AlignedDifference(remaining, toProgram);
        ghost var before := Contents();
        r := ProgramInSector(address, src, next, toProgram);
        OutcomeJoin(config, Sections, old(Contents()), before, Contents(), at, src, next, next + toProgram, length,
                    PassesDone(config, at + next, toProgram), done, r);
        if r != Success {
          return;
        }
        WrapSmall(address + toProgram);
        next := next + toProgram;
        address := Wrap(address + toProgram);
        remaining := remaining - toProgram;
      }
      SectionsAll(config, a, length);
    }

    /** The inner loop of FLASH_ProgramSection: passes of at most the size of the RAM buffer. */
    method ProgramInSector(address: uint32, src: seq<byte>, next: nat, toProgram: nat) returns (r: Status)
      requires Valid() && next + toProgram <= |src| && Aligned(address) && Aligned(toProgram)
      modifies this`memory, this`flexRam, this`log, this`faults
      ensures Valid()
      ensures ProgramOutcome(config, Sections, old(Contents()), Contents(), Alias(address), src[next..next + toProgram],
                             PassesDone(config, Alias(address), toProgram), r)
    {
      hide Pow2, Programmed, SameOutside, Config.Total, Config.Sector, Config.Block, Config.Valid, ProgramOutcome, Covers,
           Multiple, FloorTo, Aligned, Alias, PassesDone, Wrap, Fits, Performed;
      SectorBelow(config);
      ghost var at, data, done := Alias(address), src[next..next + toProgram], PassesDone(config, Alias(address), toProgram);
      NothingProgrammed(config, Sections, Contents(), at, data);
      var remaining: nat, offset: nat := toProgram, 0;
      PassStart(config, at, toProgram);
      AliasAligned(address);
      r := Success;
      while remaining > 0
        invariant Valid() && r == Success && remaining + offset == toProgram && offset <= done
        invariant Aligned(remaining) && (remaining > 0 ==> Multiple(offset, RAM_SIZE))
        invariant ProgramOutcome(config, Sections, old(Contents()), Contents(), at, data[..offset], offset, Success)
      {
        var size: nat := if remaining > RAM_SIZE then RAM_SIZE else remaining;
        CopyToRam(src[next + offset..next + offset + size]);
        SliceOfSlice(src, next, toProgram, offset, offset + size);
        var phrases := size / COMMAND_ALIGNMENT;
        RamAligned();
        Phrases16(size);
        PassAddress(config, address, toProgram, offset);
        PassStep(config, at, toProgram, offset, size);
        AlignedDifference(remaining, size);
        ghost var before := Contents();
        r := ProgramSectionCommand(Wrap(address + offset), phrases);
        CommandOutcome(config, before, Contents(), WriteSection(at + offset, size), data[offset..offset + size], r);
        OutcomeJoin(config, Sections, old(Contents()), before, Contents(), at, data, offset, offset + size, toProgram,
                    Done(config, WriteSection(at + offset, size)), done, r);
        if r != Success {
          assert data[..toProgram] == data;
          return;
        }
        remaining := remaining - size;
        offset := offset + size;
      }
      assert data[..toProgram] == data;
    }

    /** FLASH_VerifyErase. */
    method VerifyErase(start: uint32, length: uint32) returns (r: Status)
      requires Valid()
      modifies this`log, this`faults
      ensures Valid()
      ensures !Accepted(config, start, length, COMMAND_ALIGNMENT) ==>
        r == CheckRange(config, start, length, COMMAND_ALIGNMENT) && Contents() == old(Contents())
      ensures Accepted(config, start, length, COMMAND_ALIGNMENT) ==>
        var at := Alias(start - config.base);
        && (at + length <= config.Total() <==> start + length < 0x1_0000_0000)
        && VerifyOutcome(config, old(Contents()), Contents(), at, at + length, r)
    {
      hide And, Pow2, CheckRange, Config.Total, Config.Sector, Config.Block, Covers, Multiple, AlignUp, Verified,
           FloorTo, Blank, Aligned, VerifyOutcome, Config.Valid, Wrap, Alias, BlockShare, Fits, Compared;
      var address: uint32;
      r, address := Match(start, length, COMMAND_ALIGNMENT);
      if r != Success {
        return;
      }
      ghost var from, at, shift := Alias(address), Alias(address), address - Alias(address);
      SectorBelow(config);
      var blockSize := config.Block();
      var remaining: nat := length;
      var nextBlock: uint32 := AlignUp(address, blockSize);
      if nextBlock == address {
        nextBlock := Wrap(nextBlock + blockSize);
      }
      FirstShare(config, address, nextBlock);
      NothingVerified(config, Contents(), from);
      while remaining > 0
        invariant Valid() && blockSize == config.Block()
        invariant at == from + (length - remaining) && address == shift + at && remaining <= length && Aligned(remaining)
        invariant remaining < length ==> at <= config.Total()
        invariant remaining > 0 ==> BlockShare(config, at, Wrap(nextBlock - address))
        invariant Verified(config, old(Contents()), Contents(), from, at)
      {
        var verifyLength: nat := Wrap(nextBlock - address);
        if verifyLength > remaining {
          verifyLength := remaining;
        }
        ShareStep(config, start - config.base, at, Wrap(nextBlock - address), remaining, verifyLength);
        AlignedDifference(remaining, verifyLength);
        var phrases := verifyLength / COMMAND_ALIGNMENT;
        Phrases16(verifyLength);
        ghost var before := Contents();
        r := VerifySectionCommand(address, phrases);
        VerifyJoin(config, old(Contents()), before, Contents(), from, at, verifyLength, from + length, r);
        if r != Success {
          return;
        }
        NextShare(nextBlock, address, blockSize);
        remaining := remaining - verifyLength;
        at := at + verifyLength;
        address := Wrap(address + verifyLength);
        nextBlock := Wrap(nextBlock + blockSize);
      }
      r := Success;
      VerifiedAll(config, old(Contents()), Contents(), from, at);
    }
  }

  /** The part of the state that commands change. */
  datatype Snapshot = Snapshot(memory: seq<byte>, log: seq<Command>, faults: nat)

  // ---------------------------------------------------------------------------------------------
  // Erasing
  // ---------------------------------------------------------------------------------------------

  /**
   Where FLASH_Erase stops: at the end of the sector of the last byte, counted modulo 2^32. When nothing is
   left of the end, as for a length of 0 at the start of the flash, there is no end at all.
   */
  function EraseLimit(address: nat, length: nat, sector: nat): nat
    requires sector > 0
  {
    var end := Wrap(address + length);
    if end == 0 then 0x1_0000_0000 else CeilTo(end, sector)
  }

  /** What FLASH_Erase does with an accepted range from `at` when it stops at `limit`. */
  ghost predicate EraseOutcome(was: Snapshot, now: Snapshot, at: nat, limit: int, sector: nat, key: uint32, r: Status)
    requires sector > 0
  {
    var first, total := FloorTo(at, sector), |was.memory|;
    if limit <= first then now == was && r == Success
    else if key != ERASE_KEY then now == was && r == EraseKeyError
    else if now.faults == was.faults then
      && r == (if limit <= total then Success else AccessError)
      && now.memory == Erased(was.memory, first, if limit <= total then limit else total)
      && now.log == was.log + EraseCommands(first, if limit <= total then limit else MaxOf(first, total) + sector, at - first, sector)
    else
      && now.faults == was.faults + 1 && r in {AccessError, ProtectionViolation, CommandFailure}
      && exists hi: nat :: EraseBrokenOff(was, now, at, hi, limit, sector)
  }

  /** The sectors up to `hi` are erased, the command for the next one failed. */
  ghost predicate EraseBrokenOff(was: Snapshot, now: Snapshot, at: nat, hi: nat, limit: int, sector: nat)
    requires sector > 0
  {
    var first := FloorTo(at, sector);
    && first <= hi && hi + sector <= limit && hi + sector <= |was.memory|
    && SameOutside(Erased(was.memory, first, hi), now.memory, hi, hi + sector)
    && now.log == was.log + EraseCommands(first, hi + sector, at - first, sector)
  }

  function MaxOf(x: nat, y: nat): nat {
    if x >= y then x else y
  }

  lemma SectorEnd(at: nat, total: nat, sector: nat)
    requires Multiple(total, sector)
    ensures at < total ==> FloorTo(at, sector) + sector <= total
    ensures FloorTo(at, sector) < total <==> at < total
  {
    FloorCeilMultiples(at, sector);
    NextMultiple(FloorTo(at, sector), total, sector);
  }

  /** The end address of FLASH_Erase is the last byte before the limit. */
  lemma EndOfErase(c: Config, address: uint32, length: uint32)
    requires c.Valid() && Aligned(address) && Aligned(length) && c.Sector() > 0
    ensures var sector, last := c.Sector(), Wrap(address + length - 1);
            var limit := EraseLimit(address, length, sector);
            last % sector != 0 && Wrap((last / sector + 1) * sector - 1) == limit - 1 && Multiple(limit, sector)
  {
    hide Pow2, Multiple, FloorTo, CeilTo, Config.Block, Config.Total;
    Sizes(c);
    Pow2Of32();
    Pow2Divides(c.sectorLog, 32);
    EndOfEraseBy(c.Sector(), address, length);
  }

  lemma EndOfEraseBy(sector: nat, address: uint32, length: uint32)
    requires sector > 0 && Multiple(sector, 1024) && Multiple(0x1_0000_0000, sector)
    requires Aligned(address) && Aligned(length)
    ensures var last, limit := Wrap(address + length - 1), EraseLimit(address, length, sector);
            last % sector != 0 && Wrap(EndAfterSectors(last, sector) - 1) == limit - 1 && Multiple(limit, sector)
  {
    LastAligned(address, length);
    hide Multiple, FloorTo, CeilTo, EndAfterSectors, Wrap, Aligned;
    var last, end := Wrap(address + length - 1), Wrap(address + length);
    LastByte(last, sector);
    FloorCeilMultiples(end, sector);
    FloorCeilMultiples(last, sector);
    StepMultiple(FloorTo(last, sector), sector);
    NextMultiple(FloorTo(last, sector), 0x1_0000_0000, sector);
    WrapSmall(FloorTo(last, sector) + sector - 1);
    if end > 0 {
      CeilUnique(end, FloorTo(last, sector) + sector, sector);
    }
  }

  /** The address after whole sectors, as FLASH_Erase computes it from the last byte. */
  function EndAfterSectors(last: nat, sector: nat): nat
    requires sector > 0
  {
    (last / sector + 1) * sector
  }

  lemma LastAligned(address: uint32, length: uint32)
    requires Aligned(address) && Aligned(length)
    ensures Wrap(address + length - 1) % 16 == 15
    ensures Wrap(address + length - 1) == if Wrap(address + length) == 0 then 0xFFFF_FFFF else Wrap(address + length) - 1
  {
    AlignedSum(address, length);
    LastOf(address + length);
  }

  lemma LastOf(x: nat)
    requires Aligned(x)
    ensures Wrap(x - 1) % 16 == 15
    ensures Wrap(x - 1) == if Wrap(x) == 0 then 0xFFFF_FFFF else Wrap(x) - 1
  {
    WrapDown(x);
    WrapAligned(x);
    hide Wrap;
    LowFour(Wrap(x));
  }

  lemma WrapDown(x: int)
    ensures Wrap(x - 1) == if Wrap(x) == 0 then 0xFFFF_FFFF else Wrap(x) - 1
  {
  }

  lemma WrapAligned(x: int)
    requires Aligned(x)
    ensures Aligned(Wrap(x))
  {
  }

  lemma LowFour(x: nat)
    requires Aligned(x)
    ensures x > 0 ==> (x - 1) % 16 == 15
  {
  }

  lemma LastByte(last: uint32, sector: nat)
    requires sector > 0 && Multiple(sector, 1024) && last % 16 == 15
    ensures last % sector != 0
    ensures EndAfterSectors(last, sector) == FloorTo(last, sector) + sector
  {
    if last % sector == 0 {
      MultipleOf(last, sector, 1024);
    }
    OneMore(last / sector, sector);
  }

  /** Counting from the command address or from the 32-bit address makes no difference to the loop. */
  lemma EraseTurn(shift: nat, hi: nat, offset: nat, limit: nat, sector: nat)
    requires Multiple(shift, sector) && Multiple(hi, sector) && Multiple(limit, sector) && offset < sector
    ensures shift + hi + offset < limit <==> hi < limit - shift
    ensures hi < limit - shift ==> hi + sector <= limit - shift
  {
    SumMultiple(shift, hi, sector);
    hide Multiple;
    NextMultiple(shift + hi, limit, sector);
  }

  lemma EraseStart(c: Config, start: uint32, limit: nat)
    requires c.Valid() && c.Sector() > 0 && Multiple(limit, c.Sector())
    ensures var at, shift, first := Alias(start), start - Alias(start), FloorTo(Alias(start), c.Sector());
            && Multiple(first, c.Sector()) && Multiple(shift, c.Sector()) && shift <= 0xFF00_0000
            && (start < limit <==> first < limit - shift)
            && (first < limit - shift ==> first + c.Sector() <= limit - shift)
  {
    hide Pow2, Multiple, FloorTo, Alias, Config.Total, Config.Sector, Config.Block;
    Sizes(c);
    var at, shift := Alias(start), start - Alias(start);
    FloorCeilMultiples(at, c.Sector());
    MultipleOf(shift, ADDRESSES, c.Sector());
    EraseTurn(shift, FloorTo(at, c.Sector()), at - FloorTo(at, c.Sector()), limit, c.Sector());
    WholeSpaces(shift);
  }

  lemma WholeSpaces(shift: nat)
    requires Multiple(shift, ADDRESSES) && shift < 0x1_0000_0000
    ensures shift <= 0xFF00_0000
  {
  }

  lemma EraseStep(c: Config, start: uint32, hi: nat, limit: nat)
    requires c.Valid() && c.Sector() > 0 && Multiple(limit, c.Sector()) && Multiple(hi, c.Sector()) && Aligned(start)
    requires FloorTo(Alias(start), c.Sector()) <= hi && hi + (Alias(start) - FloorTo(Alias(start), c.Sector())) < ADDRESSES
    ensures var at, shift, offset := Alias(start), start - Alias(start), Alias(start) - FloorTo(Alias(start), c.Sector());
            && Alias(shift + hi + offset) == hi + offset && FloorTo(hi + offset, c.Sector()) == hi
            && (Fits(c, EraseSector(hi + offset)) <==> hi < c.Total())
            && Multiple(hi + c.Sector(), c.Sector())
            && (hi < c.Total() ==>
                  && hi + c.Sector() <= c.Total()
                  && hi + c.Sector() + offset < ADDRESSES
                  && Wrap(shift + hi + offset + c.Sector()) == shift + hi + offset + c.Sector()
                  && (shift + hi + offset + c.Sector() < limit <==> hi + c.Sector() < limit - shift)
                  && (hi + c.Sector() < limit - shift ==> hi + c.Sector() + c.Sector() <= limit - shift))
  {
    hide Pow2, Multiple, FloorTo, Alias, Config.Total, Config.Sector, Config.Block, Aligned;
    EraseStart(c, start, limit);
    Sizes(c);
    SmallTotal(c);
    var at, shift, sector := Alias(start), start - Alias(start), c.Sector();
    var offset: nat := at - FloorTo(at, sector);
    AliasOf(shift, hi + offset);
    FloorUnique(hi + offset, hi, sector);
    OffsetAligned(c, start, hi);
    SectorEnd(hi + offset, c.Total(), sector);
    StepMultiple(hi, sector);
    EraseTurn(shift, hi + sector, offset, limit, sector);
    WrapSmall(shift + hi + offset + sector);
  }

  lemma AliasOf(shift: nat, at: nat)
    requires Multiple(shift, ADDRESSES) && at < ADDRESSES
    ensures Alias(shift + at) == at
  {
    FloorUnique(shift + at, shift, ADDRESSES);
  }

  lemma OffsetAligned(c: Config, start: nat, hi: nat)
    requires c.Valid() && Aligned(start) && c.Sector() > 0 && Multiple(hi, c.Sector())
    ensures Aligned(hi + (Alias(start) - FloorTo(Alias(start), c.Sector())))
  {
    hide Pow2, Multiple, FloorTo, Alias, Aligned;
    Sizes(c);
    var at, sector := Alias(start), c.Sector();
    AliasAligned(start);
    FloorCeilMultiples(at, sector);
    MultipleOf(FloorTo(at, sector), sector, 1024);
    MultipleOf(hi, sector, 1024);
    Sixteenths(FloorTo(at, sector));
    Sixteenths(hi);
    AlignedDifference(at, FloorTo(at, sector));
    AlignedSum(hi, at - FloorTo(at, sector));
  }

  lemma AliasAligned(address: nat)
    ensures Aligned(address) ==> Aligned(Alias(address))
    ensures Multiple(address, WRITE_UNIT) ==> Multiple(Alias(address), WRITE_UNIT)
  {
    var shift := address - Alias(address);
    hide Alias;
    SpacesAligned(shift);
    AlignedDifference(address, shift);
    UnitDifference(address, shift);
  }

  lemma SpacesAligned(x: nat)
    requires Multiple(x, ADDRESSES)
    ensures Aligned(x) && Multiple(x, WRITE_UNIT)
  {
    assert Multiple(ADDRESSES, COMMAND_ALIGNMENT) && Multiple(ADDRESSES, WRITE_UNIT);
    MultipleOf(x, ADDRESSES, COMMAND_ALIGNMENT);
    MultipleOf(x, ADDRESSES, WRITE_UNIT);
  }

  lemma AlignedDifference(x: nat, y: nat)
    ensures Aligned(x) && Aligned(y) ==> Aligned(x - y)
  {
  }

  /** The offset in the flash, its 24 bits and the length are as aligned as the checked start and length. */
  lemma StillAligned(start: nat, base: nat, at: nat, length: nat)
    requires Multiple(base, ADDRESSES) && base <= start && at == Alias(start - base)
    ensures Multiple(start, WRITE_UNIT) ==> Multiple(at, WRITE_UNIT)
    ensures Multiple(start, COMMAND_ALIGNMENT) ==> Aligned(start - base) && Aligned(at)
    ensures Multiple(length, COMMAND_ALIGNMENT) ==> Aligned(length)
  {
    hide Alias;
    SpacesAligned(base);
    AlignedDifference(start, base);
    UnitDifference(start, base);
    AliasAligned(start - base);
  }

  lemma UnitDifference(x: nat, y: nat)
    requires y <= x
    ensures Multiple(x, WRITE_UNIT) && Multiple(y, WRITE_UNIT) ==> Multiple(x - y, WRITE_UNIT)
  {
  }

  lemma RamAligned()
    ensures Aligned(0) && Aligned(RAM_SIZE)
  {
  }

  /** Whole phrases, and not more than 16 bits can count in a block. */
  lemma Phrases16(size: nat)
    requires Aligned(size) && size < 0x10_0000
    ensures COMMAND_ALIGNMENT * (size / COMMAND_ALIGNMENT) == size && size / COMMAND_ALIGNMENT < 0x1_0000
  {
  }

  lemma Sixteenths(x: nat)
    requires Multiple(x, 1024)
    ensures Aligned(x)
  {
  }

  lemma ErasedNothing(mem: seq<byte>, first: nat, offset: nat, sector: nat)
    requires sector > 0
    ensures Erased(mem, first, first) == mem && EraseCommands(first, first, offset, sector) == []
  {
  }

  lemma EraseOneMore(mem: seq<byte>, first: nat, hi: nat, offset: nat, sector: nat)
    requires sector > 0 && first <= hi
    ensures Erased(Erased(mem, first, hi), hi, hi + sector) == Erased(mem, first, hi + sector)
    ensures EraseCommands(first, hi, offset, sector) + [EraseSector(hi + offset)] == EraseCommands(first, hi + sector, offset, sector)
  {
    ErasedJoin(mem, first, hi, hi + sector);
  }

  lemma RefusedErase(was: Snapshot, at: nat, limit: int, sector: nat, key: uint32)
    requires sector > 0 && FloorTo(at, sector) < limit && key != ERASE_KEY
    ensures EraseOutcome(was, was, at, limit, sector, key, EraseKeyError)
  {
  }

  lemma DoneErase(was: Snapshot, now: Snapshot, at: nat, limit: int, sector: nat, key: uint32)
    requires sector > 0 && now.faults == was.faults
    requires var first := FloorTo(at, sector);
             if limit <= first then now == was
             else key == ERASE_KEY && limit <= |was.memory| && now.memory == Erased(was.memory, first, limit)
                  && now.log == was.log + EraseCommands(first, limit, at - first, sector)
    ensures EraseOutcome(was, now, at, limit, sector, key, Success)
  {
    hide EraseCommands, FloorTo;
  }

  /** A command outside the flash, or one that failed. */
  lemma FailedErase(was: Snapshot, now: Snapshot, at: nat, hi: nat, limit: int, sector: nat, r: Status)
    requires sector > 0 && FloorTo(at, sector) <= hi && hi + sector <= limit && r in {AccessError, ProtectionViolation, CommandFailure}
    requires hi == FloorTo(at, sector) || hi <= |was.memory|
    requires now.log == was.log + EraseCommands(FloorTo(at, sector), hi + sector, at - FloorTo(at, sector), sector)
    requires if hi >= |was.memory|
             then r == AccessError && now.faults == was.faults && now.memory == Erased(was.memory, FloorTo(at, sector), hi)
             else now.faults == was.faults + 1 && hi + sector <= |was.memory|
                  && SameOutside(Erased(was.memory, FloorTo(at, sector), hi), now.memory, hi, hi + sector)
    ensures EraseOutcome(was, now, at, limit, sector, ERASE_KEY, r)
  {
    hide EraseCommands, FloorTo, SameOutside;
    if hi < |was.memory| {
      assert EraseBrokenOff(was, now, at, hi, limit, sector);
    }
  }

  // ---------------------------------------------------------------------------------------------
  // Programming
  // ---------------------------------------------------------------------------------------------

  /** One programming command. */
  ghost predicate Performed(c: Config, was: Snapshot, now: Snapshot, command: Command, data: seq<byte>, r: Status) {
    && now.log == was.log + [command]
    && if !Fits(c, command) then r == AccessError && now.memory == was.memory && now.faults == was.faults
       else if r == Success then now.memory == Programmed(was.memory, command.address, data) && now.faults == was.faults
       else
         && r in {AccessError, ProtectionViolation, CommandFailure} && now.faults == was.faults + 1
         && SameOutside(was.memory, now.memory, command.address, command.address + |data|)
  }

  /**
   What programming `data` at `at` does when the first `done` bytes fit. When no command fails, these bytes are
   programmed and nothing else; it is a success if they are all, and else the next command is refused.
   */
  ghost predicate ProgramOutcome(c: Config, kind: Kind, was: Snapshot, now: Snapshot, at: nat, data: seq<byte>,
                                 done: nat, r: Status)
  {
    done <= |data|
    && if now.faults == was.faults then
         && r == (if done == |data| then Success else AccessError)
         && now.memory == Programmed(was.memory, at, data[..done])
         && if done == |data| then Covers(c, kind, was.log, now.log, at, at + done)
            else CoversAndOne(c, kind, was.log, now.log, at, at + done)
       else
         && r in {AccessError, ProtectionViolation, CommandFailure} && now.faults == was.faults + 1
         && exists k: nat, n: nat :: ProgramBrokenOff(c, kind, was, now, at, data, k, n)
  }

  /** The first k bytes are programmed, the command for the next n failed. */
  ghost predicate ProgramBrokenOff(c: Config, kind: Kind, was: Snapshot, now: Snapshot, at: nat, data: seq<byte>,
                                   k: nat, n: nat)
  {
    && k + n <= |data| && Covers(c, kind, was.log, now.log, at, at + k + n)
    && SameOutside(Programmed(was.memory, at, data[..k]), now.memory, at + k, at + k + n)
  }

  /** How many bytes of a range are in the flash. */
  function Room(c: Config, at: nat, length: nat): nat {
    if at + length <= c.Total() then length else if at <= c.Total() then c.Total() - at else 0
  }

  /** How many bytes a command programs. */
  function Done(c: Config, command: Command): nat {
    if Fits(c, command) then Bytes(command) else 0
  }

  lemma NothingProgrammed(c: Config, kind: Kind, s: Snapshot, at: nat, src: seq<byte>)
    ensures ProgramOutcome(c, kind, s, s, at, src[..0], 0, Success)
  {
    CoversNothing(c, kind, s.log, at);
  }

  lemma CommandOutcome(c: Config, was: Snapshot, now: Snapshot, command: Command, data: seq<byte>, r: Status)
    requires 0 < |data| == Bytes(command) && Performed(c, was, now, command, data, r)
    ensures ProgramOutcome(c, KindOf(command), was, now, command.address, data, Done(c, command), r)
  {
    hide Programmed, SameOutside, Fits, Cover;
    var kind, at := KindOf(command), command.address;
    CoversNothing(c, kind, was.log, at);
    assert data[..|data|] == data;
    ProgrammedNothing(was.memory, at, data);
    if Fits(c, command) {
      CoversMore(c, was.log, was.log, at, command);
    } else {
      CoversThenRefused(c, was.log, was.log, at, command, at);
    }
    if now.faults != was.faults {
      assert ProgramBrokenOff(c, kind, was, now, at, data, 0, |data|);
    }
  }

  lemma ProgrammedNothing(mem: seq<byte>, at: nat, data: seq<byte>)
    ensures Programmed(mem, at, data[..0]) == mem
  {
  }

  /** A piece more, or the end of an operation that does not get through. */
  lemma OutcomeJoin(c: Config, kind: Kind, was: Snapshot, mid: Snapshot, now: Snapshot, at: nat, src: seq<byte>,
                    k: nat, n: nat, length: nat, more: nat, done: nat, r: Status)
    requires k < n <= length <= |src| && done <= length
    requires ProgramOutcome(c, kind, was, mid, at, src[..k], k, Success)
    requires ProgramOutcome(c, kind, mid, now, at + k, src[k..n], more, r)
    requires more < n - k ==> done == k + more
    ensures r == Success ==> more == n - k && ProgramOutcome(c, kind, was, now, at, src[..n], n, Success)
    ensures r != Success ==> ProgramOutcome(c, kind, was, now, at, src[..length], done, r)
  {
    hide AndByte, Covers, CoversAndOne, Programmed, SameOutside, ProgramBrokenOff;
    assert src[..k][..k] == src[..k] && mid.memory == Programmed(was.memory, at, src[..k]);
    if now.faults == mid.faults {
      JoinedPieces(was.memory, at, src, k, n, more);
      if r == Success {
        CoversJoin(c, kind, was.log, mid.log, now.log, at, at + k, at + n);
        assert src[..n][..n] == src[..n];
      } else {
        CoversAndOneJoin(c, kind, was.log, mid.log, now.log, at, at + k, at + k + more);
        assert src[..length][..done] == src[..k + more];
      }
    } else {
      var i: nat, j: nat :| ProgramBrokenOff(c, kind, mid, now, at + k, src[k..n], i, j);
      BrokenJoin(c, kind, was, mid, now, at, src, k, n, length, i, j);
    }
  }

  lemma JoinedPieces(mem: seq<byte>, at: nat, src: seq<byte>, k: nat, n: nat, more: nat)
    requires k <= n <= |src| && more <= n - k
    ensures Programmed(Programmed(mem, at, src[..k]), at + k, src[k..n][..more]) == Programmed(mem, at, src[..k + more])
  {
    hide Programmed;
    ProgrammedJoin(mem, at, src[..k], src[k..n][..more]);
    assert src[..k] + src[k..n][..more] == src[..k + more];
  }

  lemma BrokenJoin(c: Config, kind: Kind, was: Snapshot, mid: Snapshot, now: Snapshot, at: nat, src: seq<byte>,
                   k: nat, n: nat, length: nat, i: nat, j: nat)
    requires k <= n <= length <= |src| && mid.memory == Programmed(was.memory, at, src[..k])
    requires Covers(c, kind, was.log, mid.log, at, at + k)
    requires ProgramBrokenOff(c, kind, mid, now, at + k, src[k..n], i, j)
    ensures ProgramBrokenOff(c, kind, was, now, at, src[..length], k + i, j)
  {
    hide Programmed, SameOutside, Covers;
    JoinedPieces(was.memory, at, src, k, n, i);
    assert src[..length][..k + i] == src[..k + i];
    CoversJoin(c, kind, was.log, mid.log, now.log, at, at + k, at + k + i + j);
  }

  lemma RoomBounds(c: Config, at: nat, length: nat)
    ensures Room(c, at, length) <= length
    ensures Room(c, at, length) == length <==> length == 0 || at + length <= c.Total()
  {
  }

  /** The next phrase is in the flash, or the range ends here. */
  lemma PhraseStep(c: Config, a: uint32, length: nat, k: nat, remaining: nat)
    requires c.Valid() && Multiple(Alias(a), WRITE_UNIT) && Multiple(length, WRITE_UNIT) && Multiple(remaining, WRITE_UNIT)
    requires 0 < remaining <= length && k == length - remaining && k <= Room(c, Alias(a), length)
    ensures WRITE_UNIT <= remaining && Multiple(remaining - WRITE_UNIT, WRITE_UNIT)
    ensures var at, room := Alias(a), Room(c, Alias(a), length);
            && Alias(a + k) == at + k
            && (Fits(c, WritePhrase(at + k)) ==> k + WRITE_UNIT <= room && Wrap(a + k + WRITE_UNIT) == a + k + WRITE_UNIT)
            && (!Fits(c, WritePhrase(at + k)) ==> room == k)
  {
    hide Pow2, Alias, Config.Total;
    Sizes(c);
    SmallTotal(c);
    var at, shift := Alias(a), a - Alias(a);
    AliasOf(shift, at + k);
    WholeSpaces(shift);
    MultipleOf(c.Total(), c.Sector(), 1024);
    UnitTotal(c.Total());
    UnitSteps(at, length, remaining, c.Total());
    WrapSmall(a + k + WRITE_UNIT);
  }

  lemma UnitTotal(total: nat)
    requires Multiple(total, 1024)
    ensures Multiple(total, WRITE_UNIT)
  {
  }

  lemma UnitSteps(at: nat, length: nat, remaining: nat, total: nat)
    requires Multiple(at, WRITE_UNIT) && Multiple(length, WRITE_UNIT) && Multiple(remaining, WRITE_UNIT)
    requires Multiple(total, WRITE_UNIT) && 0 < remaining <= length
    ensures WRITE_UNIT <= remaining && Multiple(remaining - WRITE_UNIT, WRITE_UNIT)
    ensures Multiple(at + (length - remaining), WRITE_UNIT)
    ensures at + (length - remaining) < total ==> at + (length - remaining) + WRITE_UNIT <= total
  {
  }

  // ---------------------------------------------------------------------------------------------
  // Programming by sections
  // ---------------------------------------------------------------------------------------------

  /**
   How many bytes the passes of the inner loop get in. They cross the end of a sector only when they are not aligned
   to the RAM buffer.
   */
  function PassesDone(c: Config, at: nat, n: nat): nat
    requires c.Sector() > 0
  {
    var end := FloorTo(at, c.Sector()) + c.Sector();
    if at >= c.Total() then 0
    else if at + n <= end then n
    else if Multiple(at, RAM_SIZE) then Room(c, at, n)
    else FloorTo(end - at, RAM_SIZE)
  }

  /**
   How many bytes FLASH_ProgramSection gets in. When its comparison with the end of the sector wraps, it takes the
   whole range to be in the first sector.
   */
  function SectionsDone(c: Config, a: nat, length: nat): nat
    requires c.Sector() > 0
  {
    if a + length < 0x1_0000_0000 then Room(c, Alias(a), length) else PassesDone(c, Alias(a), length)
  }

  lemma PassesBound(c: Config, at: nat, n: nat)
    requires c.Valid() && c.Sector() > 0
    ensures PassesDone(c, at, n) <= n
    ensures PassesDone(c, at, n) == n ==> n == 0 || at + n <= c.Total()
  {
    hide Pow2, Multiple, FloorTo, Config.Total;
    Sizes(c);
    SectorEnd(at, c.Total(), c.Sector());
    FloorCeilMultiples(at, c.Sector());
  }

  lemma PassStart(c: Config, at: nat, n: nat)
    requires c.Valid() && c.Sector() > 0
    ensures PassesDone(c, at, n) <= n && Multiple(0, RAM_SIZE)
  {
    PassesBound(c, at, n);
  }

  /** A pass is in one sector of the flash, or the passes end here. */
  lemma PassStep(c: Config, at: nat, n: nat, offset: nat, size: nat)
    requires c.Valid() && c.Sector() > 0 && Aligned(at) && Aligned(n - offset)
    requires offset < n && offset <= PassesDone(c, at, n) && Multiple(offset, RAM_SIZE)
    requires size == if n - offset > RAM_SIZE then RAM_SIZE else n - offset
    ensures Aligned(size) && (offset + size < n ==> Multiple(offset + size, RAM_SIZE))
    ensures Fits(c, WriteSection(at + offset, size)) ==> offset + size <= PassesDone(c, at, n)
    ensures !Fits(c, WriteSection(at + offset, size)) ==> offset == PassesDone(c, at, n)
  {
    hide Pow2, Multiple, FloorTo, Config.Total, Aligned, Config.Sector, Config.Block;
    RamAligned();
    StepMultiple(offset, RAM_SIZE);
    Sixteenths(offset);
    AlignedSum(at, offset);
    Sizes(c);
    var end := FloorTo(at, c.Sector()) + c.Sector();
    SectorEnd(at, c.Total(), c.Sector());
    if at >= c.Total() {
    } else if at + n <= end {
      SameSector(at, offset, c.Sector());
    } else if Multiple(at, RAM_SIZE) {
      AlignedPass(c, at, n, offset);
    } else {
      UnalignedPass(c, at, offset);
    }
  }

  lemma AlignedPass(c: Config, at: nat, n: nat, offset: nat)
    requires c.Valid() && c.Sector() > 0 && Multiple(at, RAM_SIZE) && Multiple(offset, RAM_SIZE)
    ensures at + offset < c.Total() ==>
              at + offset + RAM_SIZE <= FloorTo(at + offset, c.Sector()) + c.Sector() <= c.Total()
  {
    hide Pow2, Multiple, FloorTo, Config.Total, Config.Sector, Config.Block;
    Sizes(c);
    var x, sector := at + offset, c.Sector();
    SumMultiple(at, offset, RAM_SIZE);
    SectorEnd(x, c.Total(), sector);
    FloorCeilMultiples(x, sector);
    StepMultiple(FloorTo(x, sector), sector);
    MultipleOf(FloorTo(x, sector) + sector, sector, RAM_SIZE);
    NextMultiple(x, FloorTo(x, sector) + sector, RAM_SIZE);
  }

  lemma UnalignedPass(c: Config, at: nat, offset: nat)
    requires c.Valid() && c.Sector() > 0 && !Multiple(at, RAM_SIZE) && Multiple(offset, RAM_SIZE)
    ensures var rest := FloorTo(at, c.Sector()) + c.Sector() - at;
            && (offset < FloorTo(rest, RAM_SIZE) ==> offset + RAM_SIZE <= FloorTo(rest, RAM_SIZE))
            && FloorTo(rest, RAM_SIZE) < rest < FloorTo(rest, RAM_SIZE) + RAM_SIZE
            && (offset < rest ==> FloorTo(at + offset, c.Sector()) == FloorTo(at, c.Sector()))
  {
    hide Pow2, Multiple, FloorTo, Config.Total, Config.Sector, Config.Block;
    Sizes(c);
    var first, sector := FloorTo(at, c.Sector()), c.Sector();
    var rest: nat := first + sector - at;
    FloorCeilMultiples(at, sector);
    StepMultiple(first, sector);
    MultipleOf(first + sector, sector, RAM_SIZE);
    FloorCeilMultiples(rest, RAM_SIZE);
    NextMultiple(offset, FloorTo(rest, RAM_SIZE), RAM_SIZE);
    if rest == FloorTo(rest, RAM_SIZE) {
      DifferenceMultiple(first + sector, rest, RAM_SIZE);
    }
    if offset < rest {
      SameSector(at, offset, sector);
    }
  }

  lemma DifferenceMultiple(x: nat, y: nat, a: nat)
    requires Multiple(x, a) && Multiple(y, a) && y <= x
    ensures Multiple(x - y, a)
  {
    var p, q := x / a, y / a;
    assert x == p * a && y == q * a;
    MulLe(p + 1, q, a);
    OneMore(p, a);
    Distribute(p, q, a);
    ModIs(x - y, a, p - q, 0);
  }

  /** The address of a pass does not wrap. */
  lemma PassAddress(c: Config, address: uint32, n: nat, offset: nat)
    requires c.Valid() && c.Sector() > 0 && offset <= PassesDone(c, Alias(address), n)
    ensures Wrap(address + offset) == address + offset && Alias(address + offset) == Alias(address) + offset
  {
    hide Pow2, Multiple, Alias, Config.Total, FloorTo;
    Sizes(c);
    SmallTotal(c);
    var at, shift := Alias(address), address - Alias(address);
    SectorEnd(at, c.Total(), c.Sector());
    AliasOf(shift, at + offset);
    WholeSpaces(shift);
    WrapSmall(address + offset);
  }

  lemma SectionsAll(c: Config, a: nat, length: nat)
    requires c.Sector() > 0
    requires length > 0 ==> a + length < 0x1_0000_0000 && Alias(a) + length <= c.Total()
    ensures SectionsDone(c, a, length) == length
  {
    hide Alias, Config.Total, FloorTo, Multiple;
  }

  lemma SectorBelow(c: Config)
    requires c.Valid()
    ensures 1024 <= c.Sector() < 0x1_0000_0000 && 0 < c.Block() < 0x1_0000_0000
  {
    Sizes(c);
  }

  /** ALIGN_UP, corrected at the start of a part of the flash, is the end of the part modulo 2^32. */
  lemma EndOfPart(address: uint32, k: nat)
    requires k < 32
    ensures 0 < Pow2(k) < 0x1_0000_0000
    ensures var end := AlignUp(address, Pow2(k));
            var corrected := if end == address then Wrap(end + Pow2(k)) else end;
            corrected == Wrap(FloorTo(address, Pow2(k)) + Pow2(k))
            && Wrap(corrected - address) == FloorTo(address, Pow2(k)) + Pow2(k) - address
    ensures FloorTo(address, Pow2(k)) + Pow2(k) <= 0x1_0000_0000
  {
    hide Pow2, AlignUp, FloorTo, CeilTo, Multiple, Wrap;
    AlignUpRounds(address, k);
    Pow2Of32();
    Pow2Divides(k, 32);
    var size, first := Pow2(k), FloorTo(address, Pow2(k));
    FloorCeilMultiples(address, size);
    NextMultiple(first, 0x1_0000_0000, size);
    EndAfter(address, size);
    EndWrapped(address, first + size);
    Corrected(address, CeilTo(address, size), size);
  }

  lemma Corrected(address: uint32, ceil: nat, size: nat)
    requires address <= ceil <= 0x1_0000_0000 && (ceil == 0x1_0000_0000 ==> address > 0)
    ensures Wrap(ceil) == address <==> ceil == address
    ensures Wrap(ceil) == address ==> Wrap(Wrap(ceil) + size) == Wrap(address + size)
  {
  }

  lemma EndWrapped(address: uint32, end: nat)
    requires address < end <= 0x1_0000_0000
    ensures Wrap(Wrap(end) - address) == Wrap(end - address)
    ensures Wrap(end) == if end == 0x1_0000_0000 then 0 else end
    ensures end - address < 0x1_0000_0000 ==> Wrap(end - address) == end - address
  {
  }

  lemma EndAfter(x: nat, a: nat)
    requires a > 0
    ensures (if CeilTo(x, a) == x then x + a else CeilTo(x, a)) == FloorTo(x, a) + a
    ensures CeilTo(x, a) > x ==> x > 0
  {
  }

  /** Parts of the flash repeat with the 24 bits of an address. */
  lemma AliasFloor(address: nat, part: nat)
    requires Multiple(ADDRESSES, part)
    ensures FloorTo(address, part) == address - Alias(address) + FloorTo(Alias(address), part)
  {
    hide Multiple, FloorTo, Alias;
    var at, shift := Alias(address), address - Alias(address);
    MultipleOf(shift, ADDRESSES, part);
    FloorCeilMultiples(at, part);
    SumMultiple(shift, FloorTo(at, part), part);
    FloorUnique(address, shift + FloorTo(at, part), part);
  }

  /** What FLASH_ProgramSection takes as its share of the sector. */
  lemma SectorShare(c: Config, address: uint32, remaining: nat, endAddress: uint32, toProgram: nat)
    requires c.Valid() && 0 < c.Sector() < 0x1_0000_0000 && Aligned(address) && Aligned(remaining) && 0 < remaining < 0x1_0000_0000
    requires endAddress == var end := AlignUp(address, c.Sector()); if end == address then Wrap(end + c.Sector()) else end
    requires toProgram == if Wrap(remaining + address) > endAddress then Wrap(endAddress - address) else remaining
    requires address + remaining < 0x1_0000_0000 ==> address - Alias(address) <= 0xFE00_0000
    ensures 0 < toProgram <= remaining && Aligned(toProgram)
    ensures Alias(address) < c.Total() ==>
              if address + remaining < 0x1_0000_0000
              then Alias(address) + toProgram <= FloorTo(Alias(address), c.Sector()) + c.Sector()
              else toProgram == remaining
  {
    hide Pow2, AlignUp, FloorTo, Multiple, Alias, Wrap, Aligned, Config.Total, Config.Block;
    EndOfPart(address, c.sectorLog);
    Sizes(c);
    SmallTotal(c);
    var at, sector := Alias(address), c.Sector();
    AliasFloor(address, sector);
    EndAligned(address, sector);
    SectorEnd(at, c.Total(), sector);
    WholeSpaces(address - at);
    WrapOnce(remaining + address);
    WrapSmall(FloorTo(address, sector) + sector);
    WrapOnce(FloorTo(address, sector) + sector);
  }

  lemma WrapOnce(x: nat)
    requires x < 0x2_0000_0000
    ensures Wrap(x) == if x < 0x1_0000_0000 then x else x - 0x1_0000_0000
  {
  }

  lemma EndAligned(address: nat, sector: nat)
    requires sector > 0 && Multiple(sector, 1024) && Aligned(address)
    ensures Aligned(FloorTo(address, sector) + sector - address)
  {
    hide Multiple, FloorTo;
    FloorCeilMultiples(address, sector);
    StepMultiple(FloorTo(address, sector), sector);
    MultipleOf(FloorTo(address, sector) + sector, sector, 1024);
    Sixteenths(FloorTo(address, sector) + sector);
    AlignedDifference(FloorTo(address, sector) + sector, address);
  }

  /** A turn of the outer loop gets to the end of its share, or the operation ends there. */
  lemma SectionStep(c: Config, a: uint32, length: nat, next: nat, toProgram: nat)
    requires c.Valid() && c.Sector() > 0 && 0 < toProgram <= length - next && length < 0x1_0000_0000
    requires next > 0 ==> a + length < 0x1_0000_0000 && Alias(a) + next <= c.Total()
    requires Alias(a) + next < c.Total() ==>
               if a + length < 0x1_0000_0000
               then Alias(a) + next + toProgram <= FloorTo(Alias(a) + next, c.Sector()) + c.Sector()
               else toProgram == length - next
    ensures var at, done, more := Alias(a), SectionsDone(c, a, length), PassesDone(c, Alias(a) + next, toProgram);
            && done <= length && more <= toProgram
            && (more < toProgram ==> done == next + more)
            && (more == toProgram ==>
                  && a + length < 0x1_0000_0000 && at + next + toProgram <= c.Total()
                  && Alias(a + next + toProgram) == at + next + toProgram)
  {
    hide Pow2, Multiple, FloorTo, Alias, Config.Total;
    Sizes(c);
    SmallTotal(c);
    var at, shift := Alias(a), a - Alias(a);
    PassesBound(c, at, length);
    PassesBound(c, at + next, toProgram);
    SectorEnd(at + next, c.Total(), c.Sector());
    AliasOf(shift, if at + next + toProgram <= c.Total() then at + next + toProgram else 0);
    WholeSpaces(shift);
  }

  // ---------------------------------------------------------------------------------------------
  // Verifying
  // ---------------------------------------------------------------------------------------------

  /** One comparison with the erased state. */
  ghost predicate Compared(c: Config, was: Snapshot, now: Snapshot, command: Command, r: Status) {
    && now.log == was.log + [command] && now.memory == was.memory
    && if !Fits(c, command) then r == AccessError && now.faults == was.faults
       else if now.faults == was.faults then
         r == if Blank(was.memory, command.address, command.address + Bytes(command)) then Success else CommandFailure
       else r == AccessError && now.faults == was.faults + 1
  }

  /** The bytes up to `at` are erased, and commands have said so. */
  ghost predicate Verified(c: Config, was: Snapshot, now: Snapshot, from: nat, at: nat) {
    && now.memory == was.memory && now.faults == was.faults
    && Blank(was.memory, from, at) && Covers(c, Reads, was.log, now.log, from, at)
  }

  /**
   What verifying does. Without a failing command it is a command failure if a byte in the flash is not erased, and
   else a success or, of a range that does not fit, an access error of the first command behind the flash.
   */
  ghost predicate VerifyOutcome(c: Config, was: Snapshot, now: Snapshot, from: nat, end: nat, r: Status) {
    && now.memory == was.memory
    && if now.faults == was.faults then
         && r == (if !Blank(was.memory, from, end) then CommandFailure else if end <= c.Total() then Success else AccessError)
         && match r
            case Success => Covers(c, Reads, was.log, now.log, from, end)
            case AccessError => CoversAndOne(c, Reads, was.log, now.log, from, MaxOf(from, c.Total()))
            case _ => exists to: nat :: Covers(c, Reads, was.log, now.log, from, to)
       else
         && r == AccessError && now.faults == was.faults + 1
         && exists to: nat :: Covers(c, Reads, was.log, now.log, from, to)
  }

  lemma NothingVerified(c: Config, s: Snapshot, from: nat)
    ensures Verified(c, s, s, from, from)
  {
    CoversNothing(c, Reads, s.log, from);
  }

  lemma VerifiedAll(c: Config, was: Snapshot, now: Snapshot, from: nat, end: nat)
    requires Verified(c, was, now, from, end) && end <= c.Total()
    ensures VerifyOutcome(c, was, now, from, end, Success)
  {
  }

  /** A section more, or the end of a verification that does not get through. */
  lemma VerifyJoin(c: Config, was: Snapshot, mid: Snapshot, now: Snapshot, from: nat, at: nat, length: nat, end: nat, r: Status)
    requires from <= at < at + length <= end && |was.memory| == c.Total() && (at == from || at <= c.Total())
    requires Verified(c, was, mid, from, at) && Compared(c, mid, now, ReadSection(at, length), r)
    requires Fits(c, ReadSection(at, length)) <==> at < c.Total()
    ensures r == Success ==> Verified(c, was, now, from, at + length) && at + length <= c.Total()
    ensures r != Success ==> VerifyOutcome(c, was, now, from, end, r)
  {
    hide Covers, Config.Total;
    BlankJoin(was.memory, from, at, at + length, end);
    var command := ReadSection(at, length);
    if Fits(c, command) {
      CoversMore(c, was.log, mid.log, from, command);
    } else {
      CoversThenRefused(c, was.log, mid.log, from, command, at);
    }
  }

  lemma BlankJoin(mem: seq<byte>, a: nat, b: nat, c: nat, d: nat)
    requires a <= b <= c <= d && Blank(mem, a, b)
    ensures Blank(mem, b, c) ==> Blank(mem, a, c)
    ensures Blank(mem, a, d) ==> Blank(mem, b, c)
    ensures b >= |mem| ==> Blank(mem, a, d)
  {
  }

  /** `share` bytes are left of the block that the address is in. */
  predicate BlockShare(c: Config, at: nat, share: nat) {
    && 0 < c.Block() && 0 < share <= c.Block() && Aligned(share) && Aligned(at)
    && (at < c.Total() ==> at + share == FloorTo(at, c.Block()) + c.Block() <= c.Total())
  }

  lemma FirstShare(c: Config, address: uint32, nextBlock: uint32)
    requires c.Valid() && 0 < c.Block() < 0x1_0000_0000 && Aligned(address)
    requires nextBlock == var end := AlignUp(address, c.Block()); if end == address then Wrap(end + c.Block()) else end
    ensures BlockShare(c, Alias(address), Wrap(nextBlock - address))
  {
    hide Pow2, AlignUp, FloorTo, Multiple, Alias, Wrap, Aligned, Config.Total, Config.Sector;
    EndOfPart(address, c.blockLog);
    Sizes(c);
    AliasFloor(address, c.Block());
    AliasAligned(address);
    MultipleOf(c.Block(), c.Sector(), 1024);
    EndAligned(address, c.Block());
    SectorEnd(Alias(address), c.Total(), c.Block());
  }

  /** The share of a block is a section that the command can read, or it is behind the flash. */
  lemma ShareStep(c: Config, a: uint32, at: nat, share: nat, remaining: nat, length: nat)
    requires c.Valid() && BlockShare(c, at, share) && 0 < remaining && Aligned(remaining)
    requires length == if share > remaining then remaining else share
    requires Alias(a) <= at && (at == Alias(a) || at <= c.Total())
    ensures 0 < length && Aligned(length) && length < 0x10_0000 && Alias(a - Alias(a) + at) == at
    ensures Fits(c, ReadSection(at, length)) <==> at < c.Total()
    ensures at < c.Total() ==>
              && Wrap(a - Alias(a) + at + length) == a - Alias(a) + at + length
              && at + length <= c.Total() && (length == share ==> BlockShare(c, at + length, c.Block()))
  {
    hide Pow2, Multiple, Alias, Config.Total, FloorTo, Aligned, Config.Block, Config.Sector;
    Sizes(c);
    SmallTotal(c);
    var shift := a - Alias(a);
    AliasOf(shift, at);
    WholeSpaces(shift);
    WrapSmall(shift + at + length);
    FloorCeilMultiples(at, c.Block());
    StepMultiple(FloorTo(at, c.Block()), c.Block());
    if at < c.Total() && length == share {
      NextBlock(c, at + length);
    }
  }

  lemma NextBlock(c: Config, at: nat)
    requires c.Valid() && c.Block() > 0 && Multiple(at, c.Block())
    ensures BlockShare(c, at, c.Block())
  {
    hide Pow2, Multiple, Config.Total, FloorTo, Config.Block, Config.Sector;
    Sizes(c);
    MultipleOf(c.Block(), c.Sector(), 1024);
    Sixteenths(c.Block());
    MultipleOf(at, c.Block(), 1024);
    Sixteenths(at);
    FloorUnique(at, at, c.Block());
    SectorEnd(at, c.Total(), c.Block());
  }

  /** After a whole share the next block is a block away. */
  lemma NextShare(nextBlock: uint32, address: uint32, block: nat)
    requires block < 0x1_0000_0000
    ensures Wrap(Wrap(nextBlock + block) - Wrap(address + Wrap(nextBlock - address))) == block
  {
  }

  // ---------------------------------------------------------------------------------------------
  // Arithmetic
  // ---------------------------------------------------------------------------------------------

  lemma SmallPowers()
    ensures Pow2(3) == 8 && Pow2(4) == 16
  {
  }

  lemma SmallTotal(c: Config)
    requires c.Valid()
    ensures c.Sector() > 0 && c.Block() > 0 && c.Total() <= 0x80_0000
  {
  }

  lemma SliceOfSlice(src: seq<byte>, from: nat, n: nat, a: nat, b: nat)
    requires a <= b <= n && from + n <= |src|
    ensures src[from + a..from + b] == src[from..from + n][a..b]
  {
    var x, y := src[from + a..from + b], src[from..from + n][a..b];
    assert |x| == |y| && forall i :: 0 <= i < |x| ==> x[i] == y[i];
  }

  lemma AlignedSum(x: nat, y: nat)
    ensures Aligned(x) && Aligned(y) ==> Aligned(x + y)
  {
  }

  lemma SameSector(address: nat, offset: nat, sector: nat)
    requires sector > 0 && address + offset < FloorTo(address, sector) + sector
    ensures FloorTo(address + offset, sector) == FloorTo(address, sector)
  {
    FloorCeilMultiples(address, sector);
    FloorUnique(address + offset, FloorTo(address, sector), sector);
  }

  // ---------------------------------------------------------------------------------------------
  // What the operations mean together
  // ---------------------------------------------------------------------------------------------

  /** For a positive length, FLASH_Erase erases exactly the sectors that contain a byte of the range. */
  lemma ErasesIntersecting(address: nat, length: nat, sector: nat, m: nat)
    requires sector > 0 && Multiple(m, sector) && length > 0 && address + length < 0x1_0000_0000
    ensures FloorTo(address, sector) <= m < EraseLimit(address, length, sector)
            <==> exists x :: address <= x < address + length && FloorTo(x, sector) == m
  {
    var first, limit := FloorTo(address, sector), EraseLimit(address, length, sector);
    if first <= m < limit {
      Meets(address, length, sector, m);
    }
    forall x | address <= x < address + length && FloorTo(x, sector) == m ensures first <= m < limit {
      FloorCeilMultiples(address, sector);
      FloorCeilMultiples(address + length, sector);
      NextMultiple(m, first, sector);
      NextMultiple(m, limit, sector);
    }
  }

  lemma Meets(address: nat, length: nat, sector: nat, m: nat)
    requires sector > 0 && Multiple(m, sector) && 0 < length && address + length < 0x1_0000_0000
    requires FloorTo(address, sector) <= m < EraseLimit(address, length, sector)
    ensures exists x :: address <= x < address + length && FloorTo(x, sector) == m
  {
    hide Multiple;
    var x := if m <= address then address else m;
    FloorCeilMultiples(address, sector);
    FloorCeilMultiples(address + length, sector);
    NextMultiple(FloorTo(address, sector), m, sector);
    FloorUnique(x, m, sector);
    InsideLimit(address + length, m, sector);
  }

  lemma InsideLimit(end: nat, m: nat, sector: nat)
    requires sector > 0 && Multiple(m, sector) && m < CeilTo(end, sector)
    ensures m < end
  {
    hide Multiple, CeilTo;
    FloorCeilMultiples(end, sector);
    NextMultiple(m, CeilTo(end, sector), sector);
  }

  /**
   A range that goes past the end of the address space: FLASH_Erase erases the sector of its start if the end comes
   round to that sector, and else nothing at all, which it answers with success.
   */
  lemma EraseRound(was: Snapshot, now: Snapshot, a: uint32, length: uint32, sector: nat, r: Status)
    requires Multiple(ADDRESSES, sector) && a + length > 0x1_0000_0000
    requires EraseOutcome(was, now, Alias(a), EraseLimit(a, length, sector) - (a - Alias(a)), sector, ERASE_KEY, r)
    ensures var end := a + length - 0x1_0000_0000;
            && end <= a
            && if FloorTo(end - 1, sector) == FloorTo(a, sector)
               then EraseLimit(a, length, sector) == FloorTo(a, sector) + sector
               else r == Success && now == was
  {
    hide Multiple, FloorTo, Alias, CeilTo, EraseCommands, Erased;
    var end := a + length - 0x1_0000_0000;
    WrapOnce(a + length);
    AliasFloor(a, sector);
    FloorCeilMultiples(a, sector);
    FloorCeilMultiples(end - 1, sector);
    StepMultiple(FloorTo(end - 1, sector), sector);
    CeilUnique(end, FloorTo(end - 1, sector) + sector, sector);
    NextMultiple(FloorTo(a, sector), FloorTo(end - 1, sector), sector);
    NextMultiple(FloorTo(end - 1, sector), FloorTo(a, sector), sector);
  }

  /** A range from the second sector on that goes round to the first: accepted, a success, and nothing erased. */
  method ErasesNothing(f: Flash) returns (r: Status)
    requires f.Valid() && f.config.base == 0
    modifies f`memory, f`log, f`faults
    ensures r == Success && f.Contents() == old(f.Contents())
  {
    hide Alias, FloorTo, EraseLimit, Accepted, EraseOutcome, Config.Valid, Config.Total, Config.Sector, Config.Block, Pow2;
    SectorBelow(f.config);
    var start := f.config.Sector();
    RoundToFirst(f.config, start, 0x1_0000_0010 - start);
    r := f.Erase(start, 0x1_0000_0010 - start, ERASE_KEY);
    NoSectors(old(f.Contents()), f.Contents(), start, start, start, ERASE_KEY, r);
  }

  lemma RoundToFirst(c: Config, start: uint32, length: uint32)
    requires c.Valid() && c.base == 0 && start == c.Sector() && length == 0x1_0000_0010 - start
    ensures Accepted(c, start, length, COMMAND_ALIGNMENT)
    ensures Alias(start) == start == FloorTo(start, start) && EraseLimit(start, length, start) == start
  {
    hide Pow2, And, CheckRange, Config.Total, Config.Block, Config.Valid, Alias, Wrap, CeilTo;
    Sizes(c);
    SmallPowers();
    AliasSmall(start);
    WrapOnce(start + length);
    FloorUnique(start, start, start);
    CeilUnique(16, start, start);
    Sixteenths(start);
    AlignedDifference(0x1_0000_0010, start);
    CheckRangeAccepts(c, start, length, 4);
  }

  lemma NoSectors(was: Snapshot, now: Snapshot, at: nat, limit: int, sector: nat, key: uint32, r: Status)
    requires sector > 0 && limit <= FloorTo(at, sector) && EraseOutcome(was, now, at, limit, sector, key, r)
    ensures now == was && r == Success
  {
  }

  /** Each sector gets one command, in order, at the offset that `start` has in its sector. */
  lemma {:induction false} EachSectorOnce(first: nat, limit: nat, offset: nat, sector: nat, k: nat)
    requires sector > 0 && limit == first + k * sector
    ensures var commands := EraseCommands(first, limit, offset, sector);
            |commands| == k && forall i :: 0 <= i < k ==> commands[i] == EraseSector(first + i * sector + offset)
    decreases k
  {
    if k == 0 {
    } else {
      OneMore(k - 1, sector);
      EachSectorOnce(first, limit - sector, offset, sector, k - 1);
    }
  }

  /** After a successful erase the range is blank, so that FLASH_VerifyErase of it cannot find a byte. */
  lemma ErasedIsBlank(mem: seq<byte>, address: nat, length: nat, sector: nat)
    requires sector > 0 && address + length < 0x1_0000_0000
    ensures Blank(Erased(mem, FloorTo(address, sector), EraseLimit(address, length, sector)), address, address + length)
  {
    hide FloorTo, CeilTo;
  }

  /**
   FLASH_VerifyErase right after a successful FLASH_Erase of the same range succeeds when no command fails, exactly
   for the ranges that do not wrap.
   */
  method EraseAndVerify(f: Flash, start: uint32, length: uint32) returns (erased: Status, verified: Status)
    requires f.Valid()
    modifies f`memory, f`log, f`faults
    ensures f.Valid()
    ensures erased == Success && f.faults == old(f.faults) ==> (verified == Success <==> start + length < 0x1_0000_0000)
  {
    hide And, Pow2, CheckRange, Blank, EraseLimit, Alias, Multiple, EraseOutcome, FloorTo, Covers, CoversAndOne, Config.Total;
    erased := f.Erase(start, length, ERASE_KEY);
    ghost var mid := f.Contents();
    SectorBelow(f.config);
    verified := f.VerifyErase(start, length);
    if erased == Success && f.faults == old(f.faults) {
      AcceptedFits(f.config, start, length, COMMAND_ALIGNMENT);
      if start + length < 0x1_0000_0000 {
        EraseFaults(old(f.Contents()), mid, start - f.config.base, length, f.config.Sector());
        BlankAfterErase(old(f.Contents()), mid, start - f.config.base, length, f.config.Sector());
      }
    }
  }

  lemma EraseFaults(was: Snapshot, now: Snapshot, address: nat, length: nat, sector: nat)
    requires sector > 0
    requires EraseOutcome(was, now, address, EraseLimit(address, length, sector), sector, ERASE_KEY, Success)
    ensures now.faults == was.faults
  {
  }

  lemma BlankAfterErase(was: Snapshot, now: Snapshot, address: nat, length: nat, sector: nat)
    requires sector > 0 && address + length < 0x1_0000_0000
    requires EraseOutcome(was, now, address, EraseLimit(address, length, sector), sector, ERASE_KEY, Success)
    ensures Blank(now.memory, address, address + length)
  {
    ErasedIsBlank(was.memory, address, length, sector);
    ErasedNothing(was.memory, FloorTo(address, sector), 0, sector);
  }

  /**
   A length of 0 is no empty range for FLASH_Erase. Inside a sector it erases that sector; at the start of
   the flash it erases everything, and ends with the access error of the first command outside.
   */
  lemma EraseOfNothing(was: Snapshot, now: Snapshot, address: nat, sector: nat, r: Status)
    requires sector > 0 && |was.memory| < 0x1_0000_0000 && now.faults == was.faults && address < |was.memory|
    requires EraseOutcome(was, now, address, EraseLimit(address, 0, sector), sector, ERASE_KEY, r)
    requires CeilTo(address, sector) <= |was.memory|
    ensures if address == 0 then r == AccessError && now.memory == Erased(was.memory, 0, |was.memory|)
            else r == Success && now.memory == Erased(was.memory, FloorTo(address, sector), CeilTo(address, sector))
    ensures address > 0 && Multiple(address, sector) ==> now.memory == was.memory
  {
  }

  lemma SameCheck(c: Config, start: uint32, length: uint32)
    requires Aligned(start) && Aligned(length)
    ensures CheckRange(c, start, length, WRITE_UNIT) == CheckRange(c, start, length, COMMAND_ALIGNMENT)
  {
    SmallPowers();
    HalfAligned(start);
    HalfAligned(length);
    hide And, Pow2, Config.Total;
    MaskTest(start, 3);
    MaskTest(start, 4);
    MaskTest(length, 3);
    MaskTest(length, 4);
  }

  lemma HalfAligned(y: nat)
    ensures Aligned(y) ==> Multiple(y, WRITE_UNIT)
  {
  }

  /** On equal contents and an aligned range, programming by phrases and by sections leaves the same contents. */
  method ProgramBothWays(f: Flash, g: Flash, start: uint32, src: seq<byte>, length: uint32) returns (rf: Status, rg: Status)
    requires f != g && f.Valid() && g.Valid() && f.config == g.config && f.memory == g.memory
    requires |src| >= length && Aligned(start) && Aligned(length)
    modifies f, g
    ensures rf == Success && rg == Success ==> f.memory == g.memory
    ensures f.faults == old(f.faults) && g.faults == old(g.faults) ==> rf == rg
  {
    hide And, Pow2, CheckRange, Programmed, SameOutside, Covers, CoversAndOne, Aligned, Config.Total, Config.Valid, Alias,
         Room, SectionsDone, Multiple;
    SameCheck(f.config, start, length);
    rf := f.Program(start, src, length);
    rg := g.ProgramSection(start, src, length);
    if Accepted(f.config, start, length, WRITE_UNIT) {
      SectorBelow(f.config);
      BothDone(f.config, start - f.config.base, length);
    }
  }

  /** Both operations get through, or neither. */
  lemma BothDone(c: Config, a: nat, length: nat)
    requires c.Valid() && c.Sector() > 0 && length < 0x1_0000_0000 && a < 0x1_0000_0000
    ensures Room(c, Alias(a), length) == length <==> SectionsDone(c, a, length) == length
  {
    hide Pow2, Alias, Config.Total, PassesDone, Multiple;
    PassesBound(c, Alias(a), length);
    SmallTotal(c);
    WholeSpaces(a - Alias(a));
  }

  /** Erasing and then programming stores the data and changes nothing outside the sectors of the range. */
  lemma EraseThenProgram(c: Config, kind: Kind, was: Snapshot, mid: Snapshot, now: Snapshot, at: nat, data: seq<byte>,
                         done: nat, sector: nat)
    requires sector > 0 && |data| > 0 && at + |data| <= |was.memory| < 0x1_0000_0000
    requires EraseOutcome(was, mid, at, EraseLimit(at, |data|, sector), sector, ERASE_KEY, Success)
    requires ProgramOutcome(c, kind, mid, now, at, data, done, Success)
    ensures now.memory[at..at + |data|] == data
    ensures SameOutside(was.memory, now.memory, FloorTo(at, sector), CeilTo(at + |data|, sector))
  {
    hide AndByte, Covers, CoversAndOne, EraseCommands;
    ErasedIsBlank(was.memory, at, |data|, sector);
    ProgrammedBlank(mid.memory, at, data);
    assert data[..|data|] == data;
    hide Programmed;
  }
}
