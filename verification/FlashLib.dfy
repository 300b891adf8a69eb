/**
 spi_flash_lib: status polling, sector erase and page transfers over the SPI master.

 Each routine is a method that drives the chip through `Spi.Command`; what it does to the chip is
 stated by a function on chip states, and the properties are proved of those functions.
 */
module FlashLib {
  import opened Bytes
  import opened Spi
  import opened FlashChip

  const STATUS_RETRIES: nat := 10000
  const STATUS_RETRIES_ERASE: nat := 3000000

  // ---------------------------------------------------------------- single commands

  function WriteEnabled(c: Chip): Chip {
    if c.busy > 0 then Elapse(c) else c.(wel := true)
  }

  function Erased(c: Chip, address: nat): Chip {
    if c.busy > 0 then Elapse(c) else if c.wel then Operate(c, Erase(c.mem, address)) else c
  }

  function Programmed(c: Chip, address: nat, data: seq<byte>): Chip {
    if c.busy > 0 then Elapse(c) else if c.wel then Operate(c, Program(c.mem, address, data)) else c
  }

  /** A command byte and the mirrored bytes of a 24-bit address. */
  function Location(command: byte, address: nat): seq<byte> {
    [command, ReverseBitOrder(ByteOf(address / 0x10000)), ReverseBitOrder(ByteOf(address / 0x100)),
     ReverseBitOrder(ByteOf(address))]
  }

  /** The chip sees the command and the address most significant bit and byte first. */
  lemma MirroredLocation(command: byte, address: nat, rest: seq<byte>)
    ensures var frame := Mirror(Location(command, address) + rest);
      && |frame| == 4 + |rest| && frame[0] == ReverseBitOrder(command)
      && Address(frame[1], frame[2], frame[3]) == address % CHIP_SIZE
      && frame[4..] == Mirror(rest)
  {
    hide ReverseBitOrder, ByteOf, Address;
    var frame := Mirror(Location(command, address) + rest);
    ReverseTwice(ByteOf(address / 0x10000));
    ReverseTwice(ByteOf(address / 0x100));
    ReverseTwice(ByteOf(address));
    assert frame[1] == ByteOf(address / 0x10000) && frame[2] == ByteOf(address / 0x100) && frame[3] == ByteOf(address);
    AddressRoundTrip(address);
    forall i | 0 <= i < |rest| ensures frame[4..][i] == Mirror(rest)[i] {
      assert (Location(command, address) + rest)[4 + i] == rest[i];
    }
  }

  lemma CommandCodes()
    ensures ReverseBitOrder(CMD_PAGE_WRITEEN) == 0x06 && ReverseBitOrder(CMD_PAGE_READST) == 0x05
    ensures ReverseBitOrder(CMD_PAGE_WRITE) == 0x02 && ReverseBitOrder(CMD_PAGE_READ) == 0x03
    ensures ReverseBitOrder(CMD_SECTOR_ERASE) == 0xD8
  {
  }

  lemma WriteEnableCommand(c: Chip)
    requires c.frame == []
    ensures Transfer(CHIP, Wire(c, false), [CMD_PAGE_WRITEEN], 0, false, false) == (Wire(WriteEnabled(c), false), [])
  {
    hide Transfer, ReverseBitOrder;
    CommandCodes();
    CommandIsFrame(c, [CMD_PAGE_WRITEEN], 0);
    var all := Outgoing([CMD_PAGE_WRITEEN], 0);
    assert all == [CMD_PAGE_WRITEEN] && Mirror(all) == [0x06];
  }

  lemma StatusCommand(c: Chip, n: nat)
    requires c.frame == []
    ensures var (w, data) := Transfer(CHIP, Wire(c, false), [CMD_PAGE_READST], n, false, false);
      && w == Wire(Elapse(c), false) && |data| == n
      && forall k :: 0 <= k < n ==> data[k] == ReverseBitOrder(StatusRegister(c))
  {
    hide Transfer, ReverseBitOrder, StatusRegister;
    CommandCodes();
    CommandIsFrame(c, [CMD_PAGE_READST], n);
    var all := Outgoing([CMD_PAGE_READST], n);
    assert all[0] == CMD_PAGE_READST && Mirror(all)[0] == 0x05;
    var data := Transfer(CHIP, Wire(c, false), [CMD_PAGE_READST], n, false, false).1;
    forall k | 0 <= k < n ensures data[k] == ReverseBitOrder(StatusRegister(c)) {
      var so := Mirror(all[..1 + k]);
      assert so[0] == 0x05 && Reply(c, so) == StatusRegister(c);
    }
  }

  /** The bits the firmware tests in a mirrored status byte. */
  lemma StatusBits(c: Chip)
    ensures var s := ReverseBitOrder(StatusRegister(c));
      (s & 0x80 != 0 <==> c.busy > 0) && (s & 0x40 != 0 <==> c.wel)
  {
  }

  lemma EraseCommand(c: Chip, address: nat)
    requires c.frame == []
    ensures Transfer(CHIP, Wire(c, false), Location(CMD_SECTOR_ERASE, address), 0, false, false) ==
            (Wire(Erased(c, address % CHIP_SIZE), false), [])
  {
    hide Transfer, ReverseBitOrder, Erase, Address, Location;
    var bytes := Location(CMD_SECTOR_ERASE, address);
    CommandCodes();
    CommandIsFrame(c, bytes, 0);
    assert Outgoing(bytes, 0) == bytes == bytes + [];
    MirroredLocation(CMD_SECTOR_ERASE, address, []);
  }

  lemma ProgramCommands(c: Chip, address: nat, data: seq<byte>)
    requires c.frame == [] && data != []
    ensures var (v, _) := Transfer(CHIP, Wire(c, false), Location(CMD_PAGE_WRITE, address), 0, false, true);
      var (w, _) := Transfer(CHIP, v, data, 0, false, false);
      w == Wire(Programmed(c, address % CHIP_SIZE, Mirror(data)), false)
  {
    hide Transfer, ReverseBitOrder, Program, Address, Location;
    CommandCodes();
    MergedCommandsAreOneFrame(c, Location(CMD_PAGE_WRITE, address), data);
    MirroredLocation(CMD_PAGE_WRITE, address, data);
  }

  /** What a read of one page returns: the memory, or nothing useful from a busy chip. */
  function PageRead(c: Chip, address: nat): (data: seq<byte>)
    ensures |data| == PAGE_SIZE
  {
    seq(PAGE_SIZE, k requires 0 <= k < PAGE_SIZE =>
      if c.busy == 0 && Image(c.mem) then ReverseBitOrder(c.mem[(address + k) % CHIP_SIZE]) else 0xFF)
  }

  lemma ReadCommand(c: Chip, address: nat)
    requires c.frame == []
    ensures Transfer(CHIP, Wire(c, false), Location(CMD_PAGE_READ, address), PAGE_SIZE, false, false) ==
            (Wire(Elapse(c), false), PageRead(c, address))
  {
    hide Transfer, ReverseBitOrder, Address, Location;
    var bytes := Location(CMD_PAGE_READ, address);
    CommandCodes();
    CommandIsFrame(c, bytes, PAGE_SIZE);
    var all := Outgoing(bytes, PAGE_SIZE);
    assert |bytes| == 4 by {
      MirroredLocation(CMD_PAGE_READ, address, []);
    }
    MirroredLocation(CMD_PAGE_READ, address, Zeros(PAGE_SIZE));
    var data := Transfer(CHIP, Wire(c, false), bytes, PAGE_SIZE, false, false).1;
    forall k | 0 <= k < PAGE_SIZE ensures data[k] == PageRead(c, address)[k] {
      assert all[..4 + k] == bytes + Zeros(PAGE_SIZE)[..k];
      MirroredLocation(CMD_PAGE_READ, address, Zeros(PAGE_SIZE)[..k]);
      assert data[k] == ReverseBitOrder(Reply(c, Mirror(all[..4 + k])));
      ReadReply(c, address, k);
      ReverseOnes();
    }
    assert data == PageRead(c, address);
  }

  lemma ReadReply(c: Chip, address: nat, k: nat)
    requires k < PAGE_SIZE
    ensures var frame := Mirror(Location(CMD_PAGE_READ, address) + Zeros(PAGE_SIZE)[..k]);
      Reply(c, frame) == if c.busy == 0 && Image(c.mem) then c.mem[(address + k) % CHIP_SIZE] else 0xFF
  {
    hide ReverseBitOrder, Address, Location;
    CommandCodes();
    MirroredLocation(CMD_PAGE_READ, address, Zeros(PAGE_SIZE)[..k]);
    assert (address % CHIP_SIZE + k) % CHIP_SIZE == (address + k) % CHIP_SIZE;
  }

  // ---------------------------------------------------------------- waiting for the chip

  /** CyFxSpiWaitForStatus: write enable and status in turn, until the status read shows the chip
      idle with the latch set. */
  function Wait(c: Chip, retries: nat): (Chip, nat)
    requires retries <= STATUS_RETRIES
    decreases STATUS_RETRIES - retries
  {
    var e := WriteEnabled(c);
    var d := Elapse(e);
    if retries >= STATUS_RETRIES then (d, 1)
    else if e.busy > 0 || !e.wel then Wait(d, retries + 1)
    else (d, 0)
  }

  /** The wait succeeds if and only if the operation in progress is over soon enough; then the chip
      is idle and write-enabled, and nothing else has changed. */
  lemma {:induction false} WaitOutcome(c: Chip, retries: nat)
    requires retries <= STATUS_RETRIES
    ensures var (d, status) := Wait(c, retries);
      && (status == 0 <==> retries + (c.busy + 1) / 2 < STATUS_RETRIES)
      && (status == 0 ==> d == c.(busy := 0, wel := true))
      && (status != 0 ==> status == 1 && d == c.(busy := d.busy, wel := d.wel))
    decreases STATUS_RETRIES - retries
  {
    if retries < STATUS_RETRIES && c.busy > 0 {
      var d := Elapse(WriteEnabled(c));
      assert d.busy == if c.busy >= 2 then c.busy - 2 else 0;
      WaitOutcome(d, retries + 1);
    }
  }

  /** The polling loop at the end of a sector erase. */
  function AwaitErased(c: Chip, retries: nat): (Chip, nat)
    requires retries <= STATUS_RETRIES_ERASE
    decreases STATUS_RETRIES_ERASE - retries
  {
    var d := Elapse(c);
    if retries >= STATUS_RETRIES_ERASE then (d, 1)
    else if c.busy > 0 then AwaitErased(d, retries + 1)
    else (d, 0)
  }

  lemma {:induction false} AwaitErasedOutcome(c: Chip, retries: nat)
    requires retries <= STATUS_RETRIES_ERASE
    ensures var (d, status) := AwaitErased(c, retries);
      && (status == 0 <==> retries + c.busy < STATUS_RETRIES_ERASE)
      && (status == 0 ==> d.busy == 0)
      && (status != 0 ==> status == 1)
      && d == c.(busy := d.busy, wel := d.wel)
    decreases STATUS_RETRIES_ERASE - retries
  {
    if retries < STATUS_RETRIES_ERASE && c.busy > 0 {
      AwaitErasedOutcome(Elapse(c), retries + 1);
    }
  }

  /** FlashSpiEraseSector */
  function EraseOutcome(c: Chip, isErase: bool, sector: nat): (Chip, nat) {
    var e := WriteEnabled(c);
    AwaitErased(if isErase then Erased(e, sector * SECTOR_SIZE % CHIP_SIZE) else e, 0)
  }

  /** The sector is erased if and only if the chip is idle when the call begins: the routine sends
      its write-enable without waiting, and a busy chip ignores it. */
  lemma EraseNeedsIdleChip(c: Chip, sector: nat)
    ensures var (d, status) := EraseOutcome(c, true, sector);
      && d.mem == (if c.busy == 0 then Erase(c.mem, sector * SECTOR_SIZE % CHIP_SIZE) else c.mem)
      && d.ops == (if c.busy == 0 then c.ops + 1 else c.ops) && d.latency == c.latency && d.frame == c.frame
      && (c.busy == 0 ==> (status == 0 <==> c.latency(c.ops) < STATUS_RETRIES_ERASE))
      && (status == 0 ==> d.busy == 0)
  {
    var e := WriteEnabled(c);
    AwaitErasedOutcome(Erased(e, sector * SECTOR_SIZE % CHIP_SIZE), 0);
  }

  /** Without the request to erase only the polling is left: no memory changes, and the call succeeds
      if and only if the operation in progress ends in time. */
  lemma EraseOnlyIfAsked(c: Chip, sector: nat)
    ensures var (d, status) := EraseOutcome(c, false, sector);
      && d.mem == c.mem && d.ops == c.ops
      && (status == 0 <==> c.busy < STATUS_RETRIES_ERASE + 1) && (status == 0 ==> d.busy == 0)
  {
    AwaitErasedOutcome(WriteEnabled(c), 0);
  }

  // ---------------------------------------------------------------- pages

  /** One round of the write loop: wait, then program a page. */
  function WritePage(c: Chip, address: nat, page: seq<byte>): (Chip, nat) {
    var (d, status) := Wait(c, 0);
    if status != 0 then (d, status) else (Programmed(d, address % CHIP_SIZE, Mirror(page)), 0)
  }

  function WritePages(c: Chip, address: u32, data: seq<byte>, pages: nat): (Chip, nat)
    requires |data| == pages * PAGE_SIZE
    decreases pages
  {
    if pages == 0 then (c, 0)
    else
      var (d, status) := WritePage(c, address, data[..PAGE_SIZE]);
      if status != 0 then (d, status)
      else WritePages(d, Wrap(address + PAGE_SIZE), data[PAGE_SIZE..], pages - 1)
  }

  function ReadPages(c: Chip, address: u32, pages: nat): (r: (Chip, seq<byte>))
    ensures |r.1| == pages * PAGE_SIZE
    decreases pages
  {
    if pages == 0 then (c, [])
    else
      var (d, rest) := ReadPages(Elapse(c), Wrap(address + PAGE_SIZE), pages - 1);
      (d, PageRead(c, address) + rest)
  }

  /** A page is only ever programmed into an idle, write-enabled chip, so the program takes effect. */
  lemma WritePageOutcome(c: Chip, address: nat, page: seq<byte>)
    ensures var (d, status) := WritePage(c, address, page);
      && (status == 0 <==> (c.busy + 1) / 2 < STATUS_RETRIES)
      && (status == 0 ==>
          d == Operate(c.(busy := 0, wel := true), Program(c.mem, address % CHIP_SIZE, Mirror(page))))
      && (status != 0 ==> d.mem == c.mem)
      && d.frame == c.frame
  {
    WaitOutcome(c, 0);
  }

  /** A page is programmed and then a sector erased without a pause: both calls report success, and
      nothing has been erased. */
  lemma EraseTooSoon(c: Chip, address: nat, page: seq<byte>, sector: nat)
    requires c.busy == 0 && 0 < c.latency(c.ops) < STATUS_RETRIES_ERASE
    ensures var (d, written) := WritePage(c, address, page); var (e, erased) := EraseOutcome(d, true, sector);
      && written == 0 && erased == 0
      && e.mem == d.mem == Program(c.mem, address % CHIP_SIZE, Mirror(page))
  {
    hide Program, Erase;
    WritePageOutcome(c, address, page);
    var d := WritePage(c, address, page).0;
    EraseNeedsIdleChip(d, sector);
    var e := WriteEnabled(d);
    AwaitErasedOutcome(Erased(e, sector * SECTOR_SIZE % CHIP_SIZE), 0);
  }

  /** The chip is ready in time for each of `pages` page programs. */
  predicate Timely(c: Chip, pages: nat) {
    && (pages > 0 ==> (c.busy + 1) / 2 < STATUS_RETRIES)
    && forall k :: c.ops <= k < c.ops + pages - 1 ==> (c.latency(k) + 1) / 2 < STATUS_RETRIES
  }

  /** A byte of the array after programming `data` from `start` on. */
  function ByteAfter(before: byte, i: nat, start: nat, data: seq<byte>): byte {
    if start <= i < start + |data| then before & ReverseBitOrder(data[i - start]) else before
  }

  /** What successful page programs leave in the array. */
  predicate Holds(before: seq<byte>, after: seq<byte>, start: nat, data: seq<byte>) {
    |after| == |before| && forall i :: 0 <= i < |before| ==> after[i] == ByteAfter(before[i], i, start, data)
  }

  lemma ProgramHolds(mem: seq<byte>, start: nat, page: seq<byte>)
    requires start % PAGE_SIZE == 0 && |page| == PAGE_SIZE
    ensures Holds(mem, Program(mem, start, Mirror(page)), start, page)
  {
    hide ReverseBitOrder;
    var after := Program(mem, start, Mirror(page));
    forall i | 0 <= i < |mem|
      ensures after[i] == ByteAfter(mem[i], i, start, page)
    {
      InPage(i, start);
    }
  }

  lemma InPage(i: nat, start: nat)
    requires start % PAGE_SIZE == 0
    ensures i / PAGE_SIZE == start / PAGE_SIZE <==> start <= i < start + PAGE_SIZE
    ensures start <= i < start + PAGE_SIZE ==> (i - start) % PAGE_SIZE == i - start
  {
  }

  lemma ByteAfterAppend(before: byte, i: nat, start: nat, a: seq<byte>, b: seq<byte>)
    ensures ByteAfter(ByteAfter(before, i, start, a), i, start + |a|, b) == ByteAfter(before, i, start, a + b)
  {
    hide ReverseBitOrder;
  }

  lemma HoldsAppend(m0: seq<byte>, m1: seq<byte>, m2: seq<byte>, start: nat, a: seq<byte>, b: seq<byte>)
    requires Holds(m0, m1, start, a) && Holds(m1, m2, start + |a|, b)
    ensures Holds(m0, m2, start, a + b)
  {
    hide ByteAfter;
    forall i | 0 <= i < |m0| ensures m2[i] == ByteAfter(m0[i], i, start, a + b) {
      ByteAfterAppend(m0[i], i, start, a, b);
    }
  }

  /** Keeping pace with one page more. */
  lemma TimelyNext(c: Chip, d: Chip, pages: nat)
    requires d.ops == c.ops + 1 && d.latency == c.latency && d.busy == c.latency(c.ops)
    ensures Timely(c, pages + 1) <==> (c.busy + 1) / 2 < STATUS_RETRIES && Timely(d, pages)
  {
    if (c.busy + 1) / 2 < STATUS_RETRIES && Timely(d, pages) {
      forall k | c.ops <= k < c.ops + pages ensures (c.latency(k) + 1) / 2 < STATUS_RETRIES {
        if k > c.ops {
          assert d.ops <= k < d.ops + pages - 1;
        }
      }
    }
    if Timely(c, pages + 1) && pages > 0 {
      assert c.ops <= c.ops < c.ops + (pages + 1) - 1;
    }
  }

  /** What is claimed of `WritePages`. */
  ghost predicate Wrote(c: Chip, d: Chip, status: nat, start: nat, data: seq<byte>, pages: nat) {
    && (status == 0 <==> Timely(c, pages))
    && (status == 0 ==> Holds(c.mem, d.mem, start, data))
    && d.frame == c.frame && d.latency == c.latency
    && (status == 0 ==> d.ops == c.ops + pages)
    && (status == 0 ==> d.busy == if pages == 0 then c.busy else c.latency(d.ops - 1))
  }

  /** Writing pages succeeds if and only if the chip keeps pace; then exactly the addressed bytes
      have been programmed with the data. */
  lemma {:induction false} WritePagesOutcome(c: Chip, start: nat, data: seq<byte>, pages: nat)
    requires |data| == pages * PAGE_SIZE && start % PAGE_SIZE == 0 && start + |data| <= CHIP_SIZE
    ensures var (d, status) := WritePages(c, start, data, pages);
      Wrote(c, d, status, start, data, pages)
    decreases pages
  {
    hide WritePage, Program, Holds, Operate;
    if pages == 0 {
      HoldsNothing(c.mem, start);
    } else {
      var page, rest := data[..PAGE_SIZE], data[PAGE_SIZE..];
      assert data == page + rest;
      WritePageStarts(c, start, page);
      var (d, status) := WritePage(c, start, page);
      if status == 0 {
        WritePagesOutcome(d, start + PAGE_SIZE, rest, pages - 1);
        WroteNext(c, d, start, page, rest, pages - 1);
      }
    }
  }

  lemma HoldsNothing(mem: seq<byte>, start: nat)
    ensures Holds(mem, mem, start, [])
  {
  }

  lemma WritePageStarts(c: Chip, start: nat, page: seq<byte>)
    requires |page| == PAGE_SIZE && start % PAGE_SIZE == 0 && start + PAGE_SIZE <= CHIP_SIZE
    ensures var (d, status) := WritePage(c, start, page);
      && (status == 0 <==> (c.busy + 1) / 2 < STATUS_RETRIES)
      && (status == 0 ==>
          d.ops == c.ops + 1 && d.busy == c.latency(c.ops) && Holds(c.mem, d.mem, start, page))
      && d.latency == c.latency && d.frame == c.frame
  {
    hide Holds, Program;
    WaitOutcome(c, 0);
    ProgramHolds(c.mem, start, page);
  }

  lemma WroteNext(c: Chip, d: Chip, start: nat, page: seq<byte>, rest: seq<byte>, pages: nat)
    requires |page| == PAGE_SIZE && |rest| == pages * PAGE_SIZE && start + PAGE_SIZE + |rest| <= CHIP_SIZE
    requires (c.busy + 1) / 2 < STATUS_RETRIES && Holds(c.mem, d.mem, start, page)
    requires d.ops == c.ops + 1 && d.latency == c.latency && d.busy == c.latency(c.ops) && d.frame == c.frame
    requires var (e, status) := WritePages(d, start + PAGE_SIZE, rest, pages);
      Wrote(d, e, status, start + PAGE_SIZE, rest, pages)
    ensures var (e, status) := WritePages(d, start + PAGE_SIZE, rest, pages);
      Wrote(c, e, status, start, page + rest, pages + 1)
  {
    hide WritePages, Holds, Timely;
    var (e, status) := WritePages(d, start + PAGE_SIZE, rest, pages);
    TimelyNext(c, d, pages);
    if status == 0 {
      HoldsAppend(c.mem, d.mem, e.mem, start, page, rest);
    }
  }

  // ---------------------------------------------------------------- reading back

  /** The bytes a master reads back from an idle chip. */
  lemma {:induction false} ReadPagesReturn(c: Chip, start: nat, pages: nat)
    requires c.busy == 0 && Image(c.mem) && start + pages * PAGE_SIZE <= CHIP_SIZE
    ensures var (d, data) := ReadPages(c, start, pages);
      d == c && forall i :: 0 <= i < pages * PAGE_SIZE ==> data[i] == ReverseBitOrder(c.mem[start + i])
    decreases pages
  {
    hide ReverseBitOrder, PageRead;
    if pages > 0 {
      ReadPagesReturn(c, start + PAGE_SIZE, pages - 1);
      var rest := ReadPages(c, start + PAGE_SIZE, pages - 1).1;
      var page := PageRead(c, start);
      PageReadReturns(c, start);
      hide Image;
      forall i | 0 <= i < pages * PAGE_SIZE
        ensures (page + rest)[i] == ReverseBitOrder(c.mem[start + i])
      {
        if i >= PAGE_SIZE {
          assert (page + rest)[i] == rest[i - PAGE_SIZE];
        }
      }
    }
  }

  lemma PageReadReturns(c: Chip, start: nat)
    requires c.busy == 0 && Image(c.mem) && start + PAGE_SIZE <= CHIP_SIZE
    ensures forall i :: 0 <= i < PAGE_SIZE ==> PageRead(c, start)[i] == ReverseBitOrder(c.mem[start + i])
  {
    hide ReverseBitOrder;
    forall i | 0 <= i < PAGE_SIZE
      ensures PageRead(c, start)[i] == ReverseBitOrder(c.mem[start + i])
    {
      assert (start + i) % CHIP_SIZE == start + i;
    }
  }

  predicate Blank(mem: seq<byte>, start: nat, length: nat) {
    start + length <= |mem| && forall i :: start <= i < start + length ==> mem[i] == 0xFF
  }

  /** Programming a blank byte stores the byte, mirrored as everything on this bus. */
  lemma BlankTakes(b: byte)
    ensures 0xFF & ReverseBitOrder(b) == ReverseBitOrder(b) && ReverseBitOrder(0xFF & ReverseBitOrder(b)) == b
  {
    var r := ReverseBitOrder(b);
    assert 0xFF & r == r;
    ReverseTwice(b);
  }

  /** Pages written to blank flash are read back unchanged once the chip has become idle, for any
      number of pages anywhere in the 24-bit address range. */
  lemma WriteThenRead(c: Chip, start: nat, data: seq<byte>, pages: nat, later: Chip)
    requires |data| == pages * PAGE_SIZE && start % PAGE_SIZE == 0 && start + |data| <= CHIP_SIZE
    requires Image(c.mem) && Blank(c.mem, start, |data|) && Timely(c, pages)
    requires later.busy == 0 && later.mem == WritePages(c, start, data, pages).0.mem
    ensures WritePages(c, start, data, pages).1 == 0
    ensures ReadPages(later, start, pages).1 == data
  {
    hide WritePages, ReadPages, ReverseBitOrder, Timely;
    WritePagesOutcome(c, start, data, pages);
    ReadPagesReturn(later, start, pages);
    var got := ReadPages(later, start, pages).1;
    forall i | 0 <= i < |data| ensures got[i] == data[i] {
      BlankTakes(data[i]);
      assert later.mem[start + i] == ByteAfter(c.mem[start + i], start + i, start, data);
    }
  }

  // ---------------------------------------------------------------- the routines

  /** The flash chip on its SPI bus. */
  class FlashBus {
    var wire: Wire<Chip>

    /** No command is in progress on the bus. */
    ghost predicate Released()
      reads this
    {
      !wire.sso && wire.state.frame == []
    }

    constructor (chip: Chip)
      requires chip.frame == []
      ensures Released() && wire.state == chip
    {
      wire := Wire(chip, false);
    }

    method WriteEnable()
      requires Released()
      modifies this
      ensures Released() && wire.state == WriteEnabled(old(wire.state))
    {
      WriteEnableCommand(wire.state);
      var ignored;
      wire, ignored := Command(CHIP, wire, [CMD_PAGE_WRITEEN], 0, false, false);
    }

    method ReadStatus(length: nat) returns (data: seq<byte>)
      requires Released() && length > 0
      modifies this
      ensures Released() && wire.state == Elapse(old(wire.state))
      ensures |data| == length && data[0] == ReverseBitOrder(StatusRegister(old(wire.state)))
    {
      StatusCommand(wire.state, length);
      wire, data := Command(CHIP, wire, [CMD_PAGE_READST], length, false, false);
    }

    /** CyFxSpiWaitForStatus */
    method WaitForStatus() returns (status: nat, polls: nat)
      requires Released()
      modifies this
      ensures Released() && (wire.state, status) == Wait(old(wire.state), 0)
      ensures polls <= STATUS_RETRIES + 1
    {
      var retries := 0;
      polls := 0;
      while true
        invariant Released() && 0 <= retries == polls <= STATUS_RETRIES
        invariant Wait(wire.state, retries) == Wait(old(wire.state), 0)
        decreases STATUS_RETRIES - retries
      {
        WriteEnable();
        StatusBits(wire.state);
        var readBuffer := ReadStatus(2);
        polls := polls + 1;
        if retries >= STATUS_RETRIES {
          return 1, polls;
        }
        retries := retries + 1;
        if !(readBuffer[0] & 0x80 != 0 || readBuffer[0] & 0x40 == 0) {
          return 0, polls;
        }
      }
    }

    /** FlashSpiEraseSector */
    method EraseSector(isErase: bool, sector: nat) returns (status: nat)
      requires Released() && sector < 256
      modifies this
      ensures Released() && (wire.state, status) == EraseOutcome(old(wire.state), isErase, sector)
    {
      WriteEnable();
      if isErase {
        var address := sector * SECTOR_SIZE;
        EraseCommand(wire.state, address);
        var ignored;
        wire, ignored := Command(CHIP, wire, Location(CMD_SECTOR_ERASE, address), 0, false, false);
      }
      var retries := 0;
      ghost var issued := wire.state;
      while true
        invariant Released() && 0 <= retries <= STATUS_RETRIES_ERASE
        invariant AwaitErased(wire.state, retries) == AwaitErased(issued, 0)
        decreases STATUS_RETRIES_ERASE - retries
      {
        StatusBits(wire.state);
        var readBuffer := ReadStatus(1);
        if retries >= STATUS_RETRIES_ERASE {
          return 1;
        }
        retries := retries + 1;
        if readBuffer[0] & 0x80 == 0 {
          return 0;
        }
      }
    }

    /** The two merged commands that program a page. */
    method ProgramPage(address: nat, page: seq<byte>)
      requires Released() && page != []
      modifies this
      ensures Released() && wire.state == Programmed(old(wire.state), address % CHIP_SIZE, Mirror(page))
    {
      ProgramCommands(wire.state, address, page);
      var ignored;
      wire, ignored := Command(CHIP, wire, Location(CMD_PAGE_WRITE, address), 0, false, true);
      wire, ignored := Command(CHIP, wire, page, 0, false, false);
    }

    method FetchPage(address: nat) returns (data: seq<byte>)
      requires Released()
      modifies this
      ensures Released() && wire.state == Elapse(old(wire.state)) && data == PageRead(old(wire.state), address)
    {
      ReadCommand(wire.state, address);
      wire, data := Command(CHIP, wire, Location(CMD_PAGE_READ, address), PAGE_SIZE, false, false);
    }

    /** One round of the write loop. */
    method WaitAndProgram(address: u32, page: seq<byte>) returns (status: nat)
      requires Released() && page != []
      modifies this
      ensures Released() && (wire.state, status) == WritePage(old(wire.state), address, page)
    {
      hide Wait, Programmed;
      var polls;
      status, polls := WaitForStatus();
      if status == 0 {
        ProgramPage(address, page);
      }
    }

    /** The write direction of FlashSpiTransfer. */
    method WriteLoop(address: u32, data: seq<byte>, pages: nat) returns (status: nat)
      requires Released() && |data| == pages * PAGE_SIZE
      modifies this
      ensures Released() && (wire.state, status) == WritePages(old(wire.state), address, data, pages)
    {
      hide WritePage;
      var byteAddress: u32, rest, pageCount := address, data, pages;
      ghost var start := wire.state;
      status := 0;
      while pageCount != 0
        invariant Released() && 0 <= pageCount && |rest| == pageCount * PAGE_SIZE
        invariant WritePages(wire.state, byteAddress, rest, pageCount) == WritePages(start, address, data, pages)
        invariant status == 0
        decreases pageCount
      {
        status := WaitAndProgram(byteAddress, rest[..PAGE_SIZE]);
        if status != 0 {
          return;
        }
        byteAddress := Wrap(byteAddress + PAGE_SIZE);
        rest := rest[PAGE_SIZE..];
        pageCount := pageCount - 1;
      }
    }

    /** One round of the read loop: the page goes to position `at` of the buffer. */
    method FetchInto(address: u32, buffer: array<byte>, at: nat)
      requires Released() && at + PAGE_SIZE <= buffer.Length
      modifies this, buffer
      ensures Released() && wire.state == Elapse(old(wire.state))
      ensures buffer[..at + PAGE_SIZE] == old(buffer[..at]) + PageRead(old(wire.state), address)
      ensures buffer[at + PAGE_SIZE..] == old(buffer[at + PAGE_SIZE..])
    {
      hide PageRead, Elapse;
      ghost var before := buffer[..at];
      var page := FetchPage(address);
      forall i | 0 <= i < PAGE_SIZE {
        buffer[at + i] := page[i];
      }
      assert buffer[..at + PAGE_SIZE] == before + page;
    }

    /** The read direction: fills `buffer` page by page. */
    method ReadLoop(address: u32, buffer: array<byte>, pages: nat)
      requires Released() && pages * PAGE_SIZE <= buffer.Length
      modifies this, buffer
      ensures Released() && (wire.state, buffer[..pages * PAGE_SIZE]) == ReadPages(old(wire.state), address, pages)
      ensures buffer[pages * PAGE_SIZE..] == old(buffer[pages * PAGE_SIZE..])
    {
      hide PageRead, Elapse;
      var byteAddress: u32, left, done := address, pages, 0;
      ghost var start := wire.state;
      assert buffer[..0] + ReadPages(start, address, pages).1 == ReadPages(start, address, pages).1;
      while left != 0
        invariant Released() && 0 <= left <= pages && done + left * PAGE_SIZE == pages * PAGE_SIZE
        invariant ReadPages(start, address, pages).0 == ReadPages(wire.state, byteAddress, left).0
        invariant ReadPages(start, address, pages).1 == buffer[..done] + ReadPages(wire.state, byteAddress, left).1
        invariant buffer[pages * PAGE_SIZE..] == old(buffer[pages * PAGE_SIZE..])
        decreases left
      {
        ghost var all, page := buffer[..done], PageRead(wire.state, byteAddress);
        ghost var rest := ReadPages(Elapse(wire.state), Wrap(byteAddress + PAGE_SIZE), left - 1).1;
        assert all + (page + rest) == (all + page) + rest;
        ghost var tail := buffer[done + PAGE_SIZE..];
        assert buffer[pages * PAGE_SIZE..] == tail[pages * PAGE_SIZE - done - PAGE_SIZE..];
        FetchInto(byteAddress, buffer, done);
        assert buffer[pages * PAGE_SIZE..] == buffer[done + PAGE_SIZE..][pages * PAGE_SIZE - done - PAGE_SIZE..];
        byteAddress := Wrap(byteAddress + PAGE_SIZE);
        done := done + PAGE_SIZE;
        left := left - 1;
      }
      assert buffer[..done] + [] == buffer[..done];
    }

    /** FlashSpiTransfer: 0 for success, 1 for a length that is not a number of pages or for a chip
        that does not become ready.  Reads do not look whether the chip is ready. */
    method Transfer(pageAddress: u32, byteCount: nat, buffer: array<byte>, isRead: bool) returns (status: nat)
      requires Released() && byteCount < 0x10000 && byteCount <= buffer.Length
      modifies this, buffer
      ensures Released()
      ensures byteCount % PAGE_SIZE != 0 ==> status == 1
      ensures byteCount == 0 ==> status == 0
      ensures byteCount % PAGE_SIZE != 0 || byteCount == 0 ==> wire == old(wire) && buffer[..] == old(buffer[..])
      ensures byteCount % PAGE_SIZE == 0 && !isRead ==>
                && (wire.state, status) ==
                   WritePages(old(wire.state), Wrap(pageAddress * PAGE_SIZE),
                              old(buffer[..byteCount]), byteCount / PAGE_SIZE)
                && buffer[..] == old(buffer[..])
      ensures byteCount % PAGE_SIZE == 0 && isRead ==>
                && (wire.state, buffer[..byteCount]) ==
                   ReadPages(old(wire.state), Wrap(pageAddress * PAGE_SIZE), byteCount / PAGE_SIZE)
                && status == 0 && buffer[byteCount..] == old(buffer[byteCount..])
    {
      if byteCount == 0 {
        assert buffer[..0] == [];
        return 0;
      }
      if byteCount % PAGE_SIZE != 0 {
        return 1;
      }
      var byteAddress, pageCount := Wrap(pageAddress * PAGE_SIZE), byteCount / PAGE_SIZE;
      if isRead {
        ReadLoop(byteAddress, buffer, pageCount);
        status := 0;
      } else {
        status := WriteLoop(byteAddress, buffer[..byteCount], pageCount);
      }
    }
  }
}
