/**
 The gateware-write command: packets of up to 32 bytes are assembled into 256-byte pages, and
 every full page is programmed into flash, the sector being erased before its first page.
 */
module Gateware {
  import opened Bytes
  import opened FlashChip
  import opened FlashLib

  const FPGA_SIZE: nat := 2751361
  const PAGES_PER_SECTOR: nat := SECTOR_SIZE / PAGE_SIZE
  const PAYLOAD_MAX: nat := 32  // the room behind offset 24 of a packet's data field

  datatype Reply = Completed | Error

  /** The globals of the command: `flash_page`, `flash_page_data_cnt`, `flash_data_counter_to_copy`,
      `flash_page_data` and `fpga_byte`. */
  datatype Session = Session(flashPage: nat, pageCnt: nat, toCopy: nat, page: seq<byte>, fpgaByte: u32) {
    predicate Ok() {
      |page| == PAGE_SIZE && pageCnt <= PAGE_SIZE
    }
  }

  /** A packet in flash mode: its portion number and the `data_cnt` bytes of its payload. */
  datatype Packet = Packet(portion: nat, data: seq<byte>)

  function Overwrite(page: seq<byte>, at: nat, data: seq<byte>): (r: seq<byte>)
    requires at + |data| <= |page|
    ensures |r| == |page|
    ensures r[..at] == page[..at] && r[at..at + |data|] == data
  {
    page[..at] + data + page[at + |data|..]
  }

  // ---------------------------------------------------------------- the command, stage by stage

  function Begin(s: Session, portion: nat): Session {
    if portion == 0 then s.(flashPage := 0, pageCnt := 0, toCopy := 0, fpgaByte := 0) else s
  }

  /** Copies what fits into the page; an empty payload finishes a page that has been started. */
  function Fill(s: Session, data: seq<byte>): Session
    requires s.Ok()
  {
    var free := PAGE_SIZE - s.pageCnt;
    if free <= 0 then s
    else
      var n := if free > |data| then |data| else free;
      var cnt := s.pageCnt + n;
      s.(page := Overwrite(s.page, s.pageCnt, data[..n]), toCopy := n,
         pageCnt := if data == [] && cnt > 0 then PAGE_SIZE else cnt)
  }

  /** Writes a full page, erasing the sector first if the page is the sector's first. */
  function Flush(s: Session, c: Chip): (Session, Chip, nat)
    requires s.Ok()
  {
    if s.pageCnt < PAGE_SIZE then (s, c, 0)
    else
      var (c1, erase) :=
        if s.flashPage % PAGES_PER_SECTOR == 0 then
          EraseOutcome(c, true, s.flashPage / PAGES_PER_SECTOR % 256) else (c, 0);
      var (c2, write) := WritePages(c1, Wrap(Wrap(s.flashPage) * PAGE_SIZE), s.page, 1);
      if erase + write != 0 then (s, c2, erase + write)
      else (s.(flashPage := s.flashPage + 1, pageCnt := 0), c2, 0)
  }

  /** The bytes that did not fit: the payload is copied again, from its start. */
  function Spill(s: Session, data: seq<byte>): Session
    requires s.Ok() && (|data| > s.toCopy ==> s.pageCnt + |data| <= PAGE_SIZE)
  {
    if |data| > s.toCopy then
      s.(page := Overwrite(s.page, s.pageCnt, data),
         pageCnt := s.pageCnt + (|data| - s.toCopy), toCopy := |data| - s.toCopy)
    else s
  }

  /** The autoload record that overlays the page buffer: the size, least significant byte first,
      and a flag. */
  function Config(size: u32): seq<byte> {
    [ByteOf(size), ByteOf(size / 0x100), ByteOf(size / 0x10000), ByteOf(size / 0x100_0000), 1]
  }

  function Account(s: Session, data: seq<byte>): (Session, Reply)
    requires s.Ok()
  {
    var t := s.(fpgaByte := Wrap(s.fpgaByte + |data|));
    if t.fpgaByte > FPGA_SIZE then (t, Error)
    else (if data == [] then t.(page := Overwrite(t.page, 0, Config(t.fpgaByte))) else t, Completed)
  }

  /** The session behind a page that was written without an error. */
  function Flushed(s: Session): Session {
    if s.pageCnt < PAGE_SIZE then s else s.(flashPage := s.flashPage + 1, pageCnt := 0)
  }

  lemma SpillFits(s: Session, data: seq<byte>)
    requires s.Ok() && |data| <= PAYLOAD_MAX
    ensures var t := Flushed(Fill(s, data)); t.Ok() && (|data| > t.toCopy ==> t.pageCnt + |data| <= PAGE_SIZE)
  {
  }

  lemma FlushOutcome(s: Session, c: Chip)
    requires s.Ok()
    ensures Flush(s, c).2 == 0 ==> Flush(s, c).0 == Flushed(s)
    ensures Flush(s, c).2 != 0 ==> Flush(s, c).0 == s
    ensures s.pageCnt < PAGE_SIZE ==> Flush(s, c) == (s, c, 0)
  {
    hide EraseOutcome, WritePages;
  }

  function HandlePacket(s: Session, c: Chip, p: Packet): (Session, Chip, Reply)
    requires s.Ok() && |p.data| <= PAYLOAD_MAX
  {
    var f := Fill(Begin(s, p.portion), p.data);
    SpillFits(Begin(s, p.portion), p.data);
    FlushOutcome(f, c);
    var (t, d, status) := Flush(f, c);
    if status != 0 then (t, d, Error)
    else
      var (u, reply) := Account(Spill(t, p.data), p.data);
      (u, d, reply)
  }

  /** The session after a packet for which the flash calls succeed. */
  function After(s: Session, data: seq<byte>): (r: Session)
    requires s.Ok() && |data| <= PAYLOAD_MAX
    ensures r.Ok()
  {
    SpillFits(s, data);
    Account(Spill(Flushed(Fill(s, data)), data), data).0
  }

  /** Handling a packet keeps the buffer indices in range; it is `After` unless a flash call fails. */
  lemma PacketOutcome(s: Session, c: Chip, p: Packet)
    requires s.Ok() && |p.data| <= PAYLOAD_MAX
    ensures var (t, _, reply) := HandlePacket(s, c, p); var b := Begin(s, p.portion);
      && t.Ok()
      && (Flush(Fill(b, p.data), c).2 == 0 ==>
          t == After(b, p.data) && (reply == Completed <==> t.fpgaByte <= FPGA_SIZE))
      && (Flush(Fill(b, p.data), c).2 != 0 ==> t == Fill(b, p.data) && reply == Error)
  {
    hide EraseOutcome, WritePages, Flush, Config;
    var b := Begin(s, p.portion);
    SpillFits(b, p.data);
    FlushOutcome(Fill(b, p.data), c);
  }

  // ---------------------------------------------------------------- accounting

  /** Bytes received are pages written plus bytes waiting, straddling payloads included. */
  predicate Balanced(s: Session) {
    s.Ok() && s.pageCnt < PAGE_SIZE && s.fpgaByte == s.flashPage * PAGE_SIZE + s.pageCnt
  }

  lemma PacketBalances(s: Session, data: seq<byte>)
    requires Balanced(s) && 0 < |data| <= PAYLOAD_MAX && s.fpgaByte + |data| < TWO_32
    ensures Balanced(After(s, data))
  {
    hide Config, Overwrite;
    SpillFits(s, data);
  }

  // ---------------------------------------------------------------- content

  /** The bytes waiting in the page buffer are the end of the stream `d`. */
  predicate Buffered(s: Session, d: seq<byte>) {
    Balanced(s) && s.fpgaByte == |d| && s.page[..s.pageCnt] == d[s.flashPage * PAGE_SIZE..]
  }

  /** What a payload puts into pages of which the current one holds `cnt` bytes: the part behind a
      page's end is taken from the payload's beginning again. */
  function Placed(cnt: nat, data: seq<byte>): (r: seq<byte>)
    requires cnt < PAGE_SIZE
    ensures |r| == |data|
    ensures r == data <==> Survives(cnt, data)
  {
    var free := PAGE_SIZE - cnt;
    if |data| <= free then data
    else
      assert data == data[..free] + data[free..];
      data[..free] + data[..|data| - free]
  }

  /** The payload does not straddle a page, or what is left over happens to equal its beginning. */
  predicate Survives(cnt: nat, data: seq<byte>)
    requires cnt < PAGE_SIZE
  {
    var free := PAGE_SIZE - cnt;
    |data| <= free || data[..|data| - free] == data[free..]
  }

  lemma PlacedIsBuffered(s: Session, data: seq<byte>, d: seq<byte>)
    requires Buffered(s, d) && 0 < |data| <= PAYLOAD_MAX && |d| + |data| < TWO_32
    ensures Buffered(After(s, data), d + Placed(s.pageCnt, data))
  {
    SpillFits(s, data);
    PacketBalances(s, data);
    if |data| < PAGE_SIZE - s.pageCnt {
      BufferedInPage(s, data, d);
    } else {
      BufferedAcross(s, data, d);
    }
  }

  /** A payload is buffered correctly if and only if it does not straddle a page, or the part that
      is left over happens to equal the payload's beginning. */
  lemma StraddleExact(s: Session, data: seq<byte>, d: seq<byte>)
    requires Buffered(s, d) && 0 < |data| <= PAYLOAD_MAX && |d| + |data| < TWO_32
    ensures Buffered(After(s, data), d + data) <==> Survives(s.pageCnt, data)
  {
    SpillFits(s, data);
    PacketBalances(s, data);
    if |data| < PAGE_SIZE - s.pageCnt {
      BufferedInPage(s, data, d);
    } else {
      BufferedAcross(s, data, d);
    }
  }

  lemma DropAppend(d: seq<byte>, data: seq<byte>, k: nat)
    requires k <= |d|
    ensures (d + data)[k..] == d[k..] + data
  {
  }

  lemma AfterInPage(s: Session, data: seq<byte>)
    requires s.Ok() && 0 < |data| < PAGE_SIZE - s.pageCnt && |data| <= PAYLOAD_MAX
    ensures var t := After(s, data);
      t.flashPage == s.flashPage && t.pageCnt == s.pageCnt + |data| && t.page == Overwrite(s.page, s.pageCnt, data)
  {
    hide Config, Overwrite;
    assert data[..|data|] == data;
  }

  lemma BufferedInPage(s: Session, data: seq<byte>, d: seq<byte>)
    requires Buffered(s, d) && 0 < |data| < PAGE_SIZE - s.pageCnt && |data| <= PAYLOAD_MAX && |d| + |data| < TWO_32
    requires Balanced(After(s, data))
    ensures Buffered(After(s, data), d + data)
  {
    AfterInPage(s, data);
    hide Config, After, Fill, Flushed, Spill, Account;
    var t := After(s, data);
    assert t.page[..t.pageCnt] == s.page[..s.pageCnt] + data;
    DropAppend(d, data, s.flashPage * PAGE_SIZE);
  }

  lemma AfterAcross(s: Session, data: seq<byte>)
    requires s.Ok() && s.pageCnt < PAGE_SIZE && PAGE_SIZE - s.pageCnt <= |data| <= PAYLOAD_MAX && data != []
    ensures var free := PAGE_SIZE - s.pageCnt; var t := After(s, data);
      && t.flashPage == s.flashPage + 1 && t.pageCnt == |data| - free
      && t.Ok() && t.page[..t.pageCnt] == data[..t.pageCnt]
  {
    hide Config, Overwrite;
    SpillFits(s, data);
    var free, f := PAGE_SIZE - s.pageCnt, Fill(s, data);
    if |data| > free {
      OverwriteStart(f.page, data, |data| - free);
    }
  }

  lemma OverwriteStart(page: seq<byte>, data: seq<byte>, k: nat)
    requires k <= |data| <= |page|
    ensures Overwrite(page, 0, data)[..k] == data[..k]
  {
  }

  lemma BufferedAcross(s: Session, data: seq<byte>, d: seq<byte>)
    requires Buffered(s, d) && PAGE_SIZE - s.pageCnt <= |data| <= PAYLOAD_MAX && |d| + |data| < TWO_32
    requires Balanced(After(s, data))
    ensures Buffered(After(s, data), d + Placed(s.pageCnt, data))
    ensures Buffered(After(s, data), d + data) <==> Survives(s.pageCnt, data)
  {
    AfterAcross(s, data);
    PlacedAcross(s.pageCnt, data);
    BalancedAcross(s, data);
    hide Config, After, Fill, Flushed, Spill, Account, Placed, Survives, Overwrite, Buffered, Balanced;
    var free := PAGE_SIZE - s.pageCnt;
    BufferedTail(After(s, data), d, data, free);
    BufferedTail(After(s, data), d, Placed(s.pageCnt, data), free);
  }

  lemma BalancedAcross(s: Session, data: seq<byte>)
    requires Balanced(s) && PAGE_SIZE - s.pageCnt <= |data| <= PAYLOAD_MAX && s.fpgaByte + |data| < TWO_32
    requires Balanced(After(s, data))
    ensures var free := PAGE_SIZE - s.pageCnt; var t := After(s, data);
      t.flashPage * PAGE_SIZE == s.fpgaByte + free && t.fpgaByte == s.fpgaByte + |data|
  {
    AfterAcross(s, data);
    hide After;
  }

  /** With the page starting `free` bytes into the payload, the buffer has to hold what follows. */
  lemma BufferedTail(t: Session, d: seq<byte>, data: seq<byte>, free: nat)
    requires Balanced(t) && free <= |data| && t.flashPage * PAGE_SIZE == |d| + free && t.fpgaByte == |d| + |data|
    ensures Buffered(t, d + data) <==> t.page[..t.pageCnt] == data[free..]
  {
    DropAcross(d, data, free);
  }

  lemma PlacedAcross(cnt: nat, data: seq<byte>)
    requires cnt < PAGE_SIZE && PAGE_SIZE - cnt <= |data|
    ensures var free := PAGE_SIZE - cnt;
      && Placed(cnt, data)[free..] == data[..|data| - free]
      && (Survives(cnt, data) <==> data[..|data| - free] == data[free..])
  {
    var free := PAGE_SIZE - cnt;
    assert |data| == free ==> data[free..] == [] == data[..0];
  }

  lemma DropAcross(d: seq<byte>, data: seq<byte>, k: nat)
    requires k <= |data|
    ensures (d + data)[|d| + k..] == data[k..]
  {
  }

  /** The first `length` bytes of the stream are in the array. */
  predicate Stored(mem: seq<byte>, d: seq<byte>, length: nat) {
    Image(mem) && length <= |d| && length <= CHIP_SIZE &&
    forall i :: 0 <= i < length ==> mem[i] == ReverseBitOrder(d[i])
  }

  /** The end of the sector that page `page` belongs to, or the page's start if it begins one. */
  function SectorEnd(page: nat): nat {
    (page + PAGES_PER_SECTOR - 1) / PAGES_PER_SECTOR * SECTOR_SIZE
  }

  /** Between two packets: the array holds all full pages, the buffer the rest of the stream, and
      what is left of the current sector is still blank from its erasure in this session. */
  predicate Consistent(s: Session, mem: seq<byte>, d: seq<byte>) {
    && Buffered(s, d)
    && Stored(mem, d, s.flashPage * PAGE_SIZE)
    && BlankAhead(mem, s.flashPage)
  }

  /** The sector is blank from the given page on. */
  predicate BlankAhead(mem: seq<byte>, page: nat)
    requires Image(mem)
  {
    forall i :: page * PAGE_SIZE <= i < SectorEnd(page) && i < CHIP_SIZE ==> mem[i] == 0xFF
  }

  /** The chip can take the page that is about to be written: it is idle when a sector has to be
      erased, and otherwise soon enough. */
  predicate Ready(s: Session, c: Chip) {
    if s.flashPage % PAGES_PER_SECTOR == 0 then c.busy == 0 && c.latency(c.ops) < STATUS_RETRIES_ERASE
    else (c.busy + 1) / 2 < STATUS_RETRIES
  }

  lemma SectorArithmetic(page: nat)
    requires page * PAGE_SIZE < CHIP_SIZE
    ensures page / PAGES_PER_SECTOR < 256 && page < 0x10000
    ensures page % PAGES_PER_SECTOR == 0 ==>
              page / PAGES_PER_SECTOR * SECTOR_SIZE == page * PAGE_SIZE &&
              SectorEnd(page + 1) == page * PAGE_SIZE + SECTOR_SIZE
    ensures page % PAGES_PER_SECTOR != 0 ==> SectorEnd(page + 1) == SectorEnd(page)
    ensures SectorEnd(page + 1) >= (page + 1) * PAGE_SIZE
  {
  }

  lemma InSector(i: nat, k: nat)
    ensures i / SECTOR_SIZE == k * SECTOR_SIZE / SECTOR_SIZE <==> k * SECTOR_SIZE <= i < k * SECTOR_SIZE + SECTOR_SIZE
  {
  }

  /** A sector's first page: the erase makes the whole sector blank and touches nothing before. */
  lemma EraseClears(c: Chip, page: nat)
    requires Image(c.mem) && page * PAGE_SIZE < CHIP_SIZE && page % PAGES_PER_SECTOR == 0
    requires c.busy == 0 && c.latency(c.ops) < STATUS_RETRIES_ERASE
    ensures var (d, status) := EraseOutcome(c, true, page / PAGES_PER_SECTOR % 256);
      && status == 0 && d.busy == 0 && Image(d.mem)
      && (forall i :: 0 <= i < page * PAGE_SIZE ==> d.mem[i] == c.mem[i])
      && (forall i :: page * PAGE_SIZE <= i < page * PAGE_SIZE + SECTOR_SIZE && i < CHIP_SIZE ==> d.mem[i] == 0xFF)
  {
    hide EraseOutcome;
    SectorArithmetic(page);
    var k := page / PAGES_PER_SECTOR;
    EraseNeedsIdleChip(c, k);
    var mem := Erase(c.mem, k * SECTOR_SIZE);
    forall i | 0 <= i < CHIP_SIZE
      ensures mem[i] == if k * SECTOR_SIZE <= i < k * SECTOR_SIZE + SECTOR_SIZE then 0xFF else c.mem[i]
    {
      InSector(i, k);
    }
  }

  /** What a page that goes out leaves behind: the pages before it, the page itself, and blank
      memory to the end of the sector. */
  predicate WentOut(before: seq<byte>, after: seq<byte>, number: nat, page: seq<byte>) {
    && Image(before) && Image(after) && |page| == PAGE_SIZE
    && (forall i :: 0 <= i < number * PAGE_SIZE && i < CHIP_SIZE ==> after[i] == before[i])
    && (forall i :: number * PAGE_SIZE <= i < (number + 1) * PAGE_SIZE && i < CHIP_SIZE ==>
          after[i] == ReverseBitOrder(page[i - number * PAGE_SIZE]))
    && (forall i :: (number + 1) * PAGE_SIZE <= i < SectorEnd(number + 1) && i < CHIP_SIZE ==> after[i] == 0xFF)
  }

  lemma ProgramBlankPage(c: Chip, number: nat, page: seq<byte>, before: seq<byte>)
    requires Image(c.mem) && Image(before) && (number + 1) * PAGE_SIZE <= CHIP_SIZE && |page| == PAGE_SIZE
    requires (c.busy + 1) / 2 < STATUS_RETRIES
    requires forall i :: 0 <= i < number * PAGE_SIZE ==> c.mem[i] == before[i]
    requires forall i :: number * PAGE_SIZE <= i < SectorEnd(number + 1) && i < CHIP_SIZE ==> c.mem[i] == 0xFF
    ensures var (d, status) := WritePages(c, number * PAGE_SIZE, page, 1);
      status == 0 && WentOut(before, d.mem, number, page)
  {
    hide WritePages, ReverseBitOrder, SectorEnd, ByteAfter;
    var start := number * PAGE_SIZE;
    WritePagesOutcome(c, start, page, 1);
    var d := WritePages(c, start, page, 1).0;
    assert SectorEnd(number + 1) >= start + PAGE_SIZE by {
      SectorArithmetic(number);
    }
    forall i | 0 <= i < CHIP_SIZE
      ensures
        d.mem[i] == if start <= i < start + PAGE_SIZE then c.mem[i] & ReverseBitOrder(page[i - start]) else c.mem[i]
    {
      ProgrammedByte(c.mem[i], i, start, page);
    }
    forall i | start <= i < start + PAGE_SIZE ensures d.mem[i] == ReverseBitOrder(page[i - start]) {
      BlankTakes(page[i - start]);
    }
  }

  lemma ProgrammedByte(before: byte, i: nat, start: nat, page: seq<byte>)
    ensures ByteAfter(before, i, start, page) ==
            if start <= i < start + |page| then before & ReverseBitOrder(page[i - start]) else before
  {
  }

  lemma PageAddress(page: nat)
    requires page < 0x10000
    ensures Wrap(Wrap(page) * PAGE_SIZE) == page * PAGE_SIZE
  {
  }

  /** A full page goes out: no flash call fails, and each page is programmed once, into blank memory. */
  lemma PageGoesOut(s: Session, c: Chip)
    requires s.Ok() && s.pageCnt == PAGE_SIZE && Image(c.mem) && Ready(s, c)
    requires (s.flashPage + 1) * PAGE_SIZE <= CHIP_SIZE
    requires forall i :: s.flashPage * PAGE_SIZE <= i < SectorEnd(s.flashPage) && i < CHIP_SIZE ==> c.mem[i] == 0xFF
    ensures var (t, d, status) := Flush(s, c);
      status == 0 && WentOut(c.mem, d.mem, s.flashPage, s.page)
  {
    SectorArithmetic(s.flashPage);
    PageAddress(s.flashPage);
    hide WritePages, EraseOutcome, WentOut, SectorEnd, Image, Wrap;
    if s.flashPage % PAGES_PER_SECTOR == 0 {
      FirstPageGoesOut(s, c);
    } else {
      ProgramBlankPage(c, s.flashPage, s.page, c.mem);
    }
  }

  lemma FirstPageGoesOut(s: Session, c: Chip)
    requires |s.page| == PAGE_SIZE && Image(c.mem) && Ready(s, c) && s.flashPage % PAGES_PER_SECTOR == 0
    requires (s.flashPage + 1) * PAGE_SIZE <= CHIP_SIZE
    ensures var (e, erased) := EraseOutcome(c, true, s.flashPage / PAGES_PER_SECTOR % 256);
      var (d, written) := WritePages(e, s.flashPage * PAGE_SIZE, s.page, 1);
      erased == 0 && written == 0 && WentOut(c.mem, d.mem, s.flashPage, s.page)
  {
    hide WritePages, EraseOutcome, WentOut, SectorEnd, Image;
    EraseClears(c, s.flashPage);
    BlankSector(c, s.flashPage, s.page, EraseOutcome(c, true, s.flashPage / PAGES_PER_SECTOR % 256).0);
  }

  /** The first page of a sector that has been blanked goes out. */
  lemma BlankSector(c: Chip, number: nat, page: seq<byte>, d: Chip)
    requires Image(c.mem) && Image(d.mem) && |page| == PAGE_SIZE && d.busy == 0
    requires number % PAGES_PER_SECTOR == 0 && (number + 1) * PAGE_SIZE <= CHIP_SIZE
    requires forall i :: 0 <= i < number * PAGE_SIZE ==> d.mem[i] == c.mem[i]
    requires forall i :: number * PAGE_SIZE <= i < number * PAGE_SIZE + SECTOR_SIZE && i < CHIP_SIZE ==>
      d.mem[i] == 0xFF
    ensures var (e, written) := WritePages(d, number * PAGE_SIZE, page, 1);
      written == 0 && WentOut(c.mem, e.mem, number, page)
  {
    hide WritePages, WentOut;
    SectorArithmetic(number);
    hide SectorEnd;
    ProgramBlankPage(d, number, page, c.mem);
  }

  lemma StoredMore(before: seq<byte>, after: seq<byte>, number: nat, page: seq<byte>,
                   d: seq<byte>, all: seq<byte>, length: nat)
    requires WentOut(before, after, number, page) && Stored(before, d, number * PAGE_SIZE)
    requires d <= all && number * PAGE_SIZE <= length <= |all| && length <= (number + 1) * PAGE_SIZE &&
      length <= CHIP_SIZE
    requires forall i :: number * PAGE_SIZE <= i < length ==> page[i - number * PAGE_SIZE] == all[i]
    ensures Stored(after, all, length)
  {
    hide ReverseBitOrder, SectorEnd;
  }

  /** A packet of the stream's middle keeps buffer and array consistent with what has been placed,
      provided the chip is ready for the page it may complete. */
  lemma PacketKeeps(s: Session, c: Chip, p: Packet, d: seq<byte>)
    requires Consistent(s, c.mem, d) && p.portion != 0 && 0 < |p.data| <= PAYLOAD_MAX && |d| + |p.data| <= CHIP_SIZE
    requires s.pageCnt + |p.data| >= PAGE_SIZE ==> Ready(s, c)
    ensures var (t, e, reply) := HandlePacket(s, c, p);
      && Consistent(t, e.mem, d + Placed(s.pageCnt, p.data)) && t.pageCnt == Filled(s.pageCnt, |p.data|)
      && (reply == Completed <==> |d| + |p.data| <= FPGA_SIZE)
  {
    var f := Fill(s, p.data);
    PlacedIsBuffered(s, p.data, d);
    AfterShape(s, p.data);
    SpillFits(s, p.data);
    FlushOutcome(f, c);
    hide Flush, After, ReverseBitOrder, SectorEnd, WentOut, Ready, Placed, BlankAhead, Buffered, Balanced, Fill;
    var all := d + Placed(s.pageCnt, p.data);
    if s.pageCnt + |p.data| >= PAGE_SIZE {
      PageKeeps(s, c, p.data, d);
    } else {
      ShortOfPage(s, p.data);
      StoredPrefix(c.mem, d, all, s.flashPage * PAGE_SIZE);
    }
    MiddlePacket(s, c, p);
    hide Stored;
  }

  lemma MiddlePacket(s: Session, c: Chip, p: Packet)
    requires s.Ok() && p.portion != 0 && |p.data| <= PAYLOAD_MAX && Flush(Fill(s, p.data), c).2 == 0
    ensures var (t, e, reply) := HandlePacket(s, c, p);
      && t == After(s, p.data) && e == Flush(Fill(s, p.data), c).1
      && (reply == Completed <==> t.fpgaByte <= FPGA_SIZE)
  {
    hide Flush, After, Fill;
    PacketOutcome(s, c, p);
  }

  lemma ShortOfPage(s: Session, data: seq<byte>)
    requires s.Ok() && s.pageCnt + |data| < PAGE_SIZE && data != []
    ensures Fill(s, data).pageCnt < PAGE_SIZE
  {
  }

  /** The page that a payload completes goes out with what has been placed. */
  lemma PageKeeps(s: Session, c: Chip, data: seq<byte>, d: seq<byte>)
    requires Consistent(s, c.mem, d) && 0 < |data| <= PAYLOAD_MAX && |d| + |data| <= CHIP_SIZE
    requires s.pageCnt + |data| >= PAGE_SIZE && Ready(s, c)
    ensures var (_, e, status) := Flush(Fill(s, data), c);
      && status == 0 && Stored(e.mem, d + Placed(s.pageCnt, data), (s.flashPage + 1) * PAGE_SIZE)
      && BlankAhead(e.mem, s.flashPage + 1)
  {
    hide Flush, ReverseBitOrder, SectorEnd, WentOut, Ready, Placed;
    var f, all := Fill(s, data), d + Placed(s.pageCnt, data);
    FullPage(s, data, d);
    ReadyIgnoresPage(s, f, c);
    hide Fill;
    PageGoesOut(f, c);
    var e := Flush(f, c).1;
    StoredMore(c.mem, e.mem, s.flashPage, f.page, d, all, (s.flashPage + 1) * PAGE_SIZE);
    BlankAfter(c.mem, e.mem, s.flashPage, f.page);
  }

  lemma ReadyIgnoresPage(s: Session, f: Session, c: Chip)
    requires Ready(s, c) && f.flashPage == s.flashPage
    ensures Ready(f, c)
  {
  }

  lemma SpillShape(s: Session, data: seq<byte>)
    requires s.Ok() && s.pageCnt < PAGE_SIZE && 0 < |data| <= PAYLOAD_MAX
    ensures var t, n := Flushed(Fill(s, data)), s.pageCnt + |data|;
      && t.Ok() && (|data| > t.toCopy ==> t.pageCnt + |data| <= PAGE_SIZE)
      && var u := Spill(t, data);
      && u.flashPage == (if n >= PAGE_SIZE then s.flashPage + 1 else s.flashPage)
      && u.fpgaByte == s.fpgaByte && u.pageCnt == (if n >= PAGE_SIZE then n - PAGE_SIZE else n)
  {
    hide Overwrite;
    SpillFits(s, data);
  }

  lemma AfterShape(s: Session, data: seq<byte>)
    requires Balanced(s) && 0 < |data| <= PAYLOAD_MAX && s.fpgaByte + |data| < TWO_32
    ensures var t := After(s, data);
      && t.flashPage == (if s.pageCnt + |data| >= PAGE_SIZE then s.flashPage + 1 else s.flashPage)
      && t.fpgaByte == s.fpgaByte + |data| && t.pageCnt == Filled(s.pageCnt, |data|)
  {
    SpillShape(s, data);
    hide Config, Overwrite, Fill, Flushed, Spill;
  }

  /** The page that is completed holds what has been placed. */
  lemma FullPage(s: Session, data: seq<byte>, d: seq<byte>)
    requires Buffered(s, d) && 0 < |data| <= PAYLOAD_MAX && s.pageCnt + |data| >= PAGE_SIZE
    ensures var f, start := Fill(s, data), s.flashPage * PAGE_SIZE;
      && f.Ok() && f.pageCnt == PAGE_SIZE && f.flashPage == s.flashPage
      && forall i :: start <= i < start + PAGE_SIZE ==> f.page[i - start] == (d + Placed(s.pageCnt, data))[i]
  {
    var f, start, free := Fill(s, data), s.flashPage * PAGE_SIZE, PAGE_SIZE - s.pageCnt;
    assert f.page == s.page[..s.pageCnt] + data[..free];
    assert Placed(s.pageCnt, data)[..free] == data[..free];
    assert f.page == (d + Placed(s.pageCnt, data))[start..start + PAGE_SIZE];
  }

  lemma BlankAfter(before: seq<byte>, after: seq<byte>, number: nat, page: seq<byte>)
    requires WentOut(before, after, number, page)
    ensures forall i :: (number + 1) * PAGE_SIZE <= i < SectorEnd(number + 1) && i < CHIP_SIZE ==> after[i] == 0xFF
  {
  }

  lemma StoredPrefix(mem: seq<byte>, d: seq<byte>, all: seq<byte>, length: nat)
    requires Stored(mem, d, length) && d <= all
    ensures Stored(mem, all, length)
  {
  }

  /** The empty packet that ends a transfer finishes the page that has been started. */
  lemma EndStoresAll(s: Session, c: Chip, p: Packet, d: seq<byte>)
    requires Consistent(s, c.mem, d) && p.portion != 0 && p.data == [] && |d| <= CHIP_SIZE
    requires s.pageCnt > 0 ==> Ready(s, c)
    ensures var (t, e, reply) := HandlePacket(s, c, p);
      && Stored(e.mem, d, |d|)
      && (reply == Completed <==> |d| <= FPGA_SIZE)
  {
    hide Flush, After, ReverseBitOrder, SectorEnd, WentOut, Ready, Config;
    PacketOutcome(s, c, p);
    var f := Fill(s, []);
    FlushOutcome(f, c);
    EndShape(s);
    if s.pageCnt > 0 {
      assert Ready(f, c) by {
        ReadyIgnoresPage(s, f, c);
      }
      assert (s.flashPage + 1) * PAGE_SIZE <= CHIP_SIZE;
      PageGoesOut(f, c);
      var e := Flush(f, c).1;
      LastPage(s, d);
      StoredMore(c.mem, e.mem, s.flashPage, f.page, d, d, |d|);
    }
  }

  lemma EndShape(s: Session)
    requires Balanced(s)
    ensures After(s, []).fpgaByte == s.fpgaByte
    ensures var f := Fill(s, []);
      f.Ok() && f.flashPage == s.flashPage && f.pageCnt == if s.pageCnt > 0 then PAGE_SIZE else 0
  {
    hide Config, Overwrite;
    SpillFits(s, []);
  }

  lemma LastPage(s: Session, d: seq<byte>)
    requires Buffered(s, d)
    ensures var f := Fill(s, []);
      forall i :: s.flashPage * PAGE_SIZE <= i < |d| ==> f.page[i - s.flashPage * PAGE_SIZE] == d[i]
  {
    var start := s.flashPage * PAGE_SIZE;
    assert Fill(s, []).page == s.page;
    forall i | start <= i < |d| ensures s.page[i - start] == d[i] {
      assert s.page[..s.pageCnt][i - start] == d[start..][i - start];
    }
  }

  // ---------------------------------------------------------------- whole transfers

  /** `k` frames' worth of time pass on the flash bus without a command. */
  function Idle(c: Chip, k: nat): (r: Chip)
    ensures r.mem == c.mem
    decreases k
  {
    if k == 0 then c else Idle(Elapse(c), k - 1)
  }

  /** A packet and the time that has passed before it. */
  datatype Arrival = Arrival(pause: nat, packet: Packet)

  function Stream(es: seq<Arrival>): seq<byte>
    decreases |es|
  {
    if es == [] then [] else es[0].packet.data + Stream(es[1..])
  }

  predicate Wellformed(es: seq<Arrival>) {
    forall i :: 0 <= i < |es| ==> |es[i].packet.data| <= PAYLOAD_MAX
  }

  function Receive(s: Session, c: Chip, es: seq<Arrival>): (r: (Session, Chip))
    requires s.Ok() && Wellformed(es)
    ensures r.0.Ok()
    decreases |es|
  {
    if es == [] then (s, c)
    else
      PacketOutcome(s, Idle(c, es[0].pause), es[0].packet);
      var (t, d, _) := HandlePacket(s, Idle(c, es[0].pause), es[0].packet);
      Receive(t, d, es[1..])
  }

  /** Whenever a page is about to be written the chip is ready: idle before a sector is erased, and
      never too slow for the firmware's patience. */
  predicate Paced(s: Session, c: Chip, es: seq<Arrival>)
    requires s.Ok() && Wellformed(es)
    decreases |es|
  {
    es != [] ==>
      var p, r := es[0].packet, Idle(c, es[0].pause);
      var b := Begin(s, p.portion);
      && (p.data == [] && b.pageCnt > 0 ==> Ready(b, r))
      && (p.data != [] && b.pageCnt + |p.data| >= PAGE_SIZE ==> Ready(b, r))
      && (PacketOutcome(s, r, p);
          var (t, d, _) := HandlePacket(s, r, p);
          Paced(t, d, es[1..]))
  }

  /** How far the current page is filled after `n` more bytes. */
  function Filled(cnt: nat, n: nat): (r: nat)
    ensures r < PAGE_SIZE
  {
    (cnt + n) % PAGE_SIZE
  }

  /** What a transfer's payloads put into the pages. */
  function Landed(cnt: nat, es: seq<Arrival>): (r: seq<byte>)
    requires cnt < PAGE_SIZE
    ensures |r| == |Stream(es)|
    decreases |es|
  {
    if es == [] then []
    else Placed(cnt, es[0].packet.data) + Landed(Filled(cnt, |es[0].packet.data|), es[1..])
  }

  /** Every payload of a transfer survives. */
  predicate AllSurvive(cnt: nat, es: seq<Arrival>)
    requires cnt < PAGE_SIZE
    decreases |es|
  {
    es != [] ==>
      Survives(cnt, es[0].packet.data) && AllSurvive(Filled(cnt, |es[0].packet.data|), es[1..])
  }

  lemma {:induction false} LandedIffSurvive(cnt: nat, es: seq<Arrival>)
    requires cnt < PAGE_SIZE
    ensures Landed(cnt, es) == Stream(es) <==> AllSurvive(cnt, es)
    decreases |es|
  {
    hide Placed, Survives, Filled;
    if es != [] {
      var data := es[0].packet.data;
      var next := Filled(cnt, |data|);
      LandedIffSurvive(next, es[1..]);
      SplitEqual(Placed(cnt, data), Landed(next, es[1..]), data, Stream(es[1..]));
    }
  }

  lemma SplitEqual(x: seq<byte>, y: seq<byte>, u: seq<byte>, v: seq<byte>)
    requires |x| == |u|
    ensures x + y == u + v <==> x == u && y == v
  {
    if x + y == u + v {
      assert x == (x + y)[..|x|] == u;
      assert y == (x + y)[|x|..] == v;
    }
  }

  /** The array determines the bytes stored in it. */
  lemma StoredOnce(mem: seq<byte>, x: seq<byte>, y: seq<byte>)
    requires |x| == |y| && Stored(mem, x, |x|)
    ensures Stored(mem, y, |y|) <==> x == y
  {
    hide ReverseBitOrder;
    if Stored(mem, y, |y|) {
      forall i | 0 <= i < |x|
        ensures x[i] == y[i]
      {
        ReverseTwice(x[i]);
        ReverseTwice(y[i]);
      }
    }
  }

  /** The packets after the first: payloads, and at the end the empty packet. */
  predicate Ending(es: seq<Arrival>) {
    && es != []
    && forall i :: 0 <= i < |es| ==> es[i].packet.portion != 0 && (es[i].packet.data == [] <==> i == |es| - 1)
  }

  lemma EndingRest(es: seq<Arrival>)
    requires Wellformed(es) && Ending(es)
    ensures var p := es[0].packet; p.portion != 0 && |p.data| <= PAYLOAD_MAX && (p.data == [] <==> |es| == 1)
    ensures |es| > 1 ==> Wellformed(es[1..]) && Ending(es[1..])
  {
    assert forall i :: 0 <= i < |es| - 1 ==> es[1..][i] == es[i + 1];
  }

  lemma JoinThree(a: seq<byte>, b: seq<byte>, c: seq<byte>)
    ensures (a + b) + c == a + (b + c)
  {
  }

  lemma {:induction false} RestIsStored(s: Session, c: Chip, d: seq<byte>, es: seq<Arrival>)
    requires Consistent(s, c.mem, d) && Wellformed(es) && Paced(s, c, es) && Ending(es)
    requires |d| + |Stream(es)| <= CHIP_SIZE
    ensures Stored(Receive(s, c, es).1.mem, d + Landed(s.pageCnt, es), |d + Landed(s.pageCnt, es)|)
    decreases |es|
  {
    hide Consistent, HandlePacket, Ready, Stored, Placed, Filled;
    var p, r := es[0].packet, Idle(c, es[0].pause);
    EndingRest(es);
    hide Ending;
    OkOf(s, c.mem, d);
    PacketOutcome(s, r, p);
    var (t, e, _) := HandlePacket(s, r, p);
    var placed := Placed(s.pageCnt, p.data);
    if |es| == 1 {
      EndStoresAll(s, r, p, d);
      assert es[1..] == [] && d + (placed + []) == d;
    } else {
      PacketKeeps(s, r, p, d);
      JoinThree(d, placed, Landed(t.pageCnt, es[1..]));
      RestIsStored(t, e, d + placed, es[1..]);
    }
  }

  /** A transfer that starts with portion 0 and ends with an empty packet, whatever the session and
      the flash held before. */
  predicate Transfer(s: Session, c: Chip, es: seq<Arrival>) {
    && s.Ok() && Image(c.mem) && Wellformed(es) && Paced(s, c, es)
    && |es| >= 2 && es[0].packet.portion == 0 && es[0].packet.data != [] && Ending(es[1..])
    && |Stream(es)| <= CHIP_SIZE
  }

  lemma TransferLands(s: Session, c: Chip, es: seq<Arrival>)
    requires Transfer(s, c, es)
    ensures Stored(Receive(s, c, es).1.mem, Landed(0, es), |Landed(0, es)|)
  {
    hide HandlePacket, Ready, Stored, Placed;
    var p, r := es[0].packet, Idle(c, es[0].pause);
    var b, q := Begin(s, 0), Packet(1, es[0].packet.data);
    FreshSession(s, r.mem);
    PacketOutcome(s, r, p);
    SamePacket(s, r, p);
    PacketKeeps(b, r, q, []);
    var placed := Placed(0, q.data);
    assert [] + placed == placed;
    var (t, e, _) := HandlePacket(s, r, p);
    RestIsStored(t, e, placed, es[1..]);
  }

  /** In every transfer whose pages find the chip ready, the flash from page 0 on holds the
      concatenated payloads if and only if no payload straddles a page, other than one whose
      left-over part equals its beginning. */
  lemma TransferIsStoredIff(s: Session, c: Chip, es: seq<Arrival>)
    requires Transfer(s, c, es)
    ensures Stored(Receive(s, c, es).1.mem, Stream(es), |Stream(es)|) <==> AllSurvive(0, es)
  {
    TransferLands(s, c, es);
    LandedIffSurvive(0, es);
    hide Transfer, Receive, Stored, Landed;
    StoredOnce(Receive(s, c, es).1.mem, Landed(0, es), Stream(es));
  }

  // ---------------------------------------------------------------- a transfer that goes wrong

  /** A chip that takes no time at all for any operation. */
  ghost predicate Instant(c: Chip) {
    c.busy == 0 && forall k: nat :: c.latency(k) == 0
  }

  lemma {:induction false} IdleStays(c: Chip, k: nat)
    requires c.busy == 0
    ensures Idle(c, k) == c
  {
    if k > 0 {
      IdleStays(c, k - 1);
    }
  }

  lemma WriteStaysInstant(c: Chip, address: u32, page: seq<byte>)
    requires Instant(c) && |page| == PAGE_SIZE
    ensures Instant(WritePages(c, address, page, 1).0)
  {
    hide Program, Wait;
    assert page[..PAGE_SIZE] == page;
    WritePageOutcome(c, address, page);
  }

  lemma FlushStaysInstant(s: Session, c: Chip)
    requires Instant(c) && s.Ok()
    ensures Instant(Flush(s, c).1)
  {
    hide EraseOutcome, WritePages;
    var sector, address := s.flashPage / PAGES_PER_SECTOR % 256, Wrap(Wrap(s.flashPage) * PAGE_SIZE);
    EraseNeedsIdleChip(c, sector);
    var e := EraseOutcome(c, true, sector).0;
    if s.pageCnt == PAGE_SIZE {
      WriteStaysInstant(c, address, s.page);
      WriteStaysInstant(e, address, s.page);
    }
  }

  lemma PacketStaysInstant(s: Session, c: Chip, p: Packet)
    requires Instant(c) && s.Ok() && |p.data| <= PAYLOAD_MAX
    ensures Instant(HandlePacket(s, c, p).1)
  {
    FlushStaysInstant(Fill(Begin(s, p.portion), p.data), c);
    hide Flush, Fill, Spill, Account, Instant;
  }

  lemma InstantIsReady(s: Session, c: Chip)
    requires Instant(c)
    ensures Ready(s, c)
  {
  }

  /** Such a chip is ready for every page. */
  lemma {:induction false} InstantPaces(s: Session, c: Chip, es: seq<Arrival>)
    requires Instant(c) && s.Ok() && Wellformed(es)
    ensures Paced(s, c, es)
    decreases |es|
  {
    if es != [] {
      var p := es[0].packet;
      IdleStays(c, es[0].pause);
      PacketOutcome(s, c, p);
      PacketStaysInstant(s, c, p);
      InstantIsReady(Begin(s, p.portion), c);
      hide HandlePacket, Instant, Ready;
      InstantPaces(HandlePacket(s, c, p).0, HandlePacket(s, c, p).1, es[1..]);
    }
  }

  /** Nine packets with the same payload, and the empty packet. */
  function Nine(data: seq<byte>): (es: seq<Arrival>)
    ensures |es| == 10
  {
    seq(10, i requires 0 <= i < 10 => Arrival(0, Packet(i, if i < 9 then data else [])))
  }

  /** The first `k` packets carry `size` bytes each. */
  predicate Even(es: seq<Arrival>, k: nat, size: nat) {
    k <= |es| && forall i :: 0 <= i < k ==> |es[i].packet.data| == size
  }

  lemma {:induction false} StreamOfEven(es: seq<Arrival>, size: nat)
    requires es != [] && Even(es, |es| - 1, size) && es[|es| - 1].packet.data == []
    ensures |Stream(es)| == (|es| - 1) * size
  {
    if |es| > 1 {
      assert Even(es[1..], |es| - 2, size) && es[1..][|es| - 2] == es[|es| - 1];
      StreamOfEven(es[1..], size);
      assert (|es| - 1) * size == (|es| - 2) * size + size;
    }
  }

  /** Where in its page a payload of such a transfer begins. */
  lemma {:induction false} SurvivesAt(cnt: nat, es: seq<Arrival>, k: nat, size: nat)
    requires cnt < PAGE_SIZE && k < |es| && Even(es, k, size) && AllSurvive(cnt, es)
    ensures Survives(Filled(cnt, k * size), es[k].packet.data)
    decreases k
  {
    hide Survives, Filled;
    FilledSum(cnt, size, k);
    if k > 0 {
      SurvivesAt(Filled(cnt, size), es[1..], k - 1, size);
    }
  }

  lemma FilledSum(cnt: nat, size: nat, k: nat)
    requires cnt < PAGE_SIZE
    ensures k == 0 ==> Filled(cnt, k * size) == cnt
    ensures k > 0 ==> Filled(Filled(cnt, size), (k - 1) * size) == Filled(cnt, k * size)
  {
    if k > 0 {
      assert k * size == size + (k - 1) * size;
      FilledTwice(cnt, size, (k - 1) * size);
    }
  }

  lemma FilledTwice(cnt: nat, a: nat, b: nat)
    ensures Filled(Filled(cnt, a), b) == Filled(cnt, a + b)
  {
  }

  /** Payloads of 31 bytes: the ninth straddles the first page, and the flash does not hold the
      stream unless the payload's 23 last bytes are its 23 first ones. */
  lemma StraddlingPayloadIsLost(s: Session, c: Chip, data: seq<byte>)
    requires s.Ok() && Image(c.mem) && Instant(c) && |data| == 31 && data[..23] != data[8..]
    ensures var es := Nine(data);
      Transfer(s, c, es) && !Stored(Receive(s, c, es).1.mem, Stream(es), |Stream(es)|)
  {
    var es := Nine(data);
    InstantPaces(s, c, es);
    assert Even(es, 9, 31);
    StreamOfEven(es, 31);
    assert Ending(es[1..]);
    hide Paced, Stored, Receive, Stream, Landed;
    TransferIsStoredIff(s, c, es);
    assert !Survives(248, data) && Filled(0, 8 * 31) == 248;
    if AllSurvive(0, es) {
      SurvivesAt(0, es, 8, 31);
    }
  }

  /** There is such a transfer: a new session, a blank chip, a payload that begins with a 1. */
  lemma SomeTransferIsLost() returns (s: Session, c: Chip, es: seq<Arrival>)
    ensures Transfer(s, c, es) && !Stored(Receive(s, c, es).1.mem, Stream(es), |Stream(es)|)
  {
    s := Session(0, 0, 0, seq(PAGE_SIZE, _ => 0), 0);
    c := Chip(seq(CHIP_SIZE, _ => 0xFF), false, 0, [], 0, _ => 0);
    var data: seq<byte> := seq(31, i => if i == 0 then 1 else 0);
    assert data[..23][0] == 1 && data[8..][0] == 0;
    StraddlingPayloadIsLost(s, c, data);
    es := Nine(data);
    hide Transfer, Stored, Receive;
  }

  lemma FreshSession(s: Session, mem: seq<byte>)
    requires s.Ok() && Image(mem)
    ensures Consistent(Begin(s, 0), mem, []) && Begin(s, 0).pageCnt == 0
  {
    assert SectorEnd(0) == 0;
  }

  lemma SamePacket(s: Session, c: Chip, p: Packet)
    requires s.Ok() && |p.data| <= PAYLOAD_MAX && p.portion == 0
    ensures HandlePacket(s, c, p) == HandlePacket(Begin(s, 0), c, Packet(1, p.data))
  {
    hide Flush, Fill, Spill, Account;
  }

  lemma OkOf(s: Session, mem: seq<byte>, d: seq<byte>)
    requires Consistent(s, mem, d)
    ensures s.Ok() && Begin(s, 1) == s && s.pageCnt < PAGE_SIZE
  {
  }

  // ---------------------------------------------------------------- the command in place

  /** The command's global variables and the flash behind them. */
  class Programmer {
    var flashPage: nat
    var flashPageDataCnt: nat
    var flashDataCounterToCopy: nat
    var fpgaByte: u32
    const flashPageData: array<byte>
    const bus: FlashBus

    ghost function View(): Session
      reads this, flashPageData
    {
      Session(flashPage, flashPageDataCnt, flashDataCounterToCopy, flashPageData[..], fpgaByte)
    }

    ghost predicate Valid()
      reads this, flashPageData, bus
    {
      View().Ok() && bus.Released()
    }

    constructor (chip: Chip)
      requires chip.frame == []
      ensures Valid() && fresh(flashPageData) && fresh(bus) && bus.wire.state == chip
      ensures flashPage == flashPageDataCnt == flashDataCounterToCopy == 0 && fpgaByte == 0
    {
      flashPage, flashPageDataCnt, flashDataCounterToCopy, fpgaByte := 0, 0, 0, 0;
      flashPageData := new byte[PAGE_SIZE];
      bus := new FlashBus(chip);
    }

    /** memcpy into the page buffer */
    method CopyIn(at: nat, data: seq<byte>)
      requires at + |data| <= flashPageData.Length
      modifies flashPageData
      ensures flashPageData[..] == Overwrite(old(flashPageData[..]), at, data)
    {
      ghost var before := flashPageData[..];
      forall i | 0 <= i < |data| {
        flashPageData[at + i] := data[i];
      }
      assert flashPageData[..] == before[..at] + data + before[at + |data|..];
    }

    /** Fills the page buffer from the payload. */
    method FillPage(data: seq<byte>)
      requires Valid()
      modifies this, flashPageData
      ensures Valid() && View() == Fill(old(View()), data)
    {
      hide Overwrite;
      var flashDataCntFree := PAGE_SIZE - flashPageDataCnt;
      if flashDataCntFree > 0 {
        if flashDataCntFree > |data| {
          flashDataCounterToCopy := |data|;
        } else {
          flashDataCounterToCopy := flashDataCntFree;
        }
        CopyIn(flashPageDataCnt, data[..flashDataCounterToCopy]);
        flashPageDataCnt := flashPageDataCnt + flashDataCounterToCopy;
        if |data| == 0 && flashPageDataCnt > 0 {
          flashPageDataCnt := PAGE_SIZE;
        }
      }
    }

    /** Erases the sector if need be and programs the page; 0 is success. */
    method WritePageOut() returns (status: nat)
      requires Valid() && flashPageDataCnt >= PAGE_SIZE && flashPage < TWO_32
      modifies bus, flashPageData
      ensures Valid() && flashPageData[..] == old(flashPageData[..])
      ensures var (_, c, st) := Flush(old(View()), old(bus.wire.state)); bus.wire.state == c && status == st
    {
      hide WritePages, EraseOutcome;
      status := 0;
      if flashPage % PAGES_PER_SECTOR == 0 {
        status := bus.EraseSector(true, flashPage / PAGES_PER_SECTOR % 256);
      }
      assert flashPageData[..PAGE_SIZE] == flashPageData[..];
      var written := bus.Transfer(flashPage, PAGE_SIZE, flashPageData, false);
      status := status + written;
    }

    /** CMD_ALTERA_FPGA_GW_WR in flash mode. */
    method Handle(portion: nat, data: seq<byte>) returns (reply: Reply)
      requires Valid() && |data| <= PAYLOAD_MAX && flashPage < TWO_32
      modifies this, flashPageData, bus
      ensures Valid()
      ensures (View(), bus.wire.state, reply) == HandlePacket(old(View()), old(bus.wire.state), Packet(portion, data))
    {
      hide Flush, Overwrite, Config;
      if portion == 0 {
        flashPage, flashPageDataCnt, flashDataCounterToCopy, fpgaByte := 0, 0, 0, 0;
      }
      ghost var b := View();
      FillPage(data);
      ghost var f := View();
      SpillFits(b, data);
      FlushOutcome(f, bus.wire.state);
      if flashPageDataCnt >= PAGE_SIZE {
        var status := WritePageOut();
        if status != 0 {
          return Error;
        }
        flashPage := flashPage + 1;
        flashPageDataCnt := 0;
      }
      reply := Finish(data);
    }

    /** Copies the left-over bytes. */
    method SpillOver(data: seq<byte>)
      requires Valid() && (|data| > flashDataCounterToCopy ==> flashPageDataCnt + |data| <= PAGE_SIZE)
      modifies this, flashPageData
      ensures Valid() && View() == Spill(old(View()), data)
    {
      hide Overwrite;
      if |data| > flashDataCounterToCopy {
        flashDataCounterToCopy := |data| - flashDataCounterToCopy;
        CopyIn(flashPageDataCnt, data);
        flashPageDataCnt := flashPageDataCnt + flashDataCounterToCopy;
      }
    }

    /** The end of the command: the left-over bytes and the size check. */
    method Finish(data: seq<byte>) returns (reply: Reply)
      requires Valid() && (|data| > flashDataCounterToCopy ==> flashPageDataCnt + |data| <= PAGE_SIZE)
      modifies this, flashPageData
      ensures Valid() && (View(), reply) == Account(Spill(old(View()), data), data)
    {
      hide Overwrite, Spill;
      SpillOver(data);
      fpgaByte := Wrap(fpgaByte + |data|);
      if fpgaByte <= FPGA_SIZE {
        if |data| == 0 {
          CopyIn(0, Config(fpgaByte));
        }
        reply := Completed;
      } else {
        reply := Error;
      }
    }
  }
}
