/**
 What the gateware-write command reports: exactly the packets whose page has not been written, or that
 exceed the size, get an error; such a packet can be sent again.
 */
module GatewareReplies {
  import opened Arithmetic
  import opened Bytes
  import opened FlashChip
  import opened FlashLib
  import opened Gateware

  /** The erasure is over before the polls run out. A busy chip ignores it; two frames pass before the
      first poll. */
  predicate ErasedInTime(c: Chip) {
    if c.busy == 0 then c.latency(c.ops) < STATUS_RETRIES_ERASE else c.busy < STATUS_RETRIES_ERASE + 2
  }

  /** The flash calls for page `number` succeed. */
  predicate InTime(c: Chip, number: nat) {
    if number % PAGES_PER_SECTOR == 0 then ErasedInTime(c) else (c.busy + 1) / 2 < STATUS_RETRIES
  }

  /** The array when the page is programmed: a sector's first page finds it erased, if the chip was
      idle. */
  function Base(c: Chip, number: nat): seq<byte> {
    if number % PAGES_PER_SECTOR == 0 && c.busy == 0 then Erase(c.mem, number * PAGE_SIZE) else c.mem
  }

  /** The payload fills the page that has been started, or ends the transfer with one. */
  predicate Completes(cnt: nat, data: seq<byte>) {
    if data == [] then cnt > 0 else cnt + |data| >= PAGE_SIZE
  }

  /** The page that goes out. */
  function Full(page: seq<byte>, cnt: nat, data: seq<byte>): seq<byte>
    requires |page| == PAGE_SIZE && cnt < PAGE_SIZE && Completes(cnt, data)
  {
    if data == [] then page else page[..cnt] + data[..PAGE_SIZE - cnt]
  }

  // ---------------------------------------------------------------- the flash calls

  lemma EraseStatus(c: Chip, sector: nat)
    ensures var (d, status) := EraseOutcome(c, true, sector);
      && (status == 0 <==> ErasedInTime(c)) && (status == 0 ==> d.busy == 0)
      && d.mem == (if c.busy == 0 then Erase(c.mem, sector * SECTOR_SIZE % CHIP_SIZE) else c.mem)
  {
    EraseNeedsIdleChip(c, sector);
    hide Erase;
    var e := WriteEnabled(c);
    AwaitErasedOutcome(Erased(e, sector * SECTOR_SIZE % CHIP_SIZE), 0);
  }

  lemma OnePage(c: Chip, start: nat, page: seq<byte>)
    requires |page| == PAGE_SIZE && start % PAGE_SIZE == 0 && start + PAGE_SIZE <= CHIP_SIZE
    ensures var (d, status) := WritePages(c, start, page, 1);
      && (status == 0 <==> (c.busy + 1) / 2 < STATUS_RETRIES)
      && (status == 0 ==> Holds(c.mem, d.mem, start, page)) && (status != 0 ==> d.mem == c.mem)
  {
    hide Program, Wait, Holds, WritePages, WritePage, Operate;
    WritePagesOfOne(c, start, page);
    WritePageOutcome(c, start, page);
    SmallAddress(start);
    ProgramHolds(c.mem, start, page);
    OperateStores(c.(busy := 0, wel := true), Program(c.mem, start, Mirror(page)));
  }

  lemma SmallAddress(start: nat)
    requires start < CHIP_SIZE
    ensures start % CHIP_SIZE == start
  {
  }

  lemma OperateStores(c: Chip, mem: seq<byte>)
    ensures Operate(c, mem).mem == mem
  {
  }

  lemma WritePagesOfOne(c: Chip, start: u32, page: seq<byte>)
    requires |page| == PAGE_SIZE
    ensures WritePages(c, start, page, 1) == WritePage(c, start, page)
  {
    hide WritePage, Wrap;
    assert page[..PAGE_SIZE] == page;
  }

  lemma SectorOf(number: nat)
    requires (number + 1) * PAGE_SIZE <= CHIP_SIZE && number % PAGES_PER_SECTOR == 0
    ensures number / PAGES_PER_SECTOR % 256 * SECTOR_SIZE % CHIP_SIZE == number * PAGE_SIZE
  {
  }

  lemma SectorErased(c: Chip, number: nat)
    requires (number + 1) * PAGE_SIZE <= CHIP_SIZE && number % PAGES_PER_SECTOR == 0
    ensures var (d, status) := EraseOutcome(c, true, number / PAGES_PER_SECTOR % 256);
      (status == 0 <==> InTime(c, number)) && (status == 0 ==> d.busy == 0) && d.mem == Base(c, number)
  {
    SectorOf(number);
    hide EraseOutcome, Erase;
    EraseStatus(c, number / PAGES_PER_SECTOR % 256);
  }

  /** The first of the two calls for a full page. */
  function Prepared(c: Chip, number: nat): (Chip, nat) {
    if number % PAGES_PER_SECTOR == 0 then EraseOutcome(c, true, number / PAGES_PER_SECTOR % 256) else (c, 0)
  }

  /** The statuses of the two calls are added up. */
  lemma PageCalls(c: Chip, number: nat, page: seq<byte>)
    requires |page| == PAGE_SIZE && (number + 1) * PAGE_SIZE <= CHIP_SIZE
    ensures var e := Prepared(c, number); var w := WritePages(e.0, number * PAGE_SIZE, page, 1);
      && (e.1 + w.1 == 0 <==> InTime(c, number))
      && (e.1 + w.1 == 0 ==> Holds(Base(c, number), w.0.mem, number * PAGE_SIZE, page))
      && (e.1 + w.1 != 0 && number % PAGES_PER_SECTOR != 0 ==> w.0.mem == c.mem)
  {
    hide WritePages, EraseOutcome, Holds, Erase;
    var e := Prepared(c, number);
    OnePage(e.0, number * PAGE_SIZE, page);
    if number % PAGES_PER_SECTOR == 0 {
      SectorErased(c, number);
    }
  }

  lemma PageWritten(f: Session, c: Chip)
    requires f.Ok() && f.pageCnt == PAGE_SIZE && (f.flashPage + 1) * PAGE_SIZE <= CHIP_SIZE
    ensures var (t, d, status) := Flush(f, c);
      && (status == 0 <==> InTime(c, f.flashPage))
      && (status == 0 ==> t == f.(flashPage := f.flashPage + 1, pageCnt := 0))
      && (status == 0 ==> Holds(Base(c, f.flashPage), d.mem, f.flashPage * PAGE_SIZE, f.page))
      && (status != 0 ==> t == f)
      && (status != 0 && f.flashPage % PAGES_PER_SECTOR != 0 ==> d.mem == c.mem)
  {
    PageAddress(f.flashPage);
    PageCalls(c, f.flashPage, f.page);
    hide WritePages, EraseOutcome, Wrap, Holds, InTime, Base;
  }

  // ---------------------------------------------------------------- the reply

  /** What a packet leaves behind if its page goes out: a new page, with the bytes that were left. */
  predicate NextPage(s: Session, t: Session, data: seq<byte>)
    requires s.Ok() && s.pageCnt < PAGE_SIZE
  {
    && t.flashPage == s.flashPage + 1 && t.fpgaByte == Wrap(s.fpgaByte + |data|)
    && t.pageCnt == if data == [] then 0 else s.pageCnt + |data| - PAGE_SIZE
  }

  /** What it leaves behind if not: the full page, still to be written. */
  predicate PageKept(s: Session, t: Session, full: seq<byte>) {
    t.flashPage == s.flashPage && t.pageCnt == PAGE_SIZE && t.page == full && t.fpgaByte == s.fpgaByte
  }

  lemma FilledUp(s: Session, data: seq<byte>)
    requires s.Ok() && s.pageCnt < PAGE_SIZE && |data| <= PAYLOAD_MAX && Completes(s.pageCnt, data)
    ensures var f := Fill(s, data);
      && f.Ok() && PageKept(s, f, Full(s.page, s.pageCnt, data))
      && f.toCopy == if data == [] then 0 else PAGE_SIZE - s.pageCnt
  {
    if data == [] {
      assert s.page[..s.pageCnt] + [] + s.page[s.pageCnt..] == s.page;
    } else {
      assert s.page[PAGE_SIZE..] == [];
    }
  }

  /** A packet that completes a page is answered with an error if and only if a flash call of the page
      runs out of retries or the size is exceeded. If and only if the calls succeed the page counts as
      written, and then it has really been programmed. */
  lemma PageReply(s: Session, c: Chip, p: Packet)
    requires s.Ok() && s.pageCnt < PAGE_SIZE && p.portion != 0 && |p.data| <= PAYLOAD_MAX
    requires Completes(s.pageCnt, p.data) && (s.flashPage + 1) * PAGE_SIZE <= CHIP_SIZE
    ensures var (t, d, reply) := HandlePacket(s, c, p);
      var full := Full(s.page, s.pageCnt, p.data);
      && (reply == Error <==> !InTime(c, s.flashPage) || Wrap(s.fpgaByte + |p.data|) > FPGA_SIZE)
      && (InTime(c, s.flashPage) ==> NextPage(s, t, p.data))
      && (InTime(c, s.flashPage) ==> Holds(Base(c, s.flashPage), d.mem, s.flashPage * PAGE_SIZE, full))
      && (!InTime(c, s.flashPage) ==> PageKept(s, t, full))
      && (!InTime(c, s.flashPage) && s.flashPage % PAGES_PER_SECTOR != 0 ==> d.mem == c.mem)
  {
    FilledUp(s, p.data);
    var f := Fill(s, p.data);
    PageWritten(f, c);
    BehindPage(s, c, p);
    hide Fill, Flush, Full, InTime, Base, Holds, HandlePacket, Wrap;
  }

  /** The command behind its flash calls. */
  lemma Stages(s: Session, c: Chip, p: Packet)
    requires s.Ok() && p.portion != 0 && |p.data| <= PAYLOAD_MAX
    ensures var u := Flush(Fill(s, p.data), c); var r := HandlePacket(s, c, p);
      && r.1 == u.1 && (u.2 != 0 ==> r.0 == u.0 && r.2 == Error)
      && (u.2 == 0 ==>
          && u.0.Ok() && (|p.data| > u.0.toCopy ==> u.0.pageCnt + |p.data| <= PAGE_SIZE)
          && (r.0, r.2) == Account(Spill(u.0, p.data), p.data))
  {
    SpillFits(s, p.data);
    FlushOutcome(Fill(s, p.data), c);
    hide Fill, Flush, Spill, Account;
  }

  lemma AccountOutcome(t: Session, data: seq<byte>)
    requires t.Ok()
    ensures var r := Account(t, data);
      && r.0.flashPage == t.flashPage && r.0.pageCnt == t.pageCnt && r.0.fpgaByte == Wrap(t.fpgaByte + |data|)
      && (r.1 == Error <==> r.0.fpgaByte > FPGA_SIZE) && (data != [] ==> r.0.page == t.page)
  {
    hide Config, Overwrite, Wrap;
  }

  /** The rest of the command, once the page is full. */
  lemma BehindPage(s: Session, c: Chip, p: Packet)
    requires s.Ok() && s.pageCnt < PAGE_SIZE && p.portion != 0 && |p.data| <= PAYLOAD_MAX
    requires Completes(s.pageCnt, p.data)
    ensures var f := Fill(s, p.data); var u := Flush(f, c); var r := HandlePacket(s, c, p);
      && r.1 == u.1
      && (u.2 != 0 ==> r.0 == f && r.2 == Error)
      && (u.2 == 0 ==> NextPage(s, r.0, p.data) && (r.2 == Error <==> Wrap(s.fpgaByte + |p.data|) > FPGA_SIZE))
  {
    hide Fill, Flush, Flushed, Spill, HandlePacket, Account, Wrap, NextPage;
    PageCounted(s, c, p.data);
    Stages(s, c, p);
    var u := Flush(Fill(s, p.data), c);
    if u.2 == 0 {
      SpilledOver(s, u.0, p.data);
      AccountOutcome(Spill(u.0, p.data), p.data);
      NextPageIs(s, HandlePacket(s, c, p).0, p.data);
    }
  }

  lemma NextPageIs(s: Session, t: Session, data: seq<byte>)
    requires s.Ok() && s.pageCnt < PAGE_SIZE
    requires t.flashPage == s.flashPage + 1 && t.fpgaByte == Wrap(s.fpgaByte + |data|)
    requires t.pageCnt == if data == [] then 0 else s.pageCnt + |data| - PAGE_SIZE
    ensures NextPage(s, t, data)
  {
  }

  lemma PageCounted(s: Session, c: Chip, data: seq<byte>)
    requires s.Ok() && s.pageCnt < PAGE_SIZE && |data| <= PAYLOAD_MAX && Completes(s.pageCnt, data)
    ensures var f := Fill(s, data); var u := Flush(f, c);
      && f.Ok() && (u.2 != 0 ==> u.0 == f)
      && (u.2 == 0 ==>
          && u.0.flashPage == s.flashPage + 1 && u.0.pageCnt == 0 && u.0.fpgaByte == s.fpgaByte
          && u.0.toCopy == if data == [] then 0 else PAGE_SIZE - s.pageCnt)
  {
    FilledUp(s, data);
    FlushOutcome(Fill(s, data), c);
    hide Fill, Flush, Full;
  }

  lemma SpilledOver(s: Session, t: Session, data: seq<byte>)
    requires s.Ok() && s.pageCnt < PAGE_SIZE && |data| <= PAYLOAD_MAX && Completes(s.pageCnt, data)
    requires t.Ok() && t.pageCnt == 0 && t.toCopy == if data == [] then 0 else PAGE_SIZE - s.pageCnt
    ensures var v := Spill(t, data);
      && v.Ok() && v.flashPage == t.flashPage && v.fpgaByte == t.fpgaByte
      && v.pageCnt == if data == [] then 0 else s.pageCnt + |data| - PAGE_SIZE
  {
    hide Overwrite;
  }

  /** A packet that completes no page does not touch the flash, and is answered with an error if and
      only if the size is exceeded. */
  lemma BufferedReply(s: Session, c: Chip, p: Packet)
    requires s.Ok() && s.pageCnt < PAGE_SIZE && p.portion != 0 && |p.data| <= PAYLOAD_MAX
    requires !Completes(s.pageCnt, p.data)
    ensures var (t, d, reply) := HandlePacket(s, c, p);
      && d == c && (reply == Error <==> Wrap(s.fpgaByte + |p.data|) > FPGA_SIZE)
      && t.flashPage == s.flashPage && t.pageCnt == s.pageCnt + |p.data|
      && t.fpgaByte == Wrap(s.fpgaByte + |p.data|)
      && (p.data != [] ==> t.page[..t.pageCnt] == s.page[..s.pageCnt] + p.data)
  {
    Stages(s, c, p);
    InPage(s, c, p.data);
    hide HandlePacket, Fill, Flush, Spill, Account, Wrap;
    var f := Fill(s, p.data);
    AccountOutcome(f, p.data);
  }

  lemma InPage(s: Session, c: Chip, data: seq<byte>)
    requires s.Ok() && s.pageCnt < PAGE_SIZE && |data| <= PAYLOAD_MAX && !Completes(s.pageCnt, data)
    ensures var f := Fill(s, data);
      && f.Ok() && Flush(f, c) == (f, c, 0) && (|data| > f.toCopy ==> f.pageCnt + |data| <= PAGE_SIZE)
      && Spill(f, data) == f && f.flashPage == s.flashPage && f.fpgaByte == s.fpgaByte
      && f.pageCnt == s.pageCnt + |data| && f.page[..f.pageCnt] == s.page[..s.pageCnt] + data
  {
    assert data[..|data|] == data;
    var u := Overwrite(s.page, s.pageCnt, data);
    assert u[..s.pageCnt + |data|] == s.page[..s.pageCnt] + data;
    hide Overwrite;
  }

  /** After an error of the flash the same packet can be sent again: it does then what it would have
      done in the first place. */
  lemma SentAgain(s: Session, c: Chip, d: Chip, p: Packet)
    requires s.Ok() && s.pageCnt < PAGE_SIZE && p.portion != 0 && |p.data| <= PAYLOAD_MAX
    requires Completes(s.pageCnt, p.data) && (s.flashPage + 1) * PAGE_SIZE <= CHIP_SIZE
    requires !InTime(c, s.flashPage)
    ensures var t := HandlePacket(s, c, p).0; t.Ok() && HandlePacket(t, d, p) == HandlePacket(s, d, p)
  {
    FilledUp(s, p.data);
    SpillFits(s, p.data);
    var f := Fill(s, p.data);
    PageWritten(f, c);
    SpillFits(f, p.data);
    assert Fill(f, p.data) == f;
    hide Fill, Flush, Spill, Account, InTime;
  }

  // ---------------------------------------------------------------- the size record

  /** The end packet puts the size, least significant byte first, and the autoload flag at the start of
      the page buffer, unless it reports an error. */
  lemma SizeRecorded(s: Session, c: Chip, p: Packet)
    requires s.Ok() && s.pageCnt < PAGE_SIZE && p.portion != 0 && p.data == []
    requires (s.flashPage + 1) * PAGE_SIZE <= CHIP_SIZE
    ensures var (t, _, reply) := HandlePacket(s, c, p);
      && t.Ok()
      && (reply == Completed ==>
          && Value(t.page[0]) + 0x100 * Value(t.page[1]) + 0x10000 * Value(t.page[2]) + 0x100_0000 * Value(t.page[3])
             == t.fpgaByte == s.fpgaByte
          && t.page[4] == 1 && t.page[5..] == s.page[5..])
      && (reply == Error ==> t.page == s.page)
  {
    EndPacket(s, c, p);
    SizeBytes(s.fpgaByte);
    RecordAtStart(s.page, Config(s.fpgaByte));
    hide HandlePacket, Value, Config, Overwrite;
  }

  lemma EndPacket(s: Session, c: Chip, p: Packet)
    requires s.Ok() && s.pageCnt < PAGE_SIZE && p.portion != 0 && p.data == []
    ensures var r := HandlePacket(s, c, p);
      && r.0.Ok() && r.0.fpgaByte == s.fpgaByte
      && r.0.page == if r.2 == Completed then Overwrite(s.page, 0, Config(s.fpgaByte)) else s.page
  {
    EmptyFill(s);
    var f := Fill(s, []);
    SpillFits(s, p.data);
    FlushOutcome(f, c);
    NothingAdded(s.fpgaByte);
    hide Fill, Config, Overwrite, Wrap;
    var u := Flush(f, c);
    assert u.2 == 0 ==> u.0.page == s.page && u.0.fpgaByte == s.fpgaByte;
    assert Spill(u.0, []) == u.0;
    hide Flush, Flushed, Spill;
  }

  lemma NothingAdded(x: u32)
    ensures Wrap(x + 0) == x
  {
  }

  lemma EmptyFill(s: Session)
    requires s.Ok() && s.pageCnt < PAGE_SIZE
    ensures var f := Fill(s, []); f.Ok() && f.page == s.page && f.fpgaByte == s.fpgaByte && f.toCopy == 0
  {
    assert s.page[..s.pageCnt] + [] + s.page[s.pageCnt..] == s.page;
  }

  lemma RecordAtStart(page: seq<byte>, record: seq<byte>)
    requires |record| == 5 <= |page|
    ensures var r := Overwrite(page, 0, record);
      |r| == |page| && r[0] == record[0] && r[1] == record[1] && r[2] == record[2] && r[3] == record[3] &&
      r[4] == record[4] && r[5..] == page[5..]
  {
  }

  lemma SizeBytes(size: u32)
    ensures var r := Config(size);
      && |r| == 5 && r[4] == 1
      && Value(r[0]) + 0x100 * Value(r[1]) + 0x10000 * Value(r[2]) + 0x100_0000 * Value(r[3]) == size
  {
    ValueOfByte(size);
    ValueOfByte(size / 0x100);
    ValueOfByte(size / 0x10000);
    ValueOfByte(size / 0x100_0000);
    hide Value, ByteOf;
    FourBytes(size);
  }

  lemma FourBytes(x: u32)
    ensures x % 256 + 0x100 * (x / 0x100 % 256) + 0x10000 * (x / 0x10000 % 256) + 0x100_0000 * (x / 0x100_0000 % 256)
            == x
  {
    Nested(x, 0x100, 0x100);
    Nested(x, 0x10000, 0x100);
    Nested(x, 0x100_0000, 0x100);
    TopByte(x);
  }

  lemma TopByte(x: u32)
    ensures x / 0x100_0000 % 256 == x / 0x100_0000 && x == x / 0x100_0000 * 0x100_0000 + x % 0x100_0000
  {
  }
}
