/**
 A serial NOR flash chip as the firmware meets it: the controller sends bytes least significant
 bit first, so the chip sees every byte mirrored.  How long a program or erase operation keeps
 the chip busy is arbitrary (`latency`), counted in frames on the bus.
 */
module FlashChip {
  import opened Arithmetic
  import opened Bytes
  import opened Spi

  const PAGE_SIZE: nat := 0x100
  const SECTOR_SIZE: nat := 0x10000
  const CHIP_SIZE: nat := 0x100_0000  // the reach of a 24-bit address

  // the commands as the firmware writes them, mirrored
  const CMD_SECTOR_ERASE: byte := 0x1B
  const CMD_PAGE_WRITE: byte := 0x40
  const CMD_PAGE_WRITEEN: byte := 0x60
  const CMD_PAGE_READ: byte := 0xC0
  const CMD_PAGE_READST: byte := 0xA0

  // ---------------------------------------------------------------- bit order

  function ReverseBitOrder(data: byte): byte {
    var r1 := ((data >> 1) & 0x55) | ((data << 1) & 0xaa);
    var r2 := ((r1 >> 2) & 0x33) | ((r1 << 2) & 0xcc);
    ((r2 >> 4) & 0x0f) | ((r2 << 4) & 0xf0)
  }

  lemma ReverseTwice(b: byte)
    ensures ReverseBitOrder(ReverseBitOrder(b)) == b
  {
    var r := ReverseBitOrder(b);
    assert r == ((b & 0x01) << 7) | ((b & 0x02) << 5) | ((b & 0x04) << 3) | ((b & 0x08) << 1) |
                ((b & 0x10) >> 1) | ((b & 0x20) >> 3) | ((b & 0x40) >> 5) | ((b & 0x80) >> 7);
  }

  /** Every bit moves to the mirrored place. */
  lemma ReverseMirrors(b: byte)
    ensures var r := ReverseBitOrder(b);
      && r & 0x01 == b >> 7 && (r >> 1) & 0x01 == (b >> 6) & 0x01 && (r >> 2) & 0x01 == (b >> 5) & 0x01
      && (r >> 3) & 0x01 == (b >> 4) & 0x01 && (r >> 4) & 0x01 == (b >> 3) & 0x01 && (r >> 5) & 0x01 == (b >> 2) & 0x01
      && (r >> 6) & 0x01 == (b >> 1) & 0x01 && r >> 7 == b & 0x01
  {
  }

  lemma ReverseOnes()
    ensures ReverseBitOrder(0xFF) == 0xFF
  {
  }

  function Mirror(s: seq<byte>): (r: seq<byte>)
    ensures |r| == |s|
    ensures forall i :: 0 <= i < |s| ==> r[i] == ReverseBitOrder(s[i])
  {
    seq(|s|, i requires 0 <= i < |s| => ReverseBitOrder(s[i]))
  }

  // ---------------------------------------------------------------- addresses

  function Pack(b7: bool, b6: bool, b5: bool, b4: bool, b3: bool, b2: bool, b1: bool, b0: bool): byte {
    (if b7 then 0x80 else 0) | (if b6 then 0x40 else 0) | (if b5 then 0x20 else 0) | (if b4 then 0x10 else 0) |
    (if b3 then 0x08 else 0) | (if b2 then 0x04 else 0) | (if b1 then 0x02 else 0) | (if b0 then 0x01 else 0)
  }

  predicate Bit(x: nat, weight: nat)
    requires weight > 0
  {
    x / weight % 2 == 1
  }

  /** `x & 0xFF` as a byte on the wire. */
  function ByteOf(x: nat): byte {
    Pack(Bit(x, 128), Bit(x, 64), Bit(x, 32), Bit(x, 16), Bit(x, 8), Bit(x, 4), Bit(x, 2), Bit(x, 1))
  }

  function Weight(on: bool, weight: nat): nat {
    if on then weight else 0
  }

  /** The number a byte stands for. */
  function Value(b: byte): nat {
    Weight(b & 0x80 != 0, 128) + Weight(b & 0x40 != 0, 64) + Weight(b & 0x20 != 0, 32) + Weight(b & 0x10 != 0, 16) +
    Weight(b & 0x08 != 0, 8) + Weight(b & 0x04 != 0, 4) + Weight(b & 0x02 != 0, 2) + Weight(b & 0x01 != 0, 1)
  }

  lemma PackedBits(b7: bool, b6: bool, b5: bool, b4: bool, b3: bool, b2: bool, b1: bool, b0: bool)
    ensures var b := Pack(b7, b6, b5, b4, b3, b2, b1, b0);
      && (b & 0x80 != 0) == b7 && (b & 0x40 != 0) == b6 && (b & 0x20 != 0) == b5 && (b & 0x10 != 0) == b4
      && (b & 0x08 != 0) == b3 && (b & 0x04 != 0) == b2 && (b & 0x02 != 0) == b1 && (b & 0x01 != 0) == b0
  {
  }

  lemma ValueOfPack(b7: bool, b6: bool, b5: bool, b4: bool, b3: bool, b2: bool, b1: bool, b0: bool)
    ensures Value(Pack(b7, b6, b5, b4, b3, b2, b1, b0)) ==
            Weight(b7, 128) + Weight(b6, 64) + Weight(b5, 32) + Weight(b4, 16) +
            Weight(b3, 8) + Weight(b2, 4) + Weight(b1, 2) + Weight(b0, 1)
  {
    hide Pack;
    PackedBits(b7, b6, b5, b4, b3, b2, b1, b0);
  }

  lemma WeightOfBit(x: nat, weight: nat)
    requires weight > 0
    ensures Weight(Bit(x, weight), weight) == x / weight % 2 * weight
  {
    var b := x / weight % 2;
    assert b == 0 || b == 1;
  }

  lemma ValueOfByte(x: nat)
    ensures Value(ByteOf(x)) == x % 256
  {
    hide Pack, Value, Bit, Weight;
    ValueOfPack(Bit(x, 128), Bit(x, 64), Bit(x, 32), Bit(x, 16), Bit(x, 8), Bit(x, 4), Bit(x, 2), Bit(x, 1));
    WeightOfBit(x, 128);
    WeightOfBit(x, 64);
    WeightOfBit(x, 32);
    WeightOfBit(x, 16);
    WeightOfBit(x, 8);
    WeightOfBit(x, 4);
    WeightOfBit(x, 2);
    WeightOfBit(x, 1);
    BitsOfByte(x);
  }

  lemma BitsOfByte(x: nat)
    ensures x % 256 == x / 128 % 2 * 128 + x / 64 % 2 * 64 + x / 32 % 2 * 32 + x / 16 % 2 * 16 +
                       x / 8 % 2 * 8 + x / 4 % 2 * 4 + x / 2 % 2 * 2 + x / 1 % 2 * 1
  {
    Nested(x, 128, 2);
    Nested(x, 64, 2);
    Nested(x, 32, 2);
    Nested(x, 16, 2);
    Nested(x, 8, 2);
    Nested(x, 4, 2);
    Nested(x, 2, 2);
  }

  /** The three address bytes of a frame, most significant first. */
  function Address(high: byte, middle: byte, low: byte): nat {
    Value(high) * 0x10000 + Value(middle) * 0x100 + Value(low)
  }

  /** Splitting an address into bytes and putting it together keeps its low 24 bits. */
  lemma AddressRoundTrip(a: nat)
    ensures Address(ByteOf(a / 0x10000), ByteOf(a / 0x100), ByteOf(a)) == a % CHIP_SIZE
  {
    ValueOfByte(a / 0x10000);
    ValueOfByte(a / 0x100);
    ValueOfByte(a);
    hide ByteOf, Value;
    Nested(a, 0x100, 0x100);
    Nested(a, 0x10000, 0x100);
  }

  // ---------------------------------------------------------------- the memory array

  predicate Image(mem: seq<byte>) {
    |mem| == CHIP_SIZE
  }

  /** Page program: bits can only be cleared, and the address wraps within the page. */
  function Program(mem: seq<byte>, address: nat, data: seq<byte>): (r: seq<byte>)
    ensures |r| == |mem|
  {
    seq(|mem|, i requires 0 <= i < |mem| =>
      var k := (i - address) % PAGE_SIZE;
      if i / PAGE_SIZE == address / PAGE_SIZE && k < |data| then mem[i] & data[k] else mem[i])
  }

  /** Sector erase: all bits of the sector that holds `address` are set. */
  function Erase(mem: seq<byte>, address: nat): (r: seq<byte>)
    ensures |r| == |mem|
  {
    seq(|mem|, i requires 0 <= i < |mem| => if i / SECTOR_SIZE == address / SECTOR_SIZE then 0xFF else mem[i])
  }

  // ---------------------------------------------------------------- the chip

  /** `wel` is the write-enable latch, `busy` how many more frames the operation in progress takes,
      `frame` the bytes of the frame in progress, and the `ops`-th operation takes `latency(ops)`. */
  datatype Chip = Chip(mem: seq<byte>, wel: bool, busy: nat, frame: seq<byte>, ops: nat, latency: nat -> nat)

  function StatusRegister(c: Chip): byte {
    (if c.busy > 0 then 1 else 0) | (if c.wel then 2 else 0)
  }

  /** A frame's worth of time passes; completing the operation resets the latch. */
  function Elapse(c: Chip): Chip {
    if c.busy == 0 then c
    else if c.busy == 1 then c.(busy := 0, wel := false)
    else c.(busy := c.busy - 1)
  }

  function Operate(c: Chip, mem: seq<byte>): Chip {
    var busy := c.latency(c.ops);
    c.(mem := mem, busy := busy, wel := busy > 0, ops := c.ops + 1)
  }

  /** What a complete frame does.  A busy chip ignores everything. */
  function Execute(c: Chip, frame: seq<byte>): Chip {
    if c.busy > 0 then Elapse(c)
    else if frame == [0x06] then c.(wel := true)
    else if |frame| > 4 && frame[0] == 0x02 && c.wel then
      Operate(c, Program(c.mem, Address(frame[1], frame[2], frame[3]), frame[4..]))
    else if |frame| == 4 && frame[0] == 0xD8 && c.wel then
      Operate(c, Erase(c.mem, Address(frame[1], frame[2], frame[3])))
    else c
  }

  /** What the chip shifts out while it receives the byte after `frame`. */
  function Reply(c: Chip, frame: seq<byte>): byte {
    if frame == [] then 0xFF
    else if frame[0] == 0x05 then StatusRegister(c)
    else if frame[0] == 0x03 && |frame| >= 4 && c.busy == 0 && Image(c.mem) then
      c.mem[(Address(frame[1], frame[2], frame[3]) + |frame| - 4) % CHIP_SIZE]
    else 0xFF
  }

  function Select(c: Chip): Chip {
    c.(frame := [])
  }

  function Shift(c: Chip, b: byte): (Chip, byte) {
    (c.(frame := c.frame + [ReverseBitOrder(b)]), ReverseBitOrder(Reply(c, c.frame)))
  }

  function Deselect(c: Chip): Chip {
    Execute(c, c.frame).(frame := [])
  }

  const CHIP: Slave<Chip> := Slave(Select, Shift, Deselect)

  // ---------------------------------------------------------------- commands as frames

  lemma FrameGrows(frame: seq<byte>, bytes: seq<byte>)
    requires bytes != []
    ensures var n := |bytes| - 1;
      (frame + Mirror(bytes[..n])) + [ReverseBitOrder(bytes[n])] == frame + Mirror(bytes)
  {
    hide ReverseBitOrder;
  }

  lemma {:induction false} ShiftAll(c: Chip, bytes: seq<byte>)
    ensures var (w, replies) := ExchangeAll(CHIP, Wire(c, true), bytes);
      && w == Wire(c.(frame := c.frame + Mirror(bytes)), true)
      && forall i :: 0 <= i < |bytes| ==> replies[i] == ReverseBitOrder(Reply(c, c.frame + Mirror(bytes[..i])))
    decreases |bytes|
  {
    hide Reply, ReverseBitOrder, Exchange;
    if bytes == [] {
      assert c.frame + Mirror(bytes) == c.frame;
    } else {
      var n := |bytes| - 1;
      ShiftAll(c, bytes[..n]);
      var so := c.frame + Mirror(bytes[..n]);
      var (w, replies) := ExchangeAll(CHIP, Wire(c, true), bytes[..n]);
      ShiftOne(c.(frame := so), bytes[n]);
      FrameGrows(c.frame, bytes);
      forall i | 0 <= i < n
        ensures replies[i] == ReverseBitOrder(Reply(c, c.frame + Mirror(bytes[..i])))
      {
        assert bytes[..n][..i] == bytes[..i];
      }
      ReplyIgnoresFrameField(c, so, so);
    }
  }

  lemma ShiftOne(c: Chip, b: byte)
    ensures Exchange(CHIP, Wire(c, true), b) ==
            (Wire(c.(frame := c.frame + [ReverseBitOrder(b)]), true), ReverseBitOrder(Reply(c, c.frame)))
  {
    hide Reply, ReverseBitOrder;
    assert CHIP.shift(c, b) == Shift(c, b);
  }

  /** The frame being received does not influence the replies other than by its bytes. */
  lemma ReplyIgnoresFrameField(c: Chip, field: seq<byte>, frame: seq<byte>)
    ensures Reply(c.(frame := field), frame) == Reply(c, frame)
  {
  }

  /** A command on a released bus selects the chip, and releases it unless it is to be merged. */
  lemma CommandSelects(c: Chip, writeData: seq<byte>, readLength: nat, merge: bool)
    ensures var (v, replies) := ExchangeAll(CHIP, Wire(Select(c), true), Outgoing(writeData, readLength));
      Transfer(CHIP, Wire(c, false), writeData, readLength, false, merge) ==
      (if merge then v else Wire(Deselect(v.state), false), replies[|writeData|..])
  {
    hide ExchangeAll, Outgoing, Execute, Deselect;
    assert CHIP.select(c) == Select(c);
    var v := ExchangeAll(CHIP, Wire(Select(c), true), Outgoing(writeData, readLength)).0;
    assert CHIP.deselect(v.state) == Deselect(v.state);
  }

  /** A command on a released bus: the chip executes the mirrored bytes as one frame. */
  lemma CommandIsFrame(c: Chip, writeData: seq<byte>, readLength: nat)
    ensures var (w, data) := Transfer(CHIP, Wire(c, false), writeData, readLength, false, false);
      var all := Outgoing(writeData, readLength);
      && w == Wire(Execute(c, Mirror(all)).(frame := []), false)
      && |data| == readLength
      && forall k :: 0 <= k < readLength ==> data[k] == ReverseBitOrder(Reply(c, Mirror(all[..|writeData| + k])))
  {
    hide Execute, Reply, ReverseBitOrder, Transfer, ExchangeAll, Mirror;
    var all := Outgoing(writeData, readLength);
    var s := Select(c);
    CommandSelects(c, writeData, readLength, false);
    ShiftAll(s, all);
    assert [] + Mirror(all) == Mirror(all);
    ExecuteIgnoresFrameField(c, Mirror(all), Mirror(all));
    var replies := ExchangeAll(CHIP, Wire(s, true), all).1;
    forall k | 0 <= k < readLength
      ensures replies[|writeData|..][k] == ReverseBitOrder(Reply(c, Mirror(all[..|writeData| + k])))
    {
      var so := Mirror(all[..|writeData| + k]);
      assert [] + so == so;
      ReplyIgnoresFrameField(c, [], so);
    }
  }

  lemma ExecuteIgnoresFrameField(c: Chip, field: seq<byte>, frame: seq<byte>)
    ensures Execute(c.(frame := field), frame).(frame := []) == Execute(c, frame).(frame := [])
  {
  }

  /** Two commands, the first of which keeps the chip select: one frame. */
  lemma MergedCommandsAreOneFrame(c: Chip, first: seq<byte>, second: seq<byte>)
    ensures var (v, _) := Transfer(CHIP, Wire(c, false), first, 0, false, true);
      var (w, _) := Transfer(CHIP, v, second, 0, false, false);
      w == Wire(Execute(c, Mirror(first + second)).(frame := []), false)
  {
    hide Execute, Reply, ReverseBitOrder, ExchangeAll;
    var s := Select(c);
    assert Outgoing(first, 0) == first && Outgoing(second, 0) == second;
    CommandSelects(c, first, 0, true);
    ShiftAll(s, first);
    assert [] + Mirror(first) == Mirror(first);
    var held := s.(frame := Mirror(first));
    ShiftAll(held, second);
    assert Mirror(first) + Mirror(second) == Mirror(first + second);
    ExecuteIgnoresFrameField(c, Mirror(first + second), Mirror(first + second));
    CommandReleases(held, second);
  }

  /** A command on a bus that is still selected continues the frame and releases the chip. */
  lemma CommandReleases(c: Chip, writeData: seq<byte>)
    ensures Transfer(CHIP, Wire(c, true), writeData, 0, false, false) ==
            (Wire(Deselect(ExchangeAll(CHIP, Wire(c, true), writeData).0.state), false), [])
  {
    assert Outgoing(writeData, 0) == writeData;
    hide ExchangeAll, Execute, Deselect;
    var (v, replies) := ExchangeAll(CHIP, Wire(c, true), writeData);
    assert replies[|writeData|..] == [];
    assert CHIP.deselect(v.state) == Deselect(v.state);
  }
}
