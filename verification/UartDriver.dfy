/**
 The driver's C functions, statement by statement, over a mutable state structure.

 `Preempt` stands between the statements and lets any number of interrupts run.  The ghost field
 `sys` goes through the step system alongside the code; `Valid()` says that some run from
 initialisation reaches it and that the fields are its driver state, so everything proved about
 runs holds of the object.
 */
module UartDriver {
  import opened Bytes
  import opened UartModel
  import opened UartProofs
  import opened UartReceive
  import opened UartTheorems

  datatype CloseResult = Closed | WouldBlock

  /** The service routine never lengthens the transmit ring. */
  lemma IrqNeverFills(u: Uart, input: IrqInput)
    requires u.Ok()
    ensures Irq(u, input).Ok() && |Irq(u, input).tx.Contents()| <= |u.tx.Contents()|
  {
    var v := if input.status.rrdy then RxIrq(u, input.status, input.rxData) else u;
    RxIrqKeepsTx(u, input.status, input.rxData);
    if Transmits(input) {
      TxIrqMoves(v, input.status, input.ctsAgain);
    }
  }

  /** One transmit interrupt takes a byte out of a ring that is not empty. */
  lemma TransmitFrees(u: Uart, input: IrqInput)
    requires u.Ok() && Sends(u.fc, input)
    ensures Irq(u, input).Ok()
    ensures !u.tx.Empty() ==> |Irq(u, input).tx.Contents()| == |u.tx.Contents()| - 1
    ensures u.tx.Full() ==> Irq(u, input).tx.start != u.tx.start
  {
    var v := if input.status.rrdy then RxIrq(u, input.status, input.rxData) else u;
    RxIrqKeepsTx(u, input.status, input.rxData);
    TxIrqMoves(v, input.status, input.ctsAgain);
    ContentsLength(u.tx);
    ContentsLength(Irq(u, input).tx);
  }

  class Driver {
    // the state structure and the device's control register
    var ctrl: Ctrl
    var deviceCtrl: Ctrl
    const flowControl: bool
    var rxStart: nat
    var rxEnd: nat
    var txStart: nat
    var txEnd: nat
    const rxBuf: array<byte>
    const txBuf: array<byte>

    // what has crossed the device's data registers
    ghost var sent: seq<byte>
    ghost var taken: seq<byte>

    // the state of the step system
    ghost var sys: System
    ghost var lossless: bool  // no receive interrupt has been taken with a full ring

    ghost function View(): Uart
      reads this, rxBuf, txBuf
    {
      Uart(ctrl, deviceCtrl, flowControl, Ring(rxBuf[..], rxStart, rxEnd), Ring(txBuf[..], txStart, txEnd), sent, taken)
    }

    ghost predicate Valid()
      reads this, rxBuf, txBuf
    {
      rxBuf != txBuf && sys.u.Ok() && sys.u == View() && Reachable(sys, lossless)
    }

    constructor (fc: bool)
      ensures Valid() && fresh(rxBuf) && fresh(txBuf) && flowControl == fc
      ensures lossless && Initial(sys)
    {
      flowControl := fc;
      rxStart, rxEnd, txStart, txEnd := 0, 0, 0, 0;
      rxBuf := new byte[BUF_LEN];
      txBuf := new byte[BUF_LEN];
      ctrl := Ctrl(true, false, true, true);
      deviceCtrl := Ctrl(true, false, true, true);
      sent, taken := [], [];
      new;
      lossless := true;
      sys := System(View(), Nobody, Writer(WIdle, [], false, 0, 0, false, []),
                      Reader(RIdle, 0, false, [], false, []), [], []);
      ReachableInitially(sys);
    }

    /** The step system executes `e`. */
    ghost method Step(e: Event)
      requires sys.u.Ok() && Reachable(sys, lossless) && Enabled(sys, e) && Apply(sys, e).u.Ok()
      modifies this`sys, this`lossless
      ensures sys == Apply(old(sys), e) && lossless == (old(lossless) && !Overflows(old(sys), e))
      ensures Reachable(sys, lossless)
    {
      ReachableNext(sys, e, lossless);
      lossless := lossless && !Overflows(sys, e);
      sys := Apply(sys, e);
    }

    // -------------------------------------------------------------- interrupt service routine

    method RxIrq(status: Status, rxData: byte)
      requires View().Ok() && rxBuf != txBuf
      modifies this`rxEnd, this`ctrl, this`deviceCtrl, this`taken, rxBuf
      ensures View() == UartModel.RxIrq(old(View()), status, rxData)
    {
      if status.pe || status.fe {
        return;
      }
      var next := Succ(rxEnd);
      rxBuf[rxEnd] := rxData;
      taken := taken + [rxData];
      rxEnd := next;
      next := Succ(rxEnd);
      if next == rxStart {
        ctrl := ctrl.(rrdy := false);
        deviceCtrl := ctrl;
      }
    }

    method TxIrq(status: Status, ctsAgain: bool)
      requires View().Ok() && rxBuf != txBuf
      modifies this`txStart, this`ctrl, this`deviceCtrl, this`sent
      ensures View() == UartModel.TxIrq(old(View()), status, ctsAgain)
    {
      if txStart != txEnd {
        if !flowControl || status.cts {
          sent := sent + [txBuf[txStart]];
          txStart := Succ(txStart);
          ctrl := ctrl.(trdy := true);
        } else if !ctsAgain {
          ctrl := ctrl.(trdy := false);
        }
      }
      if txStart == txEnd {
        ctrl := ctrl.(trdy := false, dcts := false);
      }
      deviceCtrl := ctrl;
    }

    method Irq(input: IrqInput)
      requires Valid() && sys.irqOff == Nobody
      modifies this`rxEnd, this`txStart, this`ctrl, this`deviceCtrl, this`taken, this`sent,
        this`sys, this`lossless, rxBuf
      ensures Valid() && sys == Apply(old(sys), Interrupt(input))
    {
      IrqKeepsOk(sys.u, input);
      RxIrqKeepsTx(sys.u, input.status, input.rxData);
      Step(Interrupt(input));
      if input.status.rrdy {
        RxIrq(input.status, input.rxData);
      }
      if input.status.trdy || input.status.dcts {
        TxIrq(input.status, input.ctsAgain);
      }
    }

    /** What interrupts leave alone. */
    twostate predicate OnlyInterrupts()
      reads this
    {
      sys == old(sys).(u := sys.u)
    }

    /** One interrupt of any kind. */
    method AnyInterrupt()
      requires Valid() && sys.irqOff == Nobody
      modifies this`rxEnd, this`txStart, this`ctrl, this`deviceCtrl, this`taken, this`sent,
        this`sys, this`lossless, rxBuf
      ensures Valid() && OnlyInterrupts()
      ensures |sys.u.tx.Contents()| <= |old(sys).u.tx.Contents()|
    {
      var input: IrqInput := *;
      IrqNeverFills(sys.u, input);
      Irq(input);
    }

    /** Any number of interrupts, of any kind; none when `calm`. */
    method Interrupts(calm: bool)
      requires Valid() && sys.irqOff == Nobody
      modifies this`rxEnd, this`txStart, this`ctrl, this`deviceCtrl, this`taken, this`sent,
        this`sys, this`lossless, rxBuf
      ensures Valid() && OnlyInterrupts()
      ensures |sys.u.tx.Contents()| <= |old(sys).u.tx.Contents()|
      ensures calm ==> sys == old(sys)
    {
      var n: nat := *;
      while n > 0 && !calm
        invariant Valid() && OnlyInterrupts()
        invariant |sys.u.tx.Contents()| <= |old(sys).u.tx.Contents()|
        invariant calm ==> sys == old(sys)
      {
        AnyInterrupt();
        n := n - 1;
      }
    }

    /** The point between two statements of the foreground code. */
    method Preempt()
      requires Valid() && sys.irqOff == Nobody
      modifies this`rxEnd, this`txStart, this`ctrl, this`deviceCtrl, this`taken, this`sent,
        this`sys, this`lossless, rxBuf
      ensures Valid() && OnlyInterrupts()
    {
      Interrupts(false);
    }

    // -------------------------------------------------------------- write

    /** A statement of `write` that changes nothing but the writer's own position and locals. */
    ghost method WriterMoves(to: Writer)
      requires Valid() && sys.w.pc != WIdle && sys.irqOff != ByReader && WriterStep(sys) == sys.(w := to)
      modifies this`sys, this`lossless
      ensures Valid() && sys == old(sys).(w := to)
    {
      Step(StepWriter);
    }

    /** The critical section that enables the transmit interrupts. */
    method EnableTransmit(last: bool)
      requires Valid() && sys.irqOff == Nobody && sys.w.pc == WLock(last)
      modifies this`ctrl, this`deviceCtrl, this`sys
      ensures Valid() && sys == TransmitEnabled(old(sys), last)
    {
      ReachableTransmitEnabled(sys, last, lossless);
      sys := TransmitEnabled(sys, last);
      ctrl := ctrl.(trdy := true, dcts := true);
      deviceCtrl := ctrl;
    }

    /** The device takes the next byte.  It can ask for it: TRDY is enabled, or with flow control the
        change of CTS with which the other side lets the transmitter go on. */
    method TransmitInterrupt()
      requires Valid() && sys.irqOff == Nobody && txStart != txEnd
      requires sys.w.pc == WIdle || sys.w.pc == WWait
      modifies this`rxEnd, this`txStart, this`ctrl, this`deviceCtrl, this`taken, this`sent,
        this`sys, this`lossless, rxBuf
      ensures Valid() && OnlyInterrupts()
      ensures |sys.u.tx.Contents()| == |old(sys).u.tx.Contents()| - 1
      ensures old(sys).u.tx.Full() ==> txStart != old(txStart)
    {
      hide WriterStep, ReaderStep, Reachable, Ring.Contents;
      assert deviceCtrl.dcts && (!flowControl ==> deviceCtrl.trdy) by {
        ReachableKeepsTx(sys, lossless);
      }
      var input: IrqInput := *;
      if flowControl {
        input := input.(status := input.status.(dcts := true, cts := true));
      } else {
        input := input.(status := input.status.(trdy := true));
      }
      TransmitFrees(sys.u, input);
      Irq(input);
    }

    /** The wait for space.  An enabled transmit interrupt is assumed to arrive after some finite
        number of fruitless looks; that it is enabled is proved. */
    method WaitForSpace(next: nat)
      requires Valid() && sys.irqOff == Nobody && sys.w.pc == WWait && sys.w.next == next
      modifies this`rxEnd, this`txStart, this`ctrl, this`deviceCtrl, this`taken, this`sent,
        this`sys, this`lossless, rxBuf
      ensures Valid() && sys == old(sys).(u := sys.u, w := old(sys).w.(pc := WStore))
    {
      var patience: nat := *;
      while next == txStart
        invariant Valid() && OnlyInterrupts()
        decreases next == txStart, patience
      {
        WriterMoves(sys.w);
        assert sys.u.tx.Full() by {
          ReachableKeepsTx(sys, lossless);
        }
        if patience == 0 {
          TransmitInterrupt();
        } else {
          Preempt();
          patience := patience - 1;
        }
      }
      WriterMoves(sys.w.(pc := WStore));
    }

    /** `sp->tx_buf[sp->tx_end] = *ptr++` */
    method PutByte(b: byte)
      requires Valid() && sys.irqOff == Nobody && sys.w.pc == WStore
      requires 0 < sys.w.count <= |sys.w.data| && b == sys.w.data[|sys.w.data| - sys.w.count]
      modifies txBuf, this`sys, this`lossless
      ensures Valid()
      ensures sys == old(sys).(u := sys.u, w := old(sys).w.(pc := WAdvance, count := old(sys).w.count - 1))
    {
      Step(StepWriter);
      txBuf[txEnd] := b;
    }

    /** `sp->tx_end = next` */
    method Publish(next: nat)
      requires Valid() && sys.irqOff == Nobody && sys.w.pc == WAdvance && sys.w.next == next && next < BUF_LEN
      modifies this`txEnd, this`sys, this`lossless
      ensures Valid()
      ensures sys == old(sys).(u := sys.u, w := old(sys).w.(pc := WTest), accepted := sys.accepted)
    {
      Step(StepWriter);
      txEnd := next;
    }

    /** The branch of a blocking write that found the ring full. */
    method MakeRoom(next: nat)
      requires Valid() && sys.irqOff == Nobody && sys.w.pc == WLock(false) && sys.w.next == next
      modifies this`rxEnd, this`txStart, this`ctrl, this`deviceCtrl, this`taken, this`sent,
        this`sys, this`lossless, rxBuf
      ensures Valid() && sys == old(sys).(u := sys.u, w := old(sys).w.(pc := WStore))
    {
      Preempt();
      EnableTransmit(false);
      Preempt();
      WaitForSpace(next);
    }

    /** The first half of a round of the copy loop: finds the slot for the next byte, waiting for
        it unless the call is non-blocking and the ring full. */
    method Reserve(noBlock: bool) returns (next: nat, full: bool)
      requires Valid() && sys.irqOff == Nobody && sys.w.pc == WTest && sys.w.count > 0 && sys.w.noBlock == noBlock
      modifies this`rxEnd, this`txStart, this`ctrl, this`deviceCtrl, this`taken, this`sent,
        this`sys, this`lossless, rxBuf
      ensures Valid() && (full ==> noBlock) && next < BUF_LEN
      ensures var w := old(sys).w.(next := next);
        sys == old(sys).(u := sys.u,
                         w := if full then w.(pc := WLock(true), wouldBlock := true) else w.(pc := WStore))
    {
      next, full := Succ(txEnd), false;
      WriterMoves(sys.w.(pc := WCheck, next := next));
      Preempt();
      if next == txStart {
        if noBlock {
          full := true;
          WriterMoves(sys.w.(pc := WLock(true), wouldBlock := true));
        } else {
          WriterMoves(sys.w.(pc := WLock(false)));
          MakeRoom(next);
        }
      } else {
        WriterMoves(sys.w.(pc := WStore));
      }
    }

    /** The second half: the byte enters the ring. */
    method AddByte(b: byte, next: nat)
      requires Valid() && sys.irqOff == Nobody && sys.w.pc == WStore && sys.w.next == next && next < BUF_LEN
      requires 0 < sys.w.count <= |sys.w.data| && b == sys.w.data[|sys.w.data| - sys.w.count]
      modifies this, txBuf, rxBuf
      ensures Valid()
      ensures var w := old(sys).w.(pc := WTest, count := old(sys).w.count - 1);
        sys == old(sys).(u := sys.u, w := w, accepted := sys.accepted)
    {
      PutByte(b);
      Preempt();
      Publish(next);
    }

    /** What `Valid()` says of a finished write. */
    lemma WriteOutcome()
      requires Valid() && sys.w.pc == WIdle && sys.irqOff == Nobody
      ensures sys.w.count <= |sys.w.data|
      ensures sys.accepted == sys.w.base + sys.w.data[..|sys.w.data| - sys.w.count]
      ensures sent + View().tx.Contents() == sys.accepted
      ensures txStart != txEnd ==> deviceCtrl.dcts && (!flowControl ==> deviceCtrl.trdy)
    {
      ReachableKeepsTx(sys, lossless);
    }

    /** The writer at the loop test, when `count` bytes are left; `wouldBlock` ends the loop. */
    ghost function Copying(ptr: seq<byte>, noBlock: bool, count: nat, wouldBlock: bool, base: seq<byte>): Writer
      reads this
    {
      Writer(if wouldBlock then WLock(true) else WTest, ptr, noBlock, count, sys.w.next, wouldBlock, base)
    }

    /** One round of the copy loop. */
    method CopyOne(ptr: seq<byte>, noBlock: bool, count: nat, ghost base: seq<byte>) returns (wouldBlock: bool)
      requires Valid() && sys.irqOff == Nobody && 0 < count <= |ptr|
      requires sys.w == Copying(ptr, noBlock, count, false, base)
      modifies this, rxBuf, txBuf
      ensures Valid() && sys.irqOff == Nobody && sys.r == old(sys).r && sys.delivered == old(sys).delivered
      ensures wouldBlock ==> noBlock
      ensures sys.w == Copying(ptr, noBlock, if wouldBlock then count else count - 1, wouldBlock, base)
    {
      hide Reachable, ReaderStep, WriterStep;
      var next;
      next, wouldBlock := Reserve(noBlock);
      Preempt();
      if !wouldBlock {
        AddByte(ptr[|ptr| - count], next);
        Preempt();
      }
    }

    /** The copy loop of `write`: `count` bytes are left over, because the ring was full. */
    method CopyLoop(ptr: seq<byte>, noBlock: bool) returns (count: nat, wouldBlock: bool)
      requires Valid() && sys.irqOff == Nobody
      requires sys.w == Writer(WTest, ptr, noBlock, |ptr|, sys.w.next, false, sys.w.base)
      modifies this, rxBuf, txBuf
      ensures Valid() && sys.irqOff == Nobody && sys.r == old(sys).r && sys.delivered == old(sys).delivered
      ensures count <= |ptr| && (wouldBlock <==> count > 0) && (wouldBlock ==> noBlock)
      ensures sys.w ==
              Writer(if wouldBlock then WLock(true) else WTest, ptr, noBlock, count, sys.w.next, wouldBlock,
                     old(sys).w.base)
    {
      hide Valid;
      ghost var base := sys.w.base;
      count, wouldBlock := |ptr|, false;
      while count > 0 && !wouldBlock
        invariant Valid() && sys.irqOff == Nobody && sys.r == old(sys).r && sys.delivered == old(sys).delivered
        invariant count <= |ptr|
        invariant wouldBlock ==> count > 0 && noBlock
        invariant sys.w == Copying(ptr, noBlock, count, wouldBlock, base)
        decreases count, !wouldBlock
      {
        wouldBlock := CopyOne(ptr, noBlock, count, base);
        if !wouldBlock {
          count := count - 1;
        }
      }
    }

    /** What follows the copy loop. */
    method EndWrite(wouldBlock: bool)
      requires Valid() && sys.irqOff == Nobody && sys.w.pc == if wouldBlock then WLock(true) else WTest
      requires !wouldBlock ==> sys.w.count == 0
      modifies this`rxEnd, this`txStart, this`ctrl, this`deviceCtrl, this`taken, this`sent,
        this`sys, this`lossless, rxBuf
      ensures Valid() && sys == old(sys).(u := sys.u, w := old(sys).w.(pc := WIdle))
    {
      hide Reachable, Ring.Contents;
      if !wouldBlock {
        WriterMoves(sys.w.(pc := WLock(true)));
      }
      hide WriterStep;
      Preempt();
      EnableTransmit(true);
    }

    /** Copies `ptr` into the ring.  `n` bytes were accepted; `wouldBlock` is the EWOULDBLOCK that a
        non-blocking call leaves in errno. */
    method Write(ptr: seq<byte>, noBlock: bool) returns (n: nat, wouldBlock: bool)
      requires Valid() && sys.irqOff == Nobody && sys.w.pc == WIdle
      modifies this, rxBuf, txBuf
      ensures Valid() && sys.irqOff == Nobody && sys.w.pc == WIdle
      ensures sys.r == old(sys).r && sys.delivered == old(sys).delivered
      ensures n <= |ptr| && sys.accepted == old(sys).accepted + ptr[..n]
      ensures wouldBlock <==> n < |ptr|
      ensures !noBlock ==> n == |ptr|
      ensures sent + View().tx.Contents() == sys.accepted
      ensures txStart != txEnd ==> deviceCtrl.dcts && (!flowControl ==> deviceCtrl.trdy)
    {
      hide Reachable, Overflows, ReaderStep, WriterStep, Ring.Contents, UartModel.Irq;
      Step(CallWrite(ptr, noBlock));
      Preempt();
      var count;
      count, wouldBlock := CopyLoop(ptr, noBlock);
      EndWrite(wouldBlock);
      WriteOutcome();
      n := |ptr| - count;
    }

    // -------------------------------------------------------------- read

    /** A statement of `read` that changes nothing but the reader's own position and locals. */
    ghost method ReaderMoves(to: Reader)
      requires Valid() && sys.r.pc != RIdle && sys.irqOff != ByWriter && ReaderStep(sys) == sys.(r := to)
      modifies this`sys, this`lossless
      ensures Valid() && sys == old(sys).(r := to) && lossless == old(lossless)
    {
      Step(StepReader);
    }

    /** The critical section that enables the receive interrupt. */
    method EnableReceive(last: bool)
      requires Valid() && sys.irqOff == Nobody && sys.r.pc == RLock(last)
      modifies this`ctrl, this`deviceCtrl, this`sys
      ensures Valid() && sys == ReceiveEnabled(old(sys), last)
    {
      ReachableReceiveEnabled(sys, last, lossless);
      sys := ReceiveEnabled(sys, last);
      ctrl := ctrl.(rrdy := true);
      deviceCtrl := ctrl;
    }

    /** A byte arrives at an empty ring.  The device can report it: RRDY is enabled. */
    method ReceiveInterrupt()
      requires Valid() && sys.irqOff == Nobody && rxStart == rxEnd && deviceCtrl.rrdy
      modifies this`rxEnd, this`txStart, this`ctrl, this`deviceCtrl, this`taken, this`sent,
        this`sys, this`lossless, rxBuf
      ensures Valid() && OnlyInterrupts() && rxStart != rxEnd
    {
      hide Reachable;
      var input: IrqInput := *;
      input := input.(status := input.status.(rrdy := true, pe := false, fe := false));
      IrqMoves(sys.u, input);
      ContentsLength(sys.u.rx);
      Irq(input);
      ContentsLength(sys.u.rx);
    }

    /** `*ptr++ = sp->rx_buf[sp->rx_start]` */
    method GetByte(buffer: array<byte>, count: nat)
      requires Valid() && sys.irqOff == Nobody && sys.r.pc == RTake && buffer != rxBuf && buffer != txBuf
      requires count < buffer.Length && sys.r.out == buffer[..count]
      modifies buffer, this`sys, this`lossless
      ensures Valid() && buffer[..count] == old(buffer[..count]) && buffer[count + 1..] == old(buffer[count + 1..])
      ensures sys == old(sys).(r := old(sys).r.(pc := RAdvance, out := buffer[..count + 1]))
    {
      Step(StepReader);
      buffer[count] := rxBuf[rxStart];
      assert buffer[..count + 1] == buffer[..count] + [buffer[count]];
    }

    /** `sp->rx_start = (sp->rx_start+1) & MSK` */
    method Release()
      requires Valid() && sys.irqOff == Nobody && sys.r.pc == RAdvance
      modifies this`rxStart, this`sys, this`lossless
      ensures Valid()
      ensures var r := old(sys).r;
        sys == old(sys).(u := sys.u, r := r.(pc := RInner), delivered := r.base + r.out)
    {
      Step(StepReader);
      rxStart := Succ(rxStart);
    }

    /** The step system in the inner loop of a read that began the loop in `was`, when `bytes` are in
        the buffer. */
    ghost function Took(was: System, pc: RPc, bytes: seq<byte>): System
      reads this
    {
      was.(u := sys.u, r := was.r.(pc := pc, out := bytes), delivered := was.delivered + bytes)
    }

    ghost predicate InInnerLoop(was: System, len: nat) {
      was.irqOff == Nobody && was.r.pc == RInner && was.r.len == len && was.r.out == [] && was.delivered == was.r.base
    }

    /** One round of the inner loop. */
    method TakeOne(buffer: array<byte>, count: nat, len: nat, ghost was: System, ghost before: seq<byte>)
      requires Valid() && InInnerLoop(was, len) && rxStart != rxEnd && count < len <= buffer.Length
      requires sys == Took(was, RInner, buffer[..count]) && buffer != rxBuf && buffer != txBuf
      requires |before| == buffer.Length && buffer[count..] == before[count..]
      modifies this, rxBuf, buffer
      ensures Valid() && sys == Took(was, RInner, buffer[..count + 1])
      ensures buffer[count + 1..] == before[count + 1..]
    {
      assert old(buffer[count + 1..]) == before[count + 1..] by {
        assert buffer[count..][1..] == before[count..][1..];
      }
      TakeByte(buffer, count);
    }

    method TakeByte(buffer: array<byte>, count: nat)
      requires Valid() && sys.irqOff == Nobody && sys.r.pc == RInner && rxStart != rxEnd && count < sys.r.len
      requires count < buffer.Length && sys.r.out == buffer[..count] && buffer != rxBuf && buffer != txBuf
      modifies this, rxBuf, buffer
      ensures Valid() && buffer[..count] == old(buffer[..count]) && buffer[count + 1..] == old(buffer[count + 1..])
      ensures sys == old(sys).(u := sys.u, r := old(sys).r.(out := buffer[..count + 1]),
                               delivered := old(sys).r.base + buffer[..count + 1])
    {
      ReaderMoves(sys.r.(pc := RTake));
      Preempt();
      GetByte(buffer, count);
      Preempt();
      Release();
      Preempt();
    }

    /** The inner loop of `read`: moves bytes until `len` are there or the ring is empty. */
    method TakeAll(buffer: array<byte>, len: nat) returns (count: nat)
      requires Valid() && InInnerLoop(sys, len)
      requires len <= buffer.Length && buffer != rxBuf && buffer != txBuf
      modifies this, rxBuf, buffer
      ensures Valid() && count <= len && buffer[count..] == old(buffer[count..])
      ensures sys == Took(old(sys), REmpty, buffer[..count])
      ensures old(rxStart) != old(rxEnd) && len > 0 ==> count > 0
    {
      ghost var was, before := sys, buffer[..];
      count := 0;
      NothingTaken(was, len);
      hide Valid, Took, InInnerLoop;
      while count < len && rxStart != rxEnd
        invariant Valid() && count <= len && buffer[count..] == before[count..]
        invariant sys == Took(was, RInner, buffer[..count])
        invariant count == 0 ==> rxStart == old(rxStart) && rxEnd == old(rxEnd)
      {
        TakeOne(buffer, count, len, was, before);
        count := count + 1;
      }
      LeaveInner(buffer[..count], len, was);
    }

    lemma NothingTaken(was: System, len: nat)
      requires InInnerLoop(was, len) && sys == was
      ensures sys == Took(was, RInner, [])
    {
      assert was.delivered + [] == was.delivered;
    }

    ghost method LeaveInner(bytes: seq<byte>, len: nat, was: System)
      requires Valid() && InInnerLoop(was, len) && sys == Took(was, RInner, bytes)
      requires |bytes| >= len || rxStart == rxEnd
      modifies this`sys, this`lossless
      ensures Valid() && sys == Took(was, REmpty, bytes) && lossless == old(lossless)
    {
      ReaderMoves(sys.r.(pc := REmpty));
    }

    /** A blocked read enables the receive interrupt; a byte is assumed to come by the time
        `patience` has run out. */
    method LetBytesCome(patience: nat)
      requires Valid() && sys.irqOff == Nobody && sys.r.pc == RLock(false)
      modifies this`rxEnd, this`txStart, this`ctrl, this`deviceCtrl, this`taken, this`sent,
        this`sys, this`lossless, rxBuf
      ensures Valid() && sys == old(sys).(u := sys.u, r := old(sys).r.(pc := RLoop))
      ensures patience == 0 ==> rxStart != rxEnd
    {
      Preempt();
      EnableReceive(false);
      if patience == 0 && rxStart == rxEnd {
        ReceiveInterrupt();
      }
    }

    /** One round of the outer loop after the ring has been emptied: decides whether to look again.
        A blocked read is assumed to find a byte after finitely many rounds (`patience`). */
    method Decide(count: nat, len: nat, noBlock: bool, patience: nat) returns (again: bool, wouldBlock: bool)
      requires Valid() && sys.irqOff == Nobody && sys.r.pc == REmpty
      requires sys.r.len == len && sys.r.noBlock == noBlock && |sys.r.out| == count && !sys.r.wouldBlock
      modifies this`rxEnd, this`txStart, this`ctrl, this`deviceCtrl, this`taken, this`sent,
        this`sys, this`lossless, rxBuf
      ensures Valid() && (wouldBlock ==> noBlock && count == 0 && !again)
      ensures again ==> count == 0 && len != 0 && (patience == 0 ==> rxStart != rxEnd)
      ensures !again && count == 0 ==> wouldBlock || len == 0
      ensures var r := old(sys).r;
        sys == old(sys).(u := sys.u, r := r.(pc := if again then RInner else RLock(true), wouldBlock := wouldBlock))
    {
      hide Reachable, WriterStep;
      wouldBlock := false;
      if count == 0 && rxStart == rxEnd {
        if noBlock {
          ReaderMoves(sys.r.(pc := RLock(true), wouldBlock := true));
          return false, true;
        }
        ReaderMoves(sys.r.(pc := RLock(false)));
        LetBytesCome(patience);
      } else {
        ReaderMoves(sys.r.(pc := RLoop));
      }
      if patience != 0 {
        Preempt();
      }
      again := count == 0 && len != 0;
      ReaderMoves(sys.r.(pc := if again then RInner else RLock(true)));
    }

    /** What `Valid()` says of a finished read. */
    lemma ReadOutcome()
      requires Valid() && lossless
      ensures sys.r.pc == RIdle ==> sys.delivered + View().rx.Contents() == taken
    {
      ReachableKeepsRx(sys);
    }

    /** The outer loop of `read`. */
    method ReadLoop(buffer: array<byte>, len: nat, noBlock: bool) returns (n: nat, wouldBlock: bool)
      requires Valid() && sys.irqOff == Nobody && sys.r == Reader(RInner, len, noBlock, [], false, sys.delivered)
      requires len <= buffer.Length && buffer != rxBuf && buffer != txBuf
      modifies this, rxBuf, buffer
      ensures Valid() && n <= len && buffer[n..] == old(buffer[n..])
      ensures sys == old(sys).(u := sys.u, delivered := old(sys).delivered + buffer[..n],
                               r := Reader(RLock(true), len, noBlock, buffer[..n], wouldBlock, old(sys).delivered))
      ensures wouldBlock ==> noBlock && n == 0
      ensures n == 0 ==> wouldBlock || len == 0
    {
      hide Reachable, ReaderStep, WriterStep;
      ghost var base := sys.delivered;
      n, wouldBlock := 0, false;
      var patience: nat, again := *, true;
      ghost var lucky := false;
      while again
        invariant Valid() && n <= len && buffer[n..] == old(buffer[n..])
        invariant sys == old(sys).(u := sys.u, delivered := base + buffer[..n],
                                   r := Reader(if again then RInner else RLock(true), len, noBlock, buffer[..n],
                                               wouldBlock, base))
        invariant again ==> n == 0
        invariant lucky ==> again && patience == 0 && rxStart != rxEnd
        invariant wouldBlock ==> noBlock && n == 0 && !again
        invariant !again && n == 0 ==> wouldBlock || len == 0
        decreases again, !lucky, patience
      {
        n := TakeAll(buffer, len);
        Preempt();
        again, wouldBlock := Decide(n, len, noBlock, patience);
        lucky := again && patience == 0;
        if patience != 0 {
          patience := patience - 1;
          Preempt();
        }
      }
    }

    /** Moves up to `len` received bytes into `buffer`.  `n` were moved; `wouldBlock` is the
        -EWOULDBLOCK of a non-blocking call that found nothing. */
    method Read(buffer: array<byte>, len: nat, noBlock: bool) returns (n: nat, wouldBlock: bool)
      requires Valid() && sys.irqOff == Nobody && sys.r.pc == RIdle
      requires len <= buffer.Length && buffer != rxBuf && buffer != txBuf
      modifies this, rxBuf, buffer
      ensures Valid() && sys.irqOff == Nobody && sys.r.pc == RIdle
      ensures sys.w == old(sys).w && sys.accepted == old(sys).accepted
      ensures n <= len && buffer[n..] == old(buffer[n..])
      ensures sys.delivered == old(sys).delivered + buffer[..n]
      ensures n == 0 ==> len == 0 || (noBlock && wouldBlock)
      ensures wouldBlock ==> noBlock && n == 0
      ensures lossless ==> sys.delivered + View().rx.Contents() == taken
      ensures deviceCtrl.rrdy
    {
      hide Reachable, WriterStep;
      Step(CallRead(len, noBlock));
      Preempt();
      n, wouldBlock := ReadLoop(buffer, len, noBlock);
      Preempt();
      EnableReceive(true);
      if lossless {
        ReadOutcome();
      }
    }

    // -------------------------------------------------------------- close

    /** Waits until the transmit ring has drained, or reports EWOULDBLOCK. */
    method Close(noBlock: bool) returns (result: CloseResult)
      requires Valid() && sys.irqOff == Nobody && sys.w.pc == WIdle
      modifies this`rxEnd, this`txStart, this`ctrl, this`deviceCtrl, this`taken, this`sent,
        this`sys, this`lossless, rxBuf
      ensures Valid() && OnlyInterrupts()
      ensures result == Closed ==> sent == sys.accepted
      ensures result == Closed <==> txStart == txEnd
      ensures result == WouldBlock ==> noBlock
    {
      var patience: nat := *;
      Interrupts(false);
      while txStart != txEnd
        invariant Valid() && OnlyInterrupts()
        decreases |sys.u.tx.Contents()|, patience
      {
        if noBlock {
          return WouldBlock;
        }
        if patience == 0 {
          TransmitInterrupt();
          patience := *;
        } else {
          Interrupts(false);
          patience := patience - 1;
        }
      }
      WriteOutcome();
      result := Closed;
    }
  }
}
