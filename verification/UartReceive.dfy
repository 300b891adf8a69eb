/**
 The receive direction.  The FIFO is exact as long as no receive interrupt is taken with a full
 ring, and only so long; the RRDY mask keeps such interrupts away exactly when no read re-enables
 RRDY while the ring is full.
 */
module UartReceive {
  import opened Bytes
  import opened UartModel
  import opened UartProofs

  predicate RClosing(pc: RPc) {
    match pc
    case RIdle => true
    case RLock(last) => last
    case RSet(last) => last
    case RPut(last) => last
    case RUnlock(last) => last
    case _ => false
  }

  /** The critical section before a blocked read looks again. */
  predicate RBlocking(pc: RPc) {
    match pc
    case RLock(last) => !last
    case RSet(last) => !last
    case RPut(last) => !last
    case RUnlock(last) => !last
    case _ => false
  }

  /** The part of the caller's buffer whose ring slots have been released. */
  function Released(r: Reader): seq<byte> {
    if r.pc == RAdvance && r.out != [] then r.out[..|r.out| - 1] else r.out
  }

  predicate ReaderOk(s: System) {
    var r, rx := s.r, s.u.rx;
    && s.u.Ok()
    && s.delivered == r.base + Released(r)
    && (r.pc == RTake ==> !rx.Empty() && |r.out| < r.len)
    && (r.pc == RAdvance ==> r.out != [] && !rx.Empty() && r.out[|r.out| - 1] == rx.buf[rx.start])
    && (r.wouldBlock ==> r.noBlock && r.out == [] && RClosing(r.pc))
    && (RClosing(r.pc) && r.out == [] ==> r.wouldBlock || r.len == 0)
    && (RBlocking(r.pc) ==> r.out == [])
    && (r.out != [] ==> |r.out| <= r.len)
  }

  /** The bytes returned by reads followed by the ring are, in order, the bytes taken from RXDATA. */
  predicate RxExact(s: System) {
    s.u.rx.Ok() && s.delivered + s.u.rx.Contents() == s.u.taken
  }

  predicate RxInv(s: System) {
    ReaderOk(s) && RxExact(s)
  }

  /** A receive interrupt taken while the ring is full. */
  predicate Overflows(s: System, e: Event) {
    e.Interrupt? && Accepts(e.input) && s.u.rx.Full()
  }

  lemma RxIrqMoves(u: Uart, status: Status, rxData: byte)
    requires u.Ok() && !u.rx.Full() && !status.pe && !status.fe
    ensures var v := RxIrq(u, status, rxData);
      && v.Ok() && v.taken == u.taken + [rxData]
      && v.rx.Contents() == u.rx.Contents() + [rxData]
      && v.rx.start == u.rx.start && v.rx.buf[u.rx.start] == (if u.rx.Empty() then rxData else u.rx.buf[u.rx.start])
      && !v.rx.Empty()
      && (v.rx.Full() ==> !v.ctrl.rrdy)
  {
    PushContents(u.rx, rxData);
  }

  /** One interrupt, seen from the receive side. */
  lemma IrqMoves(u: Uart, input: IrqInput)
    requires u.Ok() && (Accepts(input) ==> !u.rx.Full())
    ensures var v := Irq(u, input);
      && v.Ok()
      && v.taken == u.taken + (if Accepts(input) then [input.rxData] else [])
      && v.rx.Contents() == u.rx.Contents() + (if Accepts(input) then [input.rxData] else [])
      && (!u.rx.Empty() ==> !v.rx.Empty() && v.rx.start == u.rx.start && v.rx.buf[u.rx.start] == u.rx.buf[u.rx.start])
  {
    var v := if input.status.rrdy then RxIrq(u, input.status, input.rxData) else u;
    if Accepts(input) {
      RxIrqMoves(u, input.status, input.rxData);
    }
    if Transmits(input) {
      TxIrqMoves(v, input.status, input.ctsAgain);
    }
  }

  lemma InterruptKeepsRx(s: System, input: IrqInput)
    requires RxInv(s) && s.irqOff == Nobody && !Overflows(s, Interrupt(input))
    ensures RxInv(Apply(s, Interrupt(input)))
  {
    hide WriterStep, ReaderStep;
    IrqMoves(s.u, input);
    var t := Apply(s, Interrupt(input));
    var more := if Accepts(input) then [input.rxData] else [];
    assert s.delivered + (s.u.rx.Contents() + more) == (s.delivered + s.u.rx.Contents()) + more;
    ContentsLength(s.u.rx);
  }

  /** The writer's statements touch nothing of the receive side. */
  lemma WriterLeavesRx(s: System, e: Event)
    requires s.u.Ok() && Enabled(s, e) && (e.CallWrite? || e.StepWriter?)
    ensures var t := Apply(s, e);
      t.u.rx == s.u.rx && t.r == s.r && t.u.taken == s.u.taken && t.delivered == s.delivered
  {
    hide ReaderStep, Irq;
  }

  lemma WriterKeepsRx(s: System, t: System)
    requires RxInv(s) && t.u.Ok()
    requires t.u.rx == s.u.rx && t.r == s.r && t.u.taken == s.u.taken && t.delivered == s.delivered
    ensures RxInv(t)
  {
  }

  lemma TakeKeepsRx(s: System)
    requires RxInv(s) && s.r.pc == RTake && s.irqOff != ByWriter
    ensures RxInv(ReaderStep(s))
  {
    var t := ReaderStep(s);
    assert Released(t.r) == s.r.out;
  }

  lemma ReleaseMovesHead(u: Uart, delivered: seq<byte>)
    requires u.Ok() && !u.rx.Empty() && delivered + u.rx.Contents() == u.taken
    ensures (delivered + [u.rx.buf[u.rx.start]]) + u.rx.(start := Succ(u.rx.start)).Contents() == u.taken
  {
    var rest, b := u.rx.(start := Succ(u.rx.start)).Contents(), u.rx.buf[u.rx.start];
    assert u.rx.Contents() == [b] + rest by { PopContents(u.rx); }
    assert delivered + ([b] + rest) == (delivered + [b]) + rest;
  }

  lemma LastOf(base: seq<byte>, out: seq<byte>)
    requires out != []
    ensures (base + out[..|out| - 1]) + [out[|out| - 1]] == base + out
  {
  }

  lemma ReleaseKeepsRx(s: System)
    requires RxInv(s) && s.r.pc == RAdvance && s.irqOff != ByWriter
    ensures RxInv(ReaderStep(s))
  {
    ReleaseMovesHead(s.u, s.delivered);
    LastOf(s.r.base, s.r.out);
    hide Ring.Contents, Succ;
  }

  lemma ReaderControlKeepsRx(s: System, e: Event)
    requires RxInv(s) && Enabled(s, e)
    requires e.CallRead? || (e.StepReader? && s.r.pc != RTake && s.r.pc != RAdvance)
    ensures RxInv(Apply(s, e))
  {
    hide WriterStep, Irq, Ring.Contents;
    assert Apply(s, e).u.rx == s.u.rx;
  }

  lemma EventKeepsRx(s: System, e: Event)
    requires TxInv(s) && RxInv(s) && Enabled(s, e) && !Overflows(s, e)
    ensures RxInv(Apply(s, e))
  {
    EventKeepsTx(s, e);
    if e.CallWrite? || e.StepWriter? {
      WriterLeavesRx(s, e);
      WriterKeepsRx(s, Apply(s, e));
    } else if e.Interrupt? {
      InterruptKeepsRx(s, e.input);
    } else if e.StepReader? && s.r.pc == RTake {
      TakeKeepsRx(s);
    } else if e.StepReader? && s.r.pc == RAdvance {
      ReleaseKeepsRx(s);
    } else {
      ReaderControlKeepsRx(s, e);
    }
  }

  /** An overflow makes the ring look empty: 64 bytes are lost to the reader. */
  lemma OverflowLoses(s: System, e: Event)
    requires s.u.Ok() && RxExact(s) && Enabled(s, e) && Overflows(s, e)
    ensures Apply(s, e).u.rx.Empty()
    ensures |Apply(s, e).u.taken| == |s.delivered| + 64
    ensures !RxExact(Apply(s, e))
  {
    hide WriterStep, ReaderStep;
    ContentsLength(s.u.rx);
    var v := RxIrq(s.u, e.input.status, e.input.rxData);
    assert v.rx.Empty() && v.taken == s.u.taken + [e.input.rxData];
    if Transmits(e.input) {
      TxIrqMoves(v, e.input.status, e.input.ctsAgain);
    }
    var t := Apply(s, e);
    assert t.u.rx == v.rx && t.u.taken == v.taken;
    ContentsLength(t.u.rx);
    assert |t.delivered + t.u.rx.Contents()| == |s.delivered|;
  }

  // ---------------------------------------------------------------- theorems over whole runs

  /** No receive interrupt of the run is taken with a full ring. */
  predicate NeverOverflows(s: System, es: seq<Event>)
    requires CanExec(s, es)
    decreases |es|
  {
    es != [] ==> !Overflows(s, es[0]) && NeverOverflows(Apply(s, es[0]), es[1..])
  }

  predicate AlwaysExact(s: System, es: seq<Event>)
    requires CanExec(s, es)
    decreases |es|
  {
    RxExact(s) && (es != [] ==> AlwaysExact(Apply(s, es[0]), es[1..]))
  }

  /** Receive exactness holds throughout a run if and only if the ring never overflows in it. */
  lemma {:induction false} ExactIffNoOverflow(s: System, es: seq<Event>)
    requires TxInv(s) && RxInv(s) && CanExec(s, es)
    ensures AlwaysExact(s, es) <==> NeverOverflows(s, es)
    decreases |es|
  {
    if es != [] {
      var t := Apply(s, es[0]);
      if Overflows(s, es[0]) {
        OverflowLoses(s, es[0]);
      } else {
        EventKeepsTx(s, es[0]);
        EventKeepsRx(s, es[0]);
        ExactIffNoOverflow(t, es[1..]);
      }
    }
  }

  lemma {:induction false} RunKeepsRx(s: System, es: seq<Event>)
    requires TxInv(s) && RxInv(s) && CanExec(s, es) && NeverOverflows(s, es)
    ensures RxInv(Exec(s, es))
    decreases |es|
  {
    if es != [] {
      EventKeepsTx(s, es[0]);
      EventKeepsRx(s, es[0]);
      RunKeepsRx(Apply(s, es[0]), es[1..]);
    }
  }

  // ---------------------------------------------------------------- no lost wakeup

  /** RRDY is masked only while the ring is full or a read that has taken bytes is in progress. */
  predicate RxWakeOk(s: System) {
    s.u.ctrl.rrdy || s.u.rx.Full() || (s.r.pc != RIdle && !s.r.pc.RPut? && !s.r.pc.RUnlock? && s.r.out != [])
  }

  lemma InterruptKeepsRxWake(s: System, input: IrqInput)
    requires s.u.Ok() && RxWakeOk(s) && s.irqOff == Nobody && !Overflows(s, Interrupt(input))
    ensures RxWakeOk(Apply(s, Interrupt(input)))
  {
    hide WriterStep, ReaderStep;
    var v := if input.status.rrdy then RxIrq(s.u, input.status, input.rxData) else s.u;
    if Transmits(input) {
      TxIrqMoves(v, input.status, input.ctsAgain);
    }
  }

  lemma EventKeepsRxWake(s: System, e: Event)
    requires TxInv(s) && RxInv(s) && RxWakeOk(s) && Enabled(s, e) && !Overflows(s, e)
    ensures RxWakeOk(Apply(s, e))
  {
    hide Ring.Contents;
    ContentsLength(s.u.rx);
    if e.Interrupt? {
      InterruptKeepsRxWake(s, e.input);
    }
  }

  lemma {:induction false} RunKeepsRxWake(s: System, es: seq<Event>)
    requires TxInv(s) && RxInv(s) && RxWakeOk(s) && CanExec(s, es) && NeverOverflows(s, es)
    ensures RxWakeOk(Exec(s, es))
    decreases |es|
  {
    if es != [] {
      EventKeepsTx(s, es[0]);
      EventKeepsRx(s, es[0]);
      EventKeepsRxWake(s, es[0]);
      hide RxWakeOk, TxInv, RxInv, Apply;
      RunKeepsRxWake(Apply(s, es[0]), es[1..]);
    }
  }

  // ---------------------------------------------------------------- what the RRDY mask buys

  /** The intended meaning of the mask: receive interrupts are enabled only while there is room. */
  predicate MaskOk(s: System) {
    s.u.ctrl.rrdy ==> !s.u.rx.Full()
  }

  /** A receive byte is accepted although RRDY is masked, which a transmit interrupt makes
      possible: the service routine looks at the status register only. */
  predicate BypassesMask(s: System, e: Event) {
    e.Interrupt? && Accepts(e.input) && !s.u.dev.rrdy
  }

  /** The read executes `ctrl |= RRDY` while the ring is full. */
  predicate ReenablesFull(s: System, e: Event) {
    e.StepReader? && s.r.pc.RSet? && s.u.rx.Full()
  }

  predicate NeverBypasses(s: System, es: seq<Event>)
    requires CanExec(s, es)
    decreases |es|
  {
    es != [] ==> !BypassesMask(s, es[0]) && NeverBypasses(Apply(s, es[0]), es[1..])
  }

  predicate NeverReenablesFull(s: System, es: seq<Event>)
    requires CanExec(s, es)
    decreases |es|
  {
    es != [] ==> !ReenablesFull(s, es[0]) && NeverReenablesFull(Apply(s, es[0]), es[1..])
  }

  predicate AlwaysMasked(s: System, es: seq<Event>)
    requires CanExec(s, es)
    decreases |es|
  {
    MaskOk(s) && (es != [] ==> AlwaysMasked(Apply(s, es[0]), es[1..]))
  }

  lemma InterruptKeepsMask(s: System, input: IrqInput)
    requires s.u.Ok() && CtrlOk(s) && MaskOk(s) && s.irqOff == Nobody && !BypassesMask(s, Interrupt(input))
    ensures !Overflows(s, Interrupt(input))
    ensures MaskOk(Apply(s, Interrupt(input)))
  {
    hide WriterStep, ReaderStep;
    var v := if input.status.rrdy then RxIrq(s.u, input.status, input.rxData) else s.u;
    if Accepts(input) {
      RxIrqMoves(s.u, input.status, input.rxData);
    }
    if Transmits(input) {
      TxIrqMoves(v, input.status, input.ctsAgain);
    }
  }

  lemma EventKeepsMask(s: System, e: Event)
    requires TxInv(s) && RxInv(s) && MaskOk(s) && Enabled(s, e) && !BypassesMask(s, e)
    ensures !Overflows(s, e)
    ensures MaskOk(Apply(s, e)) <==> !ReenablesFull(s, e)
  {
    match e
    case Interrupt(input) => InterruptKeepsMask(s, input);
    case StepReader =>
      if s.r.pc == RAdvance {
        PopContents(s.u.rx);
        ContentsLength(s.u.rx);
        ContentsLength(ReaderStep(s).u.rx);
      }
    case _ =>
  }

  /** With receive interrupts taken only while RRDY is enabled at the device, "RRDY enabled implies
      room in the ring" holds throughout a run if and only if no read of the run re-enables RRDY
      over a full ring; and then nothing is lost. */
  lemma {:induction false} MaskIffNoFullReenable(s: System, es: seq<Event>)
    requires TxInv(s) && RxInv(s) && MaskOk(s) && CanExec(s, es) && NeverBypasses(s, es)
    ensures AlwaysMasked(s, es) <==> NeverReenablesFull(s, es)
    ensures NeverReenablesFull(s, es) ==> NeverOverflows(s, es) && AlwaysExact(s, es)
    decreases |es|
  {
    if es != [] {
      EventKeepsMask(s, es[0]);
      if !ReenablesFull(s, es[0]) {
        EventKeepsTx(s, es[0]);
        EventKeepsRx(s, es[0]);
        MaskIffNoFullReenable(Apply(s, es[0]), es[1..]);
      }
    }
  }

  // ---------------------------------------------------------------- a sufficient discipline

  /** The window of a read between its last removal (or its observation of an empty ring) and the
      re-enabling of RRDY. */
  predicate Quiet(r: Reader) {
    match r.pc
    case RInner => r.out != []
    case REmpty => r.out != []
    case RLoop => r.out != []
    case RLock(_) => true
    case _ => false
  }

  /** Reads ask for at least one byte, and no receive interrupt falls into a read's quiet window. */
  predicate Disciplined(s: System, e: Event) {
    && (e.CallRead? ==> e.len != 0)
    && (e.Interrupt? && Accepts(e.input) ==> !Quiet(s.r))
  }

  predicate AlwaysDisciplined(s: System, es: seq<Event>)
    requires CanExec(s, es)
    decreases |es|
  {
    es != [] ==> Disciplined(s, es[0]) && AlwaysDisciplined(Apply(s, es[0]), es[1..])
  }

  predicate RoomInv(s: System) {
    (Quiet(s.r) || s.r.pc.RSet? ==> !s.u.rx.Full()) && (s.r.pc != RIdle ==> s.r.len != 0)
  }

  lemma InterruptKeepsRoom(s: System, input: IrqInput)
    requires RxInv(s) && RoomInv(s) && CtrlOk(s) && s.irqOff == Nobody && Disciplined(s, Interrupt(input))
    ensures RoomInv(Apply(s, Interrupt(input)))
  {
    hide WriterStep, ReaderStep;
    var v := if input.status.rrdy then RxIrq(s.u, input.status, input.rxData) else s.u;
    if Transmits(input) {
      TxIrqMoves(v, input.status, input.ctsAgain);
    }
    if !Accepts(input) {
      assert Apply(s, Interrupt(input)).u.rx == s.u.rx;
    }
  }

  lemma ReaderKeepsRoom(s: System)
    requires RxInv(s) && RoomInv(s) && s.r.pc != RIdle
    ensures RoomInv(ReaderStep(s))
  {
    ContentsLength(s.u.rx);
    if s.r.pc == RAdvance {
      PopContents(s.u.rx);
      ContentsLength(ReaderStep(s).u.rx);
    }
  }

  /** Everything that the discipline keeps. */
  predicate RoomyInv(s: System) {
    TxInv(s) && RxInv(s) && MaskOk(s) && RoomInv(s)
  }

  lemma EventKeepsRoom(s: System, e: Event)
    requires RoomyInv(s) && Enabled(s, e) && Disciplined(s, e) && !BypassesMask(s, e)
    ensures !ReenablesFull(s, e) && RoomyInv(Apply(s, e))
  {
    EventKeepsMask(s, e);
    EventKeepsTx(s, e);
    EventKeepsRx(s, e);
    hide WriterStep, Irq, TxInv, Ring.Contents;
    assert TxInv(s) ==> s.u.Ok() && CtrlOk(s);
    match e {
      case Interrupt(input) => InterruptKeepsRoom(s, input);
      case StepReader => ReaderKeepsRoom(s);
      case StepWriter => WriterLeavesRx(s, e);
      case _ =>
    }
  }

  /** Under that discipline no read ever re-enables RRDY over a full ring. */
  lemma {:induction false} DisciplineSuffices(s: System, es: seq<Event>)
    requires RoomyInv(s) && CanExec(s, es)
    requires NeverBypasses(s, es) && AlwaysDisciplined(s, es)
    ensures NeverReenablesFull(s, es)
    decreases |es|
  {
    if es != [] {
      hide RoomyInv, Apply, Disciplined, BypassesMask, ReenablesFull;
      EventKeepsRoom(s, es[0]);
      DisciplineSuffices(Apply(s, es[0]), es[1..]);
    }
  }
}
