/**
 What every run of the UART driver keeps: exactness of both FIFOs, agreement of the shadow control
 register with the device, and the absence of lost wakeups.
 */
module UartProofs {
  import opened Bytes
  import opened UartModel

  // ---------------------------------------------------------------- ring arithmetic

  lemma PushContents(r: Ring, b: byte)
    requires r.Ok() && !r.Full()
    ensures r.Store(b).(end := Succ(r.end)).Contents() == r.Contents() + [b]
    ensures r.Store(b).Contents() == r.Contents()
  {
    var p := r.Store(b).(end := Succ(r.end));
    if r.end + 1 == BUF_LEN {
      assert p.Contents() == r.buf[r.start..r.end] + [b];
    }
  }

  lemma SplitHead(s: seq<byte>, i: nat, j: nat)
    requires i < j <= |s|
    ensures s[i..j] == [s[i]] + s[i + 1..j]
  {
  }

  lemma SplitHeadOf(s: seq<byte>, i: nat, tail: seq<byte>)
    requires i < |s|
    ensures s[i..] + tail == [s[i]] + (s[i + 1..] + tail)
  {
    SplitHead(s, i, |s|);
  }

  lemma PopContents(r: Ring)
    requires r.Ok() && !r.Empty()
    ensures r.Contents() == [r.buf[r.start]] + r.(start := Succ(r.start)).Contents()
  {
    var next := Succ(r.start);
    if r.start < r.end {
      assert next == r.start + 1;
      SplitHead(r.buf, r.start, r.end);
    } else if next == 0 {
      SplitHeadOf(r.buf, r.start, r.buf[..r.end]);
      assert r.buf[r.start + 1..] == [] && [] + r.buf[..r.end] == r.buf[0..r.end];
    } else {
      assert next == r.start + 1;
      SplitHeadOf(r.buf, r.start, r.buf[..r.end]);
    }
  }

  /** The pointers determine how many bytes wait, and a full ring holds 63. */
  lemma ContentsLength(r: Ring)
    requires r.Ok()
    ensures |r.Contents()| == (r.end - r.start) % BUF_LEN <= 63
    ensures r.Full() <==> |r.Contents()| == 63
    ensures r.Empty() <==> r.Contents() == []
  {
  }

  // ---------------------------------------------------------------- transmit side

  predicate InCritical(pc: WPc) {
    pc.WSet? || pc.WPut? || pc.WUnlock?
  }

  predicate RInCritical(pc: RPc) {
    pc.RSet? || pc.RPut? || pc.RUnlock?
  }

  /** How many bytes of the current call have been made visible to the service routine. */
  function Committed(w: Writer): int {
    |w.data| - w.count - if w.pc == WAdvance then 1 else 0
  }

  /** TXDATA history followed by the ring is what the writer has accepted, and the accepted bytes
      of the current call are a prefix of its buffer. */
  predicate TxExact(s: System) {
    && s.u.Ok()
    && s.u.sent + s.u.tx.Contents() == s.accepted
    && 0 <= Committed(s.w) <= |s.w.data|
    && s.accepted == s.w.base + s.w.data[..Committed(s.w)]
  }

  /** Program points at which `next` has been computed for a byte that is still to be stored. */
  predicate Filling(pc: WPc) {
    match pc
    case WCheck | WWait | WStore => true
    case WLock(last) => !last
    case WSet(last) => !last
    case WPut(last) => !last
    case WUnlock(last) => !last
    case _ => false
  }

  /** Program points after the copy loop. */
  predicate Closing(pc: WPc) {
    match pc
    case WIdle => true
    case WLock(last) => last
    case WSet(last) => last
    case WPut(last) => last
    case WUnlock(last) => last
    case _ => false
  }

  predicate WriterOk(s: System)
    requires TxExact(s)
  {
    var w := s.w;
    && (Filling(w.pc) ==> w.count > 0 && w.next == Succ(s.u.tx.end))
    && (w.pc == WAdvance ==>
        w.next == Succ(s.u.tx.end) && s.u.tx.buf[s.u.tx.end] == w.data[Committed(w)])
    && (w.pc == WStore || w.pc == WAdvance ==> !s.u.tx.Full())
    && (Closing(w.pc) ==> (w.wouldBlock <==> w.count > 0))
    && (w.wouldBlock ==> w.noBlock && Closing(w.pc))
  }

  /** Interrupts are off exactly inside a critical section, and whenever they are on the shadow
      `ctrl` is the device's control register. */
  predicate CtrlOk(s: System) {
    && (s.irqOff == ByWriter <==> InCritical(s.w.pc))
    && (s.irqOff == ByReader <==> RInCritical(s.r.pc))
    && (!(s.w.pc.WPut? || s.r.pc.RPut?) ==> s.u.ctrl == s.u.dev)
  }

  /** Outside a write, and while a blocked write waits, unsent bytes keep the change of CTS enabled as
      an interrupt source, and without flow control the ready transmitter as well. */
  predicate WakeOk(s: System) {
    !s.u.tx.Empty() && (s.w.pc == WIdle || s.w.pc == WWait || s.w.pc.WPut? || s.w.pc.WUnlock?) ==>
      s.u.ctrl.dcts && (!s.u.fc ==> s.u.ctrl.trdy)
  }

  predicate TxInv(s: System) {
    TxExact(s) && WriterOk(s) && CtrlOk(s) && WakeOk(s)
  }

  lemma RxIrqKeepsTx(u: Uart, status: Status, rxData: byte)
    requires u.Ok()
    ensures var v := RxIrq(u, status, rxData);
      v.Ok() && v.tx == u.tx && v.sent == u.sent && v.fc == u.fc &&
      v.ctrl.trdy == u.ctrl.trdy && v.ctrl.dcts == u.ctrl.dcts && (u.ctrl == u.dev ==> v.ctrl == v.dev)
  {
  }

  /** The service routine moves at most the head of the ring to TXDATA. */
  lemma TxIrqMoves(u: Uart, status: Status, ctsAgain: bool)
    requires u.Ok()
    ensures var v := TxIrq(u, status, ctsAgain);
      && v.Ok() && v.rx == u.rx && v.taken == u.taken && v.fc == u.fc && v.dev == v.ctrl
      && v.ctrl.rrdy == u.ctrl.rrdy
      && v.sent + v.tx.Contents() == u.sent + u.tx.Contents()
      && v.tx.buf == u.tx.buf && v.tx.end == u.tx.end
      && (!u.tx.Full() ==> !v.tx.Full())
      && |v.tx.Contents()| == |u.tx.Contents()| - (if u.tx.Empty() || (u.fc && !status.cts) then 0 else 1)
  {
    if !u.tx.Empty() && (!u.fc || status.cts) {
      PopContents(u.tx);
      assert u.sent + u.tx.Contents() == u.sent + [u.tx.buf[u.tx.start]] + u.tx.(start := Succ(u.tx.start)).Contents();
    }
  }

  /** What the service routine leaves enabled: nothing of the transmitter once the ring is empty, and
      otherwise TRDY, unless CTS throttles it twice. */
  lemma TxIrqSources(u: Uart, status: Status, ctsAgain: bool)
    requires u.Ok()
    ensures var v := TxIrq(u, status, ctsAgain);
      && v.ctrl == v.dev && v.dev.rrdy == u.ctrl.rrdy && v.dev.rts == u.ctrl.rts
      && (v.tx.Empty() ==> !v.dev.trdy && !v.dev.dcts)
      && (!v.tx.Empty() ==>
          v.dev.dcts == u.ctrl.dcts && v.dev.trdy == (!u.fc || status.cts || (ctsAgain && u.ctrl.trdy)))
  {
  }

  lemma InterruptKeepsTx(s: System, input: IrqInput)
    requires TxInv(s) && s.irqOff == Nobody
    ensures TxInv(Apply(s, Interrupt(input)))
  {
    hide WriterStep, ReaderStep;
    var v := if input.status.rrdy then RxIrq(s.u, input.status, input.rxData) else s.u;
    RxIrqKeepsTx(s.u, input.status, input.rxData);
    if Transmits(input) {
      TxIrqMoves(v, input.status, input.ctsAgain);
    }
  }

  lemma StoreKeepsTx(s: System)
    requires TxInv(s) && s.w.pc == WStore && s.irqOff != ByReader
    ensures TxInv(WriterStep(s))
  {
    PushContents(s.u.tx, s.w.data[|s.w.data| - s.w.count]);
  }

  /** Publishing the byte stored behind the ring appends it. */
  lemma PublishContents(r: Ring)
    requires r.Ok() && !r.Full()
    ensures r.(end := Succ(r.end)).Contents() == r.Contents() + [r.buf[r.end]]
  {
    PushContents(r, r.buf[r.end]);
    assert r.Store(r.buf[r.end]) == r;
  }

  lemma AdvanceKeepsTx(s: System)
    requires TxInv(s) && s.w.pc == WAdvance && s.irqOff != ByReader
    ensures TxInv(WriterStep(s))
  {
    PublishContents(s.u.tx);
    var c, b := Committed(s.w), s.u.tx.buf[s.u.tx.end];
    assert s.w.data[..c] + [b] == s.w.data[..c + 1];
    assert s.u.sent + (s.u.tx.Contents() + [b]) == s.accepted + [b];
  }

  /** The remaining statements of `write` move no byte. */
  lemma ControlStepKeepsTx(s: System)
    requires TxInv(s) && IsControl(s.w.pc) && s.irqOff != ByReader
    ensures TxInv(WriterStep(s))
  {
    ControlKeepsExact(s);
    ControlKeepsCtrl(s);
    hide WriterStep, TxExact, WriterOk, CtrlOk, WakeOk;
  }

  predicate IsControl(pc: WPc) {
    pc != WIdle && pc != WStore && pc != WAdvance
  }

  lemma ControlKeepsExact(s: System)
    requires TxExact(s) && WriterOk(s) && IsControl(s.w.pc)
    ensures TxExact(WriterStep(s)) && WriterOk(WriterStep(s))
  {
    hide Ring.Contents, Succ;
    var t := WriterStep(s);
    assert t.u.tx == s.u.tx && t.u.sent == s.u.sent && t.accepted == s.accepted;
    assert t.w.data == s.w.data && t.w.base == s.w.base && t.w.count == s.w.count;
  }

  lemma ControlKeepsCtrl(s: System)
    requires s.u.Ok() && CtrlOk(s) && WakeOk(s) && IsControl(s.w.pc) && s.irqOff != ByReader
    ensures CtrlOk(WriterStep(s)) && WakeOk(WriterStep(s))
  {
    hide Ring.Contents;
    assert WriterStep(s).u.tx == s.u.tx;
  }

  /** The writer's side is kept by whatever leaves it alone. */
  lemma SameWriterSide(s: System, t: System)
    requires TxExact(s) && WriterOk(s) && t.u.Ok()
    requires t.u.tx == s.u.tx && t.w == s.w && t.u.sent == s.u.sent && t.accepted == s.accepted
    ensures TxExact(t) && WriterOk(t)
  {
    hide Ring.Contents, Filling, Closing;
  }

  lemma ReaderKeepsCtrl(s: System, e: Event)
    requires s.u.Ok() && CtrlOk(s) && WakeOk(s) && Enabled(s, e) && (e.CallRead? || e.StepReader?)
    ensures CtrlOk(Apply(s, e)) && WakeOk(Apply(s, e))
  {
    hide WriterStep, ReaderStep, Irq, Ring.Contents;
    if e.StepReader? {
      StepKeepsCtrl(s);
    }
  }

  lemma StepKeepsCtrl(s: System)
    requires s.u.Ok() && CtrlOk(s) && WakeOk(s) && s.r.pc != RIdle && s.irqOff != ByWriter
    ensures CtrlOk(ReaderStep(s)) && WakeOk(ReaderStep(s))
  {
    hide Ring.Contents, Succ;
    var t := ReaderStep(s);
    assert t.w == s.w && t.u.tx == s.u.tx && t.u.fc == s.u.fc;
  }

  lemma ReaderLeavesTx(s: System, e: Event)
    requires s.u.Ok() && Enabled(s, e) && (e.CallRead? || e.StepReader?)
    ensures var t := Apply(s, e);
      t.u.Ok() && t.u.tx == s.u.tx && t.w == s.w && t.u.sent == s.u.sent && t.accepted == s.accepted
  {
    hide WriterStep, Irq, Ring.Contents;
  }

  /** Neither the reader's statements nor a call move a transmit byte. */
  lemma OthersKeepTx(s: System, e: Event)
    requires TxInv(s) && Enabled(s, e) && (e.CallRead? || e.StepReader?)
    ensures TxInv(Apply(s, e))
  {
    hide Apply, WriterOk, CtrlOk, WakeOk;
    ReaderLeavesTx(s, e);
    SameWriterSide(s, Apply(s, e));
    ReaderKeepsCtrl(s, e);
  }

  lemma CallKeepsTx(s: System, e: Event)
    requires TxInv(s) && Enabled(s, e) && e.CallWrite?
    ensures TxInv(Apply(s, e))
  {
    hide WriterStep, ReaderStep, Irq;
    assert e.data[..0] == [];
  }

  lemma EventKeepsTx(s: System, e: Event)
    requires TxInv(s) && Enabled(s, e)
    ensures TxInv(Apply(s, e))
  {
    hide ReaderStep, Irq;
    if e.CallWrite? {
      CallKeepsTx(s, e);
    } else if e.CallRead? || e.StepReader? {
      OthersKeepTx(s, e);
    } else if e.Interrupt? {
      InterruptKeepsTx(s, e.input);
    } else if s.w.pc == WStore {
      StoreKeepsTx(s);
    } else if s.w.pc == WAdvance {
      AdvanceKeepsTx(s);
    } else {
      ControlStepKeepsTx(s);
    }
  }

  lemma {:induction false} RunKeepsTx(s: System, es: seq<Event>)
    requires TxInv(s) && CanExec(s, es)
    ensures TxInv(Exec(s, es))
    decreases |es|
  {
    if es != [] {
      EventKeepsTx(s, es[0]);
      RunKeepsTx(Apply(s, es[0]), es[1..]);
    }
  }

  /** Executing one run after another. */
  lemma {:induction false} ExecAppend(s: System, a: seq<Event>, b: seq<Event>)
    requires CanExec(s, a) && CanExec(Exec(s, a), b)
    ensures CanExec(s, a + b) && Exec(s, a + b) == Exec(Exec(s, a), b)
    decreases |a|
  {
    if a == [] {
      assert a + b == b;
    } else {
      assert (a + b)[1..] == a[1..] + b;
      ExecAppend(Apply(s, a[0]), a[1..], b);
    }
  }
}
