/**
 What comes to an end: interrupts stop when there is nothing left to do for them, and calls that
 nothing disturbs move as many bytes as there are or as there is room for.
 */
module UartCalls {
  import opened Bytes
  import opened UartModel
  import opened UartProofs
  import opened UartReceive
  import opened UartTheorems

  // ---------------------------------------------------------------- transmit interrupts

  /** In every run a transmit interrupt that leaves the ring empty leaves both of its sources masked
      at the device, and one that leaves bytes waiting keeps DCTS as it was and TRDY on, unless flow
      control throttles it. */
  lemma SourcesFollowRing(s: System, es: seq<Event>, input: IrqInput)
    requires Initial(s) && CanExec(s, es) && Exec(s, es).irqOff == Nobody && Transmits(input)
    ensures CanExec(s, es + [Interrupt(input)])
    ensures var t, v := Exec(s, es), Exec(s, es + [Interrupt(input)]);
      && (v.u.tx.Empty() ==> !v.u.dev.trdy && !v.u.dev.dcts)
      && (!v.u.tx.Empty() ==>
          v.u.dev.dcts == t.u.dev.dcts && v.u.dev.trdy == (Sends(s.u.fc, input) || (input.ctsAgain && t.u.dev.trdy)))
  {
    InitialSatisfiesInvariants(s);
    RunKeepsTx(s, es);
    FlowControlIsFixed(s, es);
    var t := Exec(s, es);
    assert CtrlOk(t) && t.u.Ok();
    IrqSources(t.u, input);
    EventKeepsTx(t, Interrupt(input));
    OneEvent(t, Interrupt(input));
    hide TxInv, Irq, Exec, CanExec;
    ExecAppend(s, es, [Interrupt(input)]);
  }

  lemma IrqSources(u: Uart, input: IrqInput)
    requires u.Ok() && u.ctrl == u.dev && Transmits(input)
    ensures var v := Irq(u, input);
      && v.Ok() && v.ctrl == v.dev && v.fc == u.fc
      && (v.tx.Empty() ==> !v.dev.trdy && !v.dev.dcts)
      && (!v.tx.Empty() ==>
          v.dev.dcts == u.dev.dcts && v.dev.trdy == (Sends(u.fc, input) || (input.ctsAgain && u.dev.trdy)))
      && |v.tx.Contents()| == |u.tx.Contents()| - (if u.tx.Empty() || !Sends(u.fc, input) then 0 else 1)
  {
    hide Ring.Contents, RxIrq, TxIrq;
    var w := if input.status.rrdy then RxIrq(u, input.status, input.rxData) else u;
    RxIrqKeepsTx(u, input.status, input.rxData);
    TxIrqMoves(w, input.status, input.ctsAgain);
    TxIrqSources(w, input.status, input.ctsAgain);
  }

  predicate Transmission(e: Event) {
    e.Interrupt? && !e.input.status.rrdy
  }

  /** How many transmit interrupts a device without flow control can still request. */
  function Pending(u: Uart): nat
    requires u.Ok()
  {
    if !u.tx.Empty() then |u.tx.Contents()| else if u.dev.trdy || u.dev.dcts then 1 else 0
  }

  /** No interrupt storm: without flow control the device requests no more transmit interrupts than
      bytes wait in the ring, one if it is empty, and none once that one has masked the sources. */
  lemma {:induction false} NoStorm(s: System, es: seq<Event>)
    requires TxInv(s) && s.irqOff == Nobody && !s.u.fc
    requires CanExec(s, es) && AllRaised(s, es) && forall i :: 0 <= i < |es| ==> Transmission(es[i])
    ensures |es| <= Pending(s.u) <= |s.u.tx.Contents()| + 1
    decreases |es|
  {
    ContentsLength(s.u.tx);
    if es != [] {
      assert Transmission(es[0]) && CtrlOk(s) && s.u.Ok();
      RaisedPending(s.u, es[0].input);
      var t := Apply(s, es[0]);
      EventKeepsTx(s, es[0]);
      hide TxInv, Irq, Pending;
      NoStorm(t, es[1..]);
    }
  }

  /** An interrupt that is requested leaves one less to be requested. */
  lemma RaisedPending(u: Uart, input: IrqInput)
    requires u.Ok() && u.ctrl == u.dev && !u.fc && !input.status.rrdy && Raised(u, input)
    ensures var v := Irq(u, input); v.Ok() && v.fc == u.fc && Pending(v) < Pending(u)
  {
    assert Transmits(input) && Sends(u.fc, input);
    IrqSources(u, input);
    ContentsLength(u.tx);
    ContentsLength(Irq(u, input).tx);
    hide Irq, Ring.Contents;
  }

  // ---------------------------------------------------------------- every run

  predicate Asserted(u: Uart) {
    u.ctrl.rts && u.dev.rts
  }

  /** A non-blocking write is at no statement of the branch that waits. */
  predicate WPrompt(w: Writer) {
    w.noBlock && Filling(w.pc) ==> w.pc == WCheck || w.pc == WStore
  }

  predicate RPrompt(r: Reader) {
    r.noBlock ==> !RBlocking(r.pc)
  }

  /** RTS stays asserted; a non-blocking call never waits. */
  predicate Prompt(s: System) {
    Asserted(s.u) && WPrompt(s.w) && RPrompt(s.r)
  }

  lemma IrqKeepsRts(u: Uart, input: IrqInput)
    requires u.Ok() && Asserted(u)
    ensures Asserted(Irq(u, input))
  {
    var w := if input.status.rrdy then RxIrq(u, input.status, input.rxData) else u;
    TxIrqSources(w, input.status, input.ctsAgain);
    hide TxIrq;
  }

  lemma WriterKeepsPrompt(s: System)
    requires s.u.Ok() && Prompt(s) && s.w.pc != WIdle
    ensures Prompt(WriterStep(s))
  {
    hide Ring.Contents;
  }

  lemma ReaderKeepsPrompt(s: System)
    requires s.u.Ok() && Prompt(s) && s.r.pc != RIdle
    ensures Prompt(ReaderStep(s))
  {
    hide Ring.Contents;
  }

  lemma EventKeepsPrompt(s: System, e: Event)
    requires s.u.Ok() && Prompt(s) && Enabled(s, e)
    ensures Prompt(Apply(s, e))
  {
    hide WriterStep, ReaderStep, Irq, Ring.Contents;
    match e {
      case CallWrite(_, _) =>
      case StepWriter => WriterKeepsPrompt(s);
      case CallRead(_, _) =>
      case StepReader => ReaderKeepsPrompt(s);
      case Interrupt(input) => IrqKeepsRts(s.u, input);
    }
  }

  lemma {:induction false} RunKeepsPrompt(s: System, es: seq<Event>)
    requires Prompt(s) && CanExec(s, es)
    ensures Prompt(Exec(s, es))
    decreases |es|
  {
    if es != [] {
      EventKeepsPrompt(s, es[0]);
      hide Prompt, Apply, Enabled;
      RunKeepsPrompt(Apply(s, es[0]), es[1..]);
    }
  }

  /** In every run RTS stays asserted at the device, and a non-blocking write or read never comes to
      the statements that wait. */
  lemma NonBlockingNeverWaits(s: System, es: seq<Event>)
    requires Initial(s) && CanExec(s, es)
    ensures var t := Exec(s, es);
      && t.u.ctrl.rts && t.u.dev.rts
      && (t.w.noBlock ==> t.w.pc != WWait && t.w.pc != WLock(false))
      && (t.r.noBlock ==> t.r.pc != RLock(false))
  {
    assert Prompt(s);
    RunKeepsPrompt(s, es);
  }

  // ---------------------------------------------------------------- undisturbed writes

  function Copies(e: Event, n: nat): (es: seq<Event>)
    ensures |es| == n && forall i :: 0 <= i < n ==> es[i] == e
  {
    seq(n, _ => e)
  }

  /** `n` statements of one thread, and nothing else, lead from `s` to `t`. */
  predicate Reaches(s: System, e: Event, n: nat, t: System) {
    CanExec(s, Copies(e, n)) && Exec(s, Copies(e, n)) == t
  }

  lemma ReachesNext(s: System, e: Event, n: nat, t: System)
    requires s.u.Ok() && Enabled(s, e) && Reaches(Apply(s, e), e, n, t)
    ensures Reaches(s, e, n + 1, t)
  {
    hide Apply, Enabled;
    ExecFirst(s, e, Copies(e, n));
    assert [e] + Copies(e, n) == Copies(e, n + 1);
  }

  lemma ReachesItself(s: System, e: Event)
    requires s.u.Ok()
    ensures Reaches(s, e, 0, s)
  {
  }

  function Least(a: int, b: int): int {
    if a < b then a else b
  }

  /** The bytes that still fit into the ring. */
  function Room(r: Ring): int
    requires r.Ok()
  {
    63 - |r.Contents()|
  }

  /** What a writer's statement leaves alone. */
  predicate SameCall(s: System, t: System) {
    && t.irqOff == Nobody && t.w.data == s.w.data && t.w.base == s.w.base && t.w.noBlock == s.w.noBlock
    && t.u.sent == s.u.sent && t.r == s.r && t.u.rx == s.u.rx
  }

  /** The writer has come to the end of its call, with `left` bytes left over. */
  predicate Wrote(s: System, t: System, left: int) {
    TxInv(t) && SameCall(s, t) && t.w.pc == WIdle && t.w.count == left && t.u.dev.trdy && t.u.dev.dcts
  }

  /** The second half of the writer's critical section */
  lemma TransmitPut(b: System)
    requires b.u.Ok() && b.irqOff == ByWriter && b.w.pc == WPut(true)
    ensures Reaches(b, StepWriter, 2, b.(u := b.u.(dev := b.u.ctrl), irqOff := Nobody, w := b.w.(pc := WIdle)))
  {
    hide ReaderStep, Reaches, Irq, Ring.Contents;
    var c := b.(u := b.u.(dev := b.u.ctrl), w := b.w.(pc := WUnlock(true)));
    var t := c.(irqOff := Nobody, w := b.w.(pc := WIdle));
    assert Enabled(b, StepWriter) && Enabled(c, StepWriter);
    assert c == Apply(b, StepWriter) && t == Apply(c, StepWriter);
    hide WriterStep, Apply, Enabled;
    ReachesItself(t, StepWriter);
    ReachesNext(c, StepWriter, 0, t);
    ReachesNext(b, StepWriter, 1, t);
  }

  lemma TransmitEnabledIs(s: System)
    requires s.u.Ok() && s.irqOff == Nobody && s.w.pc == WLock(true)
    ensures Reaches(s, StepWriter, 4, TransmitEnabled(s, true))
  {
    hide ReaderStep, Reaches, Irq, Ring.Contents;
    var a := s.(irqOff := ByWriter, w := s.w.(pc := WSet(true)));
    var b := a.(u := a.u.(ctrl := s.u.ctrl.(trdy := true, dcts := true)), w := s.w.(pc := WPut(true)));
    assert Enabled(s, StepWriter) && Enabled(a, StepWriter);
    assert a == Apply(s, StepWriter) && b == Apply(a, StepWriter);
    hide WriterStep, Apply, Enabled;
    TransmitPut(b);
    var t := TransmitEnabled(s, true);
    ReachesNext(a, StepWriter, 2, t);
    ReachesNext(s, StepWriter, 3, t);
  }

  lemma FinishWrite(s: System)
    requires TxInv(s) && s.irqOff == Nobody && s.w.pc == WLock(true)
    ensures Reaches(s, StepWriter, 4, TransmitEnabled(s, true)) && Wrote(s, TransmitEnabled(s, true), s.w.count)
  {
    TransmitEnabledIs(s);
    hide Ring.Contents, Reaches;
  }

  lemma ThenWriter(s: System, n: nat, t: System)
    requires s.u.Ok() && s.irqOff == Nobody && s.w.pc != WIdle && Reaches(WriterStep(s), StepWriter, n, t)
    ensures Reaches(s, StepWriter, n + 1, t)
  {
    assert Apply(s, StepWriter) == WriterStep(s);
    hide WriterStep, Apply, Reaches;
    ReachesNext(s, StepWriter, n, t);
  }

  /** The copy loop ends when everything is stored, or the ring is full and the call may not wait. */
  lemma EndOfLoop(s: System) returns (n: nat, t: System)
    requires TxInv(s) && s.irqOff == Nobody && s.w.pc == WTest && (s.w.count == 0 || (s.u.tx.Full() && s.w.noBlock))
    ensures Reaches(s, StepWriter, n, t) && Wrote(s, t, s.w.count)
  {
    var a := WriterStep(s);
    EventKeepsTx(s, StepWriter);
    if s.w.count == 0 {
      FinishWrite(a);
      n, t := 5, TransmitEnabled(a, true);
    } else {
      EventKeepsTx(a, StepWriter);
      var b := WriterStep(a);
      FinishWrite(b);
      n, t := 6, TransmitEnabled(b, true);
      assert a.u.Ok() && a.irqOff == Nobody && a.w.pc != WIdle;
      hide WriterStep, Reaches, TxInv, TransmitEnabled;
      ThenWriter(a, 4, t);
    }
    hide WriterStep, Reaches, TxInv, TransmitEnabled;
    ThenWriter(s, n - 1, t);
  }

  lemma TwoSteps(s: System, n: nat, v: System)
    requires s.u.Ok() && s.irqOff == Nobody && s.w.pc != WIdle
    requires var a := WriterStep(s); a.u.Ok() && a.irqOff == Nobody && a.w.pc != WIdle
    requires Reaches(WriterStep(WriterStep(s)), StepWriter, n, v)
    ensures Reaches(s, StepWriter, n + 2, v)
  {
    hide WriterStep, Reaches;
    ThenWriter(WriterStep(s), n, v);
    ThenWriter(s, n + 1, v);
  }

  lemma SpaceFound(s: System)
    requires TxInv(s) && s.irqOff == Nobody && s.w.pc == WTest && s.w.count > 0 && !s.u.tx.Full()
    ensures var a, b := WriterStep(s), WriterStep(WriterStep(s));
      && a.u.Ok() && a.irqOff == Nobody && a.w.pc != WIdle
      && b == s.(w := s.w.(pc := WStore, next := Succ(s.u.tx.end))) && TxInv(b)
  {
    EventKeepsTx(s, StepWriter);
    EventKeepsTx(WriterStep(s), StepWriter);
    hide TxInv;
  }

  lemma ByteStored(b: System)
    requires TxInv(b) && b.irqOff == Nobody && b.w.pc == WStore
    ensures var c, t := WriterStep(b), WriterStep(WriterStep(b));
      && c.u.Ok() && c.irqOff == Nobody && c.w.pc != WIdle
      && TxInv(t) && SameCall(b, t) && t.w.pc == WTest && t.w.count == b.w.count - 1
      && |t.u.tx.Contents()| == |b.u.tx.Contents()| + 1
  {
    var c := WriterStep(b);
    EventKeepsTx(b, StepWriter);
    EventKeepsTx(c, StepWriter);
    PushContents(b.u.tx, b.w.data[|b.w.data| - b.w.count]);
    hide Ring.Contents;
  }

  /** One byte into a ring that has room. */
  lemma OneRound(s: System) returns (t: System)
    requires TxInv(s) && s.irqOff == Nobody && s.w.pc == WTest && s.w.count > 0 && !s.u.tx.Full()
    ensures TxInv(t) && SameCall(s, t) && t.w.pc == WTest && t.w.count == s.w.count - 1
    ensures |t.u.tx.Contents()| == |s.u.tx.Contents()| + 1
    ensures forall n: nat, v :: Reaches(t, StepWriter, n, v) ==> Reaches(s, StepWriter, n + 4, v)
  {
    var b := WriterStep(WriterStep(s));
    t := WriterStep(WriterStep(b));
    SpaceFound(s);
    ByteStored(b);
    hide TxInv, WriterStep, Reaches, Ring.Contents;
    forall n: nat, v | Reaches(t, StepWriter, n, v)
      ensures Reaches(s, StepWriter, n + 4, v)
    {
      TwoSteps(b, n, v);
      TwoSteps(s, n + 2, v);
    }
  }

  lemma {:induction false} WriteRounds(s: System) returns (n: nat, t: System)
    requires TxInv(s) && s.irqOff == Nobody && s.w.pc == WTest
    requires s.w.noBlock || s.w.count <= Room(s.u.tx)
    ensures Reaches(s, StepWriter, n, t) && Wrote(s, t, s.w.count - Least(s.w.count, Room(s.u.tx)))
    decreases s.w.count
  {
    assert s.u.Ok() && s.w.count >= 0;
    ContentsLength(s.u.tx);
    hide TxInv, Reaches, Ring.Contents;
    if s.w.count == 0 || s.u.tx.Full() {
      n, t := EndOfLoop(s);
    } else {
      var r := OneRound(s);
      n, t := WriteRounds(r);
      n := n + 4;
    }
  }

  /** A write that nothing disturbs, not even an interrupt, accepts as many bytes as there is room
      for, in order, and reports EWOULDBLOCK exactly if that is not all; it leaves the transmit
      interrupts enabled. A blocking one is not disturbed if all fits. */
  lemma UndisturbedWrite(s: System, data: seq<byte>, noBlock: bool) returns (n: nat, t: System)
    requires TxInv(s) && s.irqOff == Nobody && s.w.pc == WIdle
    requires noBlock || |data| <= Room(s.u.tx)
    ensures Enabled(s, CallWrite(data, noBlock)) && Reaches(Apply(s, CallWrite(data, noBlock)), StepWriter, n, t)
    ensures var k := Least(|data|, Room(s.u.tx));
      && t.w.pc == WIdle && t.u.Ok() && t.u.sent == s.u.sent
      && t.accepted == s.accepted + data[..k] && t.u.tx.Contents() == s.u.tx.Contents() + data[..k]
      && (t.w.wouldBlock <==> k < |data|) && t.u.dev.trdy && t.u.dev.dcts
  {
    var e := CallWrite(data, noBlock);
    EventKeepsTx(s, e);
    n, t := WriteRounds(Apply(s, e));
    ContentsLength(s.u.tx);
    hide Ring.Contents, Reaches;
    SentFirst(s.u.sent, s.u.tx.Contents(), t.u.tx.Contents(), data[..Least(|data|, Room(s.u.tx))]);
  }

  lemma SentFirst(sent: seq<byte>, ring: seq<byte>, after: seq<byte>, more: seq<byte>)
    requires sent + after == (sent + ring) + more
    ensures after == ring + more
  {
    assert after == (sent + after)[|sent|..] == ((sent + ring) + more)[|sent|..];
  }

  // ---------------------------------------------------------------- undisturbed reads

  predicate BothInv(s: System) {
    TxInv(s) && RxInv(s)
  }

  /** What a reader's statement leaves alone. */
  predicate SameRead(s: System, t: System) {
    && t.irqOff == Nobody && t.r.len == s.r.len && t.r.base == s.r.base && t.r.noBlock == s.r.noBlock
    && t.u.taken == s.u.taken && t.w == s.w && t.u.tx == s.u.tx
  }

  /** The reader has come to the end of its call, with `count` bytes in the buffer. */
  predicate Has(s: System, t: System, count: int, wouldBlock: bool) {
    && BothInv(t) && SameRead(s, t)
    && t.r.pc == RIdle && |t.r.out| == count && t.r.wouldBlock == wouldBlock && t.u.dev.rrdy
  }

  lemma ReaderKeepsBoth(s: System)
    requires BothInv(s) && s.irqOff != ByWriter && s.r.pc != RIdle
    ensures BothInv(ReaderStep(s))
  {
    EventKeepsTx(s, StepReader);
    EventKeepsRx(s, StepReader);
  }

  /** The second half of the reader's critical section */
  lemma ReceivePut(b: System)
    requires b.u.Ok() && b.irqOff == ByReader && b.r.pc == RPut(true)
    ensures Reaches(b, StepReader, 2, b.(u := b.u.(dev := b.u.ctrl), irqOff := Nobody, r := b.r.(pc := RIdle)))
  {
    hide WriterStep, Reaches, Irq, Ring.Contents;
    var c := b.(u := b.u.(dev := b.u.ctrl), r := b.r.(pc := RUnlock(true)));
    var t := c.(irqOff := Nobody, r := b.r.(pc := RIdle));
    assert Enabled(b, StepReader) && Enabled(c, StepReader);
    assert c == Apply(b, StepReader) && t == Apply(c, StepReader);
    hide ReaderStep, Apply, Enabled;
    ReachesItself(t, StepReader);
    ReachesNext(c, StepReader, 0, t);
    ReachesNext(b, StepReader, 1, t);
  }

  lemma ReceiveEnabledIs(s: System)
    requires s.u.Ok() && s.irqOff == Nobody && s.r.pc == RLock(true)
    ensures Reaches(s, StepReader, 4, ReceiveEnabled(s, true))
  {
    hide WriterStep, Reaches, Irq, Ring.Contents;
    var a := s.(irqOff := ByReader, r := s.r.(pc := RSet(true)));
    var b := a.(u := a.u.(ctrl := s.u.ctrl.(rrdy := true)), r := s.r.(pc := RPut(true)));
    assert Enabled(s, StepReader) && Enabled(a, StepReader);
    assert a == Apply(s, StepReader) && b == Apply(a, StepReader);
    hide ReaderStep, Apply, Enabled;
    ReceivePut(b);
    var t := ReceiveEnabled(s, true);
    ReachesNext(a, StepReader, 2, t);
    ReachesNext(s, StepReader, 3, t);
  }

  lemma FinishRead(s: System)
    requires BothInv(s) && s.irqOff == Nobody && s.r.pc == RLock(true)
    ensures Reaches(s, StepReader, 4, ReceiveEnabled(s, true))
    ensures Has(s, ReceiveEnabled(s, true), |s.r.out|, s.r.wouldBlock)
  {
    ReceiveEnabledIs(s);
    hide Ring.Contents, Reaches;
  }

  lemma Then(s: System, n: nat, t: System)
    requires s.u.Ok() && s.irqOff == Nobody && s.r.pc != RIdle && Reaches(ReaderStep(s), StepReader, n, t)
    ensures Reaches(s, StepReader, n + 1, t)
  {
    assert Apply(s, StepReader) == ReaderStep(s);
    hide ReaderStep, Apply, Reaches;
    ReachesNext(s, StepReader, n, t);
  }

  /** The way from the end of the inner loop to the closing critical section. */
  lemma ToTheLock(s: System) returns (n: nat, b: System)
    requires BothInv(s) && s.irqOff == Nobody && s.r.pc == REmpty && !s.r.wouldBlock
    requires s.r.out == [] ==> (s.u.rx.Empty() && s.r.noBlock) || (!s.u.rx.Empty() && s.r.len == 0)
    ensures b == s.(r := s.r.(pc := RLock(true), wouldBlock := s.r.out == [] && s.u.rx.Empty())) && BothInv(b)
    ensures forall m: nat, t :: Reaches(b, StepReader, m, t) ==> Reaches(s, StepReader, n + m, t)
  {
    var a := ReaderStep(s);
    ReaderKeepsBoth(s);
    n, b := 1, a;
    assert s.u.Ok() && a.u.Ok() && a.irqOff == Nobody && a.r.pc != RIdle;
    hide BothInv, Ring.Contents, Reaches;
    if a.r.pc == RLoop {
      n, b := 2, ReaderStep(a);
      ReaderKeepsBoth(a);
    }
    assert b == s.(r := s.r.(pc := RLock(true), wouldBlock := s.r.out == [] && s.u.rx.Empty()));
    hide ReaderStep;
    forall m: nat, t | Reaches(b, StepReader, m, t)
      ensures Reaches(s, StepReader, n + m, t)
    {
      if n == 2 {
        Then(a, m, t);
      }
      Then(s, n + m - 1, t);
    }
  }

  /** What follows the inner loop, when the call need not wait. */
  lemma AfterInner(s: System) returns (n: nat, t: System)
    requires BothInv(s) && s.irqOff == Nobody && s.r.pc == REmpty && !s.r.wouldBlock
    requires s.r.out == [] ==> (s.u.rx.Empty() && s.r.noBlock) || (!s.u.rx.Empty() && s.r.len == 0)
    ensures Reaches(s, StepReader, n, t) && Has(s, t, |s.r.out|, s.r.out == [] && s.u.rx.Empty())
  {
    assert s.u.Ok();
    var b;
    n, b := ToTheLock(s);
    hide BothInv, Reaches, Ring.Contents;
    FinishRead(b);
    t := ReceiveEnabled(b, true);
    hide ReceiveEnabled;
    n := n + 4;
  }

  /** One byte out of the ring. */
  lemma TakeRound(s: System) returns (t: System)
    requires BothInv(s) && s.irqOff == Nobody && s.r.pc == RInner && |s.r.out| < s.r.len && !s.u.rx.Empty()
    ensures BothInv(t) && SameRead(s, t) && t.r.pc == RInner && !t.r.wouldBlock
    ensures |t.r.out| == |s.r.out| + 1 && |t.u.rx.Contents()| == |s.u.rx.Contents()| - 1
    ensures forall n: nat, v :: Reaches(t, StepReader, n, v) ==> Reaches(s, StepReader, n + 3, v)
  {
    var a := ReaderStep(s);
    var b := ReaderStep(a);
    t := ReaderStep(b);
    TakeKeepsBoth(s);
    PopContents(s.u.rx);
    assert a.u.Ok() && b.u.Ok() && t.r.pc == RInner;
    hide BothInv, ReaderStep, Reaches, Ring.Contents;
    forall n: nat, v | Reaches(t, StepReader, n, v)
      ensures Reaches(s, StepReader, n + 3, v)
    {
      Then(b, n, v);
      Then(a, n + 1, v);
      Then(s, n + 2, v);
    }
  }

  lemma TakeKeepsBoth(s: System)
    requires BothInv(s) && s.irqOff == Nobody && s.r.pc == RInner && |s.r.out| < s.r.len && !s.u.rx.Empty()
    ensures var a, b := ReaderStep(s), ReaderStep(ReaderStep(s));
      && a.u.Ok() && a.irqOff == Nobody && a.r.pc == RTake && b.u.Ok() && b.irqOff == Nobody && b.r.pc == RAdvance
      && BothInv(ReaderStep(b)) && !s.r.wouldBlock
  {
    ReaderKeepsBoth(s);
    var a := ReaderStep(s);
    ReaderKeepsBoth(a);
    var b := ReaderStep(a);
    ReaderKeepsBoth(b);
    hide Ring.Contents;
  }

  lemma {:induction false} ReadRounds(s: System) returns (n: nat, t: System)
    requires BothInv(s) && s.irqOff == Nobody && s.r.pc == RInner && 0 <= |s.r.out| <= s.r.len
    requires s.r.out != [] || s.r.noBlock || !s.u.rx.Empty()
    ensures Reaches(s, StepReader, n, t)
    ensures Has(s, t, |s.r.out| + Least(s.r.len - |s.r.out|, |s.u.rx.Contents()|), s.r.out == [] && s.u.rx.Empty())
    decreases s.r.len - |s.r.out|
  {
    assert s.u.Ok() && !s.r.wouldBlock;
    ContentsLength(s.u.rx);
    if |s.r.out| < s.r.len && !s.u.rx.Empty() {
      var r := TakeRound(s);
      ContentsLength(r.u.rx);
      assert r.u.Ok();
      hide BothInv, Reaches, Ring.Contents, ReaderStep;
      n, t := ReadRounds(r);
      n := n + 3;
    } else {
      ReaderKeepsBoth(s);
      var a := ReaderStep(s);
      assert a.r.pc == REmpty;
      n, t := AfterInner(a);
      hide BothInv, Reaches, Ring.Contents, ReaderStep;
      Then(s, n, t);
      n := n + 1;
    }
  }

  /** A read that nothing disturbs, not even an interrupt, returns as many bytes as wait or as were
      asked for, from the head of the ring and in order; it reports EWOULDBLOCK exactly if none wait,
      and leaves the receive interrupt enabled. A blocking one is not disturbed if a byte waits. */
  lemma UndisturbedRead(s: System, len: nat, noBlock: bool) returns (n: nat, t: System)
    requires TxInv(s) && RxInv(s) && s.irqOff == Nobody && s.r.pc == RIdle
    requires noBlock || !s.u.rx.Empty()
    ensures Enabled(s, CallRead(len, noBlock)) && Reaches(Apply(s, CallRead(len, noBlock)), StepReader, n, t)
    ensures var k := Least(len, |s.u.rx.Contents()|);
      && t.r.pc == RIdle && t.u.Ok() && t.r.out == s.u.rx.Contents()[..k]
      && t.delivered == s.delivered + t.r.out && t.u.rx.Contents() == s.u.rx.Contents()[k..]
      && (t.r.wouldBlock <==> s.u.rx.Contents() == []) && t.u.dev.rrdy
  {
    var e := CallRead(len, noBlock);
    EventKeepsTx(s, e);
    EventKeepsRx(s, e);
    var a := Apply(s, e);
    n, t := ReadRounds(a);
    ContentsLength(s.u.rx);
    assert t.delivered == s.delivered + t.r.out && t.delivered + t.u.rx.Contents() == s.u.taken;
    hide Reaches, Ring.Contents, TxInv;
    HeadTaken(s.delivered, s.u.rx.Contents(), t.r.out, t.u.rx.Contents());
  }

  lemma HeadTaken(delivered: seq<byte>, ring: seq<byte>, out: seq<byte>, after: seq<byte>)
    requires (delivered + out) + after == delivered + ring
    ensures |out| <= |ring| && out == ring[..|out|] && after == ring[|out|..]
  {
    var all := delivered + ring;
    assert ring == all[|delivered|..] == ((delivered + out) + after)[|delivered|..] == out + after;
  }
}
