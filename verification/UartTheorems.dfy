/** The driver's guarantees, stated for every run that starts where initialisation ends. */
module UartTheorems {
  import opened Bytes
  import opened UartModel
  import opened UartProofs
  import opened UartReceive

  lemma InitialSatisfiesInvariants(s: System)
    requires Initial(s)
    ensures TxInv(s) && RxInv(s) && MaskOk(s) && RoomInv(s) && RxWakeOk(s)
  {
  }

  /** In every interleaving TXDATA followed by the ring is exactly what has been accepted, at most
      63 bytes wait, and a finished write has accepted a prefix of its buffer: all of it unless it
      was non-blocking and reports EWOULDBLOCK. */
  lemma TransmitIsExact(s: System, es: seq<Event>)
    requires Initial(s) && CanExec(s, es)
    ensures var t := Exec(s, es);
      && t.u.Ok()
      && t.u.sent + t.u.tx.Contents() == t.accepted
      && |t.u.tx.Contents()| <= 63
      && (t.w.pc == WIdle ==>
          && 0 <= t.w.count <= |t.w.data|
          && t.accepted == t.w.base + t.w.data[..|t.w.data| - t.w.count]
          && (t.w.wouldBlock <==> t.w.count > 0)
          && (!t.w.noBlock ==> t.accepted == t.w.base + t.w.data))
  {
    InitialSatisfiesInvariants(s);
    RunKeepsTx(s, es);
    var t := Exec(s, es);
    ContentsLength(t.u.tx);
    assert t.w.data[..|t.w.data|] == t.w.data;
  }

  /** In every interleaving without an overflow, the reads' buffers followed by the ring are the
      bytes taken from RXDATA, and a finished read returned nothing only if it was non-blocking
      (EWOULDBLOCK) or was asked for nothing. */
  lemma ReceiveIsExact(s: System, es: seq<Event>)
    requires Initial(s) && CanExec(s, es) && NeverOverflows(s, es)
    ensures var t := Exec(s, es);
      && t.u.Ok()
      && t.delivered + t.u.rx.Contents() == t.u.taken
      && |t.u.rx.Contents()| <= 63
      && (t.r.pc == RIdle ==>
          && t.delivered == t.r.base + t.r.out
          && (t.r.out == [] ==> t.r.len == 0 || (t.r.noBlock && t.r.wouldBlock))
          && (t.r.wouldBlock ==> t.r.out == []))
  {
    InitialSatisfiesInvariants(s);
    RunKeepsRx(s, es);
    ContentsLength(Exec(s, es).u.rx);
  }

  /** No transmit wakeup is lost: with interrupts on, the shadow register is the device's, and unsent
      bytes keep DCTS enabled, and TRDY too without flow control, whenever no write is in progress or
      a write is blocked on a full ring. */
  lemma NoLostWakeup(s: System, es: seq<Event>)
    requires Initial(s) && CanExec(s, es)
    ensures var t := Exec(s, es);
      && (t.irqOff == Nobody ==> t.u.ctrl == t.u.dev)
      && (t.irqOff == Nobody && !t.u.tx.Empty() && (t.w.pc == WIdle || t.w.pc == WWait) ==>
          t.u.dev.dcts && (!s.u.fc ==> t.u.dev.trdy))
  {
    InitialSatisfiesInvariants(s);
    RunKeepsTx(s, es);
    FlowControlIsFixed(s, es);
  }

  /** Nor is a receive wakeup as long as nothing overflows: RRDY is masked at the device only while
      the ring is full or a read that has taken bytes is in progress, so a read that is blocked on an
      empty ring is woken by the next byte. */
  lemma NoLostReceiveWakeup(s: System, es: seq<Event>)
    requires Initial(s) && CanExec(s, es) && NeverOverflows(s, es)
    ensures var t := Exec(s, es);
      && (t.irqOff == Nobody && !t.u.dev.rrdy ==> t.u.rx.Full() || (t.r.pc != RIdle && t.r.out != []))
      && (t.irqOff == Nobody && t.u.rx.Empty() && (t.r.pc == RIdle || t.r.out == []) ==> t.u.dev.rrdy)
  {
    InitialSatisfiesInvariants(s);
    RunKeepsTx(s, es);
    RunKeepsRx(s, es);
    RunKeepsRxWake(s, es);
    ContentsLength(Exec(s, es).u.rx);
  }

  lemma StepKeepsFlowControl(s: System, e: Event)
    requires s.u.Ok() && Enabled(s, e)
    ensures Apply(s, e).u.fc == s.u.fc
  {
    hide Ring.Contents, RxIrq;
    if e.Interrupt? {
      hide WriterStep, ReaderStep;
      RxIrqKeepsTx(s.u, e.input.status, e.input.rxData);
    }
  }

  lemma {:induction false} FlowControlIsFixed(s: System, es: seq<Event>)
    requires CanExec(s, es)
    ensures Exec(s, es).u.fc == s.u.fc
    decreases |es|
  {
    if es != [] {
      StepKeepsFlowControl(s, es[0]);
      hide Apply, Enabled;
      FlowControlIsFixed(Apply(s, es[0]), es[1..]);
    }
  }

  // ---------------------------------------------------------------- reachable states

  /** Some run leads from initialisation to `s`; one without an overflow when `lossless`. */
  ghost predicate Reachable(s: System, lossless: bool) {
    exists s0, es :: Initial(s0) && Leads(s0, es, s, lossless)
  }

  predicate Leads(s0: System, es: seq<Event>, s: System, lossless: bool) {
    CanExec(s0, es) && Exec(s0, es) == s && (lossless ==> NeverOverflows(s0, es))
  }

  lemma ReachableInitially(s: System)
    requires Initial(s)
    ensures Reachable(s, true)
  {
    assert Leads(s, [], s, true);
  }

  lemma {:induction false} NeverOverflowsAppend(s: System, a: seq<Event>, b: seq<Event>)
    requires CanExec(s, a) && CanExec(Exec(s, a), b) && CanExec(s, a + b)
    ensures NeverOverflows(s, a) && NeverOverflows(Exec(s, a), b) ==> NeverOverflows(s, a + b)
    decreases |a|
  {
    if a == [] {
      assert a + b == b;
    } else {
      assert (a + b)[1..] == a[1..] + b;
      NeverOverflowsAppend(Apply(s, a[0]), a[1..], b);
    }
  }

  lemma OneEvent(s: System, e: Event)
    requires s.u.Ok() && Enabled(s, e) && Apply(s, e).u.Ok()
    ensures CanExec(s, [e]) && Exec(s, [e]) == Apply(s, e)
    ensures NeverOverflows(s, [e]) <==> !Overflows(s, e)
  {
    hide Apply, Overflows;
    assert [e][1..] == [];
  }

  lemma ReachableNext(s: System, e: Event, lossless: bool)
    requires Reachable(s, lossless) && s.u.Ok() && Enabled(s, e) && Apply(s, e).u.Ok()
    ensures Reachable(Apply(s, e), lossless && !Overflows(s, e))
  {
    var s0, es :| Initial(s0) && Leads(s0, es, s, lossless);
    OneEvent(s, e);
    hide Apply, Overflows, Initial, CanExec, Exec, NeverOverflows;
    ExecAppend(s0, es, [e]);
    NeverOverflowsAppend(s0, es, [e]);
    assert Leads(s0, es + [e], Apply(s, e), lossless && !Overflows(s, e));
  }

  /** The state behind the writer's critical section. */
  function TransmitEnabled(s: System, last: bool): System {
    var on := s.u.ctrl.(trdy := true, dcts := true);
    s.(u := s.u.(ctrl := on, dev := on), w := s.w.(pc := if last then WIdle else WWait))
  }

  lemma ReachableTransmitEnabled(s: System, last: bool, lossless: bool)
    requires Reachable(s, lossless) && s.u.Ok() && s.irqOff == Nobody && s.w.pc == WLock(last)
    ensures Reachable(TransmitEnabled(s, last), lossless)
  {
    hide Reachable;
    var s1 := Apply(s, StepWriter);
    var s2 := Apply(s1, StepWriter);
    var s3 := Apply(s2, StepWriter);
    ReachableNext(s, StepWriter, lossless);
    ReachableNext(s1, StepWriter, lossless);
    ReachableNext(s2, StepWriter, lossless);
    ReachableNext(s3, StepWriter, lossless);
  }

  /** The state behind the reader's critical section. */
  function ReceiveEnabled(s: System, last: bool): System {
    var on := s.u.ctrl.(rrdy := true);
    s.(u := s.u.(ctrl := on, dev := on), r := s.r.(pc := if last then RIdle else RLoop))
  }

  lemma ReachableReceiveEnabled(s: System, last: bool, lossless: bool)
    requires Reachable(s, lossless) && s.u.Ok() && s.irqOff == Nobody && s.r.pc == RLock(last)
    ensures Reachable(ReceiveEnabled(s, last), lossless)
  {
    hide Reachable;
    var s1 := Apply(s, StepReader);
    var s2 := Apply(s1, StepReader);
    var s3 := Apply(s2, StepReader);
    ReachableNext(s, StepReader, lossless);
    ReachableNext(s1, StepReader, lossless);
    ReachableNext(s2, StepReader, lossless);
    ReachableNext(s3, StepReader, lossless);
  }

  lemma ReachableKeepsTx(s: System, lossless: bool)
    requires Reachable(s, lossless)
    ensures TxInv(s)
  {
    var s0, es :| Initial(s0) && Leads(s0, es, s, lossless);
    InitialSatisfiesInvariants(s0);
    RunKeepsTx(s0, es);
  }

  lemma ReachableKeepsRx(s: System)
    requires Reachable(s, true)
    ensures RxInv(s)
  {
    var s0, es :| Initial(s0) && Leads(s0, es, s, true);
    InitialSatisfiesInvariants(s0);
    RunKeepsRx(s0, es);
  }

  // ---------------------------------------------------------------- draining

  function Interrupts(inputs: seq<IrqInput>): (es: seq<Event>)
    ensures |es| == |inputs| && forall i :: 0 <= i < |es| ==> es[i] == Interrupt(inputs[i])
  {
    seq(|inputs|, i requires 0 <= i < |inputs| => Interrupt(inputs[i]))
  }

  /** The first `k` bytes of the ring have been sent. */
  predicate Moved(sent: seq<byte>, ring: seq<byte>, sentAfter: seq<byte>, ringAfter: seq<byte>, k: nat) {
    var n := if k <= |ring| then k else |ring|;
    sentAfter == sent + ring[..n] && ringAfter == ring[n..]
  }

  /** What `k` transmit interrupts leave of a ring. */
  predicate Drained(s: System, t: System, k: nat)
    requires s.u.Ok()
  {
    t.u.Ok() && Moved(s.u.sent, s.u.tx.Contents(), t.u.sent, t.u.tx.Contents(), k)
  }

  /** An interrupt that services the transmitter and is not throttled by CTS. */
  predicate Sends(fc: bool, input: IrqInput) {
    Transmits(input) && (fc ==> input.status.cts)
  }

  predicate AllSend(fc: bool, inputs: seq<IrqInput>) {
    forall i :: 0 <= i < |inputs| ==> Sends(fc, inputs[i])
  }

  /** Every transmit interrupt takes exactly one waiting byte, in order, so 63 of them always empty
      the ring and `close` can return. */
  lemma TransmitInterruptsDrain(s: System, inputs: seq<IrqInput>)
    requires TxInv(s) && s.irqOff == Nobody
    requires AllSend(s.u.fc, inputs)
    ensures CanExec(s, Interrupts(inputs))
    ensures Drained(s, Exec(s, Interrupts(inputs)), |inputs|)
    ensures |inputs| >= 63 ==> Exec(s, Interrupts(inputs)).u.tx.Empty()
  {
    DrainOneByOne(s, inputs);
    ContentsLength(s.u.tx);
    ContentsLength(Exec(s, Interrupts(inputs)).u.tx);
    hide TxInv, Exec, CanExec, Interrupts;
  }

  lemma {:induction false} DrainOneByOne(s: System, inputs: seq<IrqInput>)
    requires TxInv(s) && s.irqOff == Nobody
    requires AllSend(s.u.fc, inputs)
    ensures CanExec(s, Interrupts(inputs))
    ensures Drained(s, Exec(s, Interrupts(inputs)), |inputs|)
    decreases |inputs|
  {
    assert s.u.Ok();
    if inputs == [] {
      assert Interrupts(inputs) == [];
    } else {
      var input, rest := inputs[0], inputs[1..];
      var t := Apply(s, Interrupt(input));
      assert Sends(s.u.fc, input) && AllSend(s.u.fc, rest);
      assert Interrupts(inputs) == [Interrupt(input)] + Interrupts(rest);
      hide TxInv, Apply, Drained, Sends, AllSend, Interrupts, Exec, CanExec;
      OneInterruptSendsOne(s, input);
      EventKeepsTx(s, Interrupt(input));
      DrainOneByOne(t, rest);
      ExecFirst(s, Interrupt(input), Interrupts(rest));
      DrainOneMore(s, t, Exec(t, Interrupts(rest)), |inputs|);
    }
  }

  lemma ExecFirst(s: System, e: Event, es: seq<Event>)
    requires s.u.Ok() && Enabled(s, e) && CanExec(Apply(s, e), es)
    ensures CanExec(s, [e] + es) && Exec(s, [e] + es) == Exec(Apply(s, e), es)
  {
    hide Apply;
    assert ([e] + es)[1..] == es;
  }

  lemma DrainOneMore(s: System, t: System, v: System, k: nat)
    requires s.u.Ok() && k > 0 && Drained(s, t, 1) && Drained(t, v, k - 1)
    ensures Drained(s, v, k)
  {
    hide Ring.Contents, Moved;
    MovedMore(s.u.sent, s.u.tx.Contents(), t.u.sent, t.u.tx.Contents(), v.u.sent, v.u.tx.Contents(), k);
  }

  lemma MovedMore(a: seq<byte>, x: seq<byte>, b: seq<byte>, y: seq<byte>, c: seq<byte>, z: seq<byte>, k: nat)
    requires k > 0 && Moved(a, x, b, y, 1) && Moved(b, y, c, z, k - 1)
    ensures Moved(a, x, c, z, k)
  {
    if x != [] {
      var n := if k <= |x| then k else |x|;
      TakeDrop(x, n);
      assert (a + x[..1]) + y[..n - 1] == a + (x[..1] + y[..n - 1]);
    }
  }

  lemma TakeDrop(x: seq<byte>, n: nat)
    requires 0 < n <= |x|
    ensures x[..1] + x[1..][..n - 1] == x[..n] && x[1..][n - 1..] == x[n..]
  {
  }

  /** Moving `n` elements from the front of one sequence to the end of another. */
  lemma MovedFront(a: seq<byte>, c: seq<byte>, b: seq<byte>, d: seq<byte>, n: nat)
    requires a + c == b + d && n <= |d| && |c| == |d| - n
    ensures a == b + d[..n] && c == d[n..]
  {
    assert a == (a + c)[..|b| + n] == b + d[..n];
    assert c == (a + c)[|b| + n..] == d[n..];
  }

  lemma OneIrqSendsOne(u: Uart, input: IrqInput)
    requires u.Ok() && Sends(u.fc, input)
    ensures var w := Irq(u, input);
      w.Ok() && w.fc == u.fc && Moved(u.sent, u.tx.Contents(), w.sent, w.tx.Contents(), 1)
  {
    hide TxIrq, RxIrq, Ring.Contents;
    var v := if input.status.rrdy then RxIrq(u, input.status, input.rxData) else u;
    RxIrqKeepsTx(u, input.status, input.rxData);
    TxIrqMoves(v, input.status, input.ctsAgain);
    ContentsLength(u.tx);
    var w := TxIrq(v, input.status, input.ctsAgain);
    var ring := u.tx.Contents();
    MovedFront(w.sent, w.tx.Contents(), u.sent, ring, if ring == [] then 0 else 1);
  }

  lemma OneInterruptSendsOne(s: System, input: IrqInput)
    requires s.u.Ok() && s.irqOff == Nobody && Sends(s.u.fc, input)
    ensures var t := Apply(s, Interrupt(input));
      Drained(s, t, 1) && t.u.fc == s.u.fc && t.irqOff == Nobody
  {
    hide WriterStep, ReaderStep, Irq, Moved, Sends;
    OneIrqSendsOne(s.u, input);
  }

  // ---------------------------------------------------------------- how the mask is defeated

  /** The device requests an interrupt: some enabled source is active. */
  predicate Raised(u: Uart, input: IrqInput) {
    || (u.dev.rrdy && input.status.rrdy)
    || (u.dev.trdy && input.status.trdy)
    || (u.dev.dcts && input.status.dcts)
  }

  /** Every interrupt of the run is one the device requests. */
  predicate AllRaised(s: System, es: seq<Event>)
    requires CanExec(s, es)
    decreases |es|
  {
    es != [] ==>
      && (es[0].Interrupt? ==> Raised(s.u, es[0].input))
      && AllRaised(Apply(s, es[0]), es[1..])
  }

  const RECEIVED := IrqInput(Status(true, false, false, false, false, false), 0, false)
  const CTS_CHANGE_AND_RECEIVED := IrqInput(Status(true, false, true, false, false, false), 0, false)

  /** Ordinary receive interrupts fill the ring until RRDY is masked. */
  lemma {:induction false} FillRing(s: System, n: nat) returns (es: seq<Event>)
    requires TxInv(s) && RxInv(s) && MaskOk(s) && s.irqOff == Nobody && s.u.dev.rrdy
    requires n >= 1 && |s.u.rx.Contents()| + n == 63
    ensures CanExec(s, es) && AllRaised(s, es) && NeverBypasses(s, es)
    ensures var t := Exec(s, es);
      && TxInv(t) && RxInv(t) && t.u.rx.Full() && t.irqOff == Nobody && !t.u.dev.rrdy && t.u.dev.dcts == s.u.dev.dcts
      && t.w == s.w && t.r == s.r
    decreases n
  {
    hide WriterStep, ReaderStep;
    var e := Interrupt(RECEIVED);
    var t := Apply(s, e);
    ContentsLength(s.u.rx);
    IrqMoves(s.u, RECEIVED);
    EventKeepsTx(s, e);
    EventKeepsRx(s, e);
    InterruptKeepsMask(s, RECEIVED);
    ContentsLength(t.u.rx);
    if n == 1 {
      es := [e];
      assert es[1..] == [];
    } else {
      var rest := FillRing(t, n - 1);
      es := [e] + rest;
      assert es[1..] == rest;
    }
  }

  /** Receive exactness is false in general: after 63 receive interrupts RRDY is masked, but a
      change of CTS still interrupts, and the service routine then takes a 64th byte. */
  lemma MaskCanBeBypassed(s: System) returns (es: seq<Event>)
    requires Initial(s)
    ensures CanExec(s, es) && AllRaised(s, es)
    ensures !RxExact(Exec(s, es))
  {
    InitialSatisfiesInvariants(s);
    var fill := FillRing(s, 63);
    var t := Exec(s, fill);
    var e := Interrupt(CTS_CHANGE_AND_RECEIVED);
    OverflowLoses(t, e);
    IrqKeepsOk(t.u, CTS_CHANGE_AND_RECEIVED);
    var last := Prefix(t, e, []);
    ExecAppend(s, fill, last);
    AllRaisedAppend(s, fill, last);
    es := fill + last;
  }

  lemma {:induction false} AllRaisedAppend(s: System, a: seq<Event>, b: seq<Event>)
    requires CanExec(s, a) && CanExec(Exec(s, a), b) && CanExec(s, a + b)
    ensures AllRaised(s, a) && AllRaised(Exec(s, a), b) ==> AllRaised(s, a + b)
    ensures NeverBypasses(s, a) && NeverBypasses(Exec(s, a), b) ==> NeverBypasses(s, a + b)
    decreases |a|
  {
    if a == [] {
      assert a + b == b;
    } else {
      assert (a + b)[1..] == a[1..] + b;
      AllRaisedAppend(Apply(s, a[0]), a[1..], b);
    }
  }

  /** Prefixing a run with one event. */
  lemma Prefix(s: System, e: Event, es: seq<Event>) returns (all: seq<Event>)
    requires s.u.Ok() && Enabled(s, e) && CanExec(Apply(s, e), es)
    ensures all == [e] + es && CanExec(s, all) && Exec(s, all) == Exec(Apply(s, e), es)
    ensures AllRaised(Apply(s, e), es) && (e.Interrupt? ==> Raised(s.u, e.input)) ==> AllRaised(s, all)
    ensures NeverBypasses(Apply(s, e), es) && !BypassesMask(s, e) ==> NeverBypasses(s, all)
  {
    all := [e] + es;
    assert all[1..] == es;
  }

  /** A read of length zero re-enables RRDY over the full ring, and the next byte is lost through
      a perfectly regular receive interrupt. */
  lemma EmptyReadDefeatsMask(s: System) returns (es: seq<Event>)
    requires Initial(s)
    ensures CanExec(s, es) && AllRaised(s, es) && NeverBypasses(s, es)
    ensures !RxExact(Exec(s, es))
  {
    InitialSatisfiesInvariants(s);
    var fill := FillRing(s, 63);
    var t0 := Exec(s, fill);
    var read := EmptyReadThenByte(t0);
    ExecAppend(s, fill, read);
    AllRaisedAppend(s, fill, read);
    es := fill + read;
  }

  lemma EmptyReadThenByte(t0: System) returns (es: seq<Event>)
    requires TxInv(t0) && RxInv(t0) && t0.u.rx.Full() && t0.irqOff == Nobody && t0.r.pc == RIdle && !InCritical(t0.w.pc)
    ensures CanExec(t0, es) && AllRaised(t0, es) && NeverBypasses(t0, es)
    ensures !RxExact(Exec(t0, es))
  {
    ContentsLength(t0.u.rx);
    assert t0.u.Ok() && RxExact(t0) && t0.irqOff == Nobody;
    hide WriterStep, Irq, Ring.Contents, TxInv, RxInv;
    var call := CallRead(0, false);
    var t1 := t0.(r := Reader(RInner, 0, false, [], false, t0.delivered));
    var t2 := t1.(r := t1.r.(pc := REmpty));
    var t3 := t1.(r := t1.r.(pc := RLoop));
    var t4 := t1.(r := t1.r.(pc := RLock(true)));
    assert t1 == Apply(t0, call) && t2 == Apply(t1, StepReader) &&
      t3 == Apply(t2, StepReader) && t4 == Apply(t3, StepReader);
    hide ReaderStep, Apply;
    es := ReenableThenByte(t4);
    es := Prefix(t3, StepReader, es);
    es := Prefix(t2, StepReader, es);
    es := Prefix(t1, StepReader, es);
    es := Prefix(t0, call, es);
  }

  lemma ReenableThenByte(t4: System) returns (es: seq<Event>)
    requires t4.u.Ok() && RxExact(t4) && t4.u.rx.Full() && t4.irqOff == Nobody && t4.r.pc == RLock(true)
    ensures CanExec(t4, es) && AllRaised(t4, es) && NeverBypasses(t4, es)
    ensures !RxExact(Exec(t4, es))
  {
    hide WriterStep, Irq, Ring.Contents;
    var on := t4.u.ctrl.(rrdy := true);
    var t5 := t4.(irqOff := ByReader, r := t4.r.(pc := RSet(true)));
    var t6 := t5.(u := t5.u.(ctrl := on), r := t4.r.(pc := RPut(true)));
    var t7 := t6.(u := t6.u.(dev := on), r := t4.r.(pc := RUnlock(true)));
    var t8 := t7.(irqOff := Nobody, r := t4.r.(pc := RIdle));
    assert t5 == Apply(t4, StepReader) && t6 == Apply(t5, StepReader) &&
      t7 == Apply(t6, StepReader) && t8 == Apply(t7, StepReader);
    hide ReaderStep, Apply;
    es := ByteIntoFull(t8);
    es := Prefix(t7, StepReader, es);
    es := Prefix(t6, StepReader, es);
    es := Prefix(t5, StepReader, es);
    es := Prefix(t4, StepReader, es);
  }

  /** A regular receive interrupt over a full ring. */
  lemma ByteIntoFull(t: System) returns (es: seq<Event>)
    requires t.u.Ok() && RxExact(t) && t.u.rx.Full() && t.irqOff == Nobody && t.u.dev.rrdy
    ensures CanExec(t, es) && AllRaised(t, es) && NeverBypasses(t, es)
    ensures !RxExact(Exec(t, es))
  {
    hide WriterStep, ReaderStep;
    OverflowLoses(t, Interrupt(RECEIVED));
    IrqKeepsOk(t.u, RECEIVED);
    hide Irq;
    es := Prefix(t, Interrupt(RECEIVED), []);
  }

  lemma IrqKeepsOk(u: Uart, input: IrqInput)
    requires u.Ok()
    ensures Irq(u, input).Ok()
  {
    RxIrqKeepsTx(u, input.status, input.rxData);
    var v := if input.status.rrdy then RxIrq(u, input.status, input.rxData) else u;
    if Transmits(input) {
      TxIrqMoves(v, input.status, input.ctsAgain);
    }
  }
}
