/**
 The interrupt-driven UART driver as a step system.

 A run is a sequence of events: a foreground thread enters `write` or `read`, it executes one
 statement of that call, or the interrupt service routine runs.  Each foreground statement below
 touches at most one variable that somebody else can change, so every interleaving of the C
 statements is a run.  The service routine is one event because nothing preempts it.
 The writer and the reader may be two threads; the driver's semaphores admit one of each.
 */
module UartModel {
  import opened Bytes

  const BUF_LEN: nat := 64

  /** `(i + 1) & ALT_AVALON_UART_BUF_MSK` */
  function Succ(i: nat): nat {
    (i + 1) % BUF_LEN
  }

  /** A circular buffer: slots `start` up to, not including, `end`, modulo the length. */
  datatype Ring = Ring(buf: seq<byte>, start: nat, end: nat) {
    predicate Ok() {
      |buf| == BUF_LEN && start < BUF_LEN && end < BUF_LEN
    }

    predicate Empty() {
      start == end
    }

    predicate Full() {
      Succ(end) == start
    }

    function Store(b: byte): Ring
      requires end < |buf|
    {
      this.(buf := buf[end := b])
    }

    function Contents(): seq<byte>
      requires Ok()
    {
      if start <= end then buf[start..end] else buf[start..] + buf[..end]
    }
  }

  /** The interrupt-enable bits of the control register that the driver manipulates. */
  datatype Ctrl = Ctrl(rrdy: bool, trdy: bool, dcts: bool, rts: bool)

  /** The status register bits that the service routine inspects. */
  datatype Status = Status(rrdy: bool, trdy: bool, dcts: bool, cts: bool, pe: bool, fe: bool)

  /** Everything one interrupt reads from the device: the status register, the receive register
      and the second look at CTS. */
  datatype IrqInput = IrqInput(status: Status, rxData: byte, ctsAgain: bool)

  /** `altera_avalon_uart_state` together with the device: `ctrl` is the shadow of the device's
      control register `dev`; `sent` is everything written to TXDATA, `taken` everything read
      from RXDATA. */
  datatype Uart = Uart(ctrl: Ctrl, dev: Ctrl, fc: bool, rx: Ring, tx: Ring, sent: seq<byte>, taken: seq<byte>) {
    predicate Ok() {
      rx.Ok() && tx.Ok()
    }
  }

  // ---------------------------------------------------------------- interrupt service routine

  /** Does the service routine take a byte from RXDATA? */
  predicate Accepts(input: IrqInput) {
    input.status.rrdy && !input.status.pe && !input.status.fe
  }

  /** Does the service routine service the transmitter? */
  predicate Transmits(input: IrqInput) {
    input.status.trdy || input.status.dcts
  }

  function RxIrq(u: Uart, status: Status, rxData: byte): Uart
    requires u.Ok()
  {
    if status.pe || status.fe then u
    else
      var rx := u.rx.Store(rxData).(end := Succ(u.rx.end));
      var ctrl := u.ctrl.(rrdy := false);
      if rx.Full() then u.(rx := rx, taken := u.taken + [rxData], ctrl := ctrl, dev := ctrl)
      else u.(rx := rx, taken := u.taken + [rxData])
  }

  function TxIrq(u: Uart, status: Status, ctsAgain: bool): Uart
    requires u.Ok()
  {
    var v :=
      if u.tx.Empty() then u
      else if !u.fc || status.cts then
        u.(sent := u.sent + [u.tx.buf[u.tx.start]],
           tx := u.tx.(start := Succ(u.tx.start)),
           ctrl := u.ctrl.(trdy := true))
      else if !ctsAgain then u.(ctrl := u.ctrl.(trdy := false))
      else u;
    var ctrl := if v.tx.Empty() then v.ctrl.(trdy := false, dcts := false) else v.ctrl;
    v.(ctrl := ctrl, dev := ctrl)
  }

  function Irq(u: Uart, input: IrqInput): Uart
    requires u.Ok()
  {
    var v := if input.status.rrdy then RxIrq(u, input.status, input.rxData) else u;
    if Transmits(input) then TxIrq(v, input.status, input.ctsAgain) else v
  }

  // ---------------------------------------------------------------- foreground statements

  /** Program counter of `altera_avalon_uart_write`.  The two critical sections share their
      statements; `last` tells the closing one from the one before the wait. */
  datatype WPc =
    | WIdle | WTest | WCheck | WWait | WStore | WAdvance
    | WLock(last: bool) | WSet(last: bool) | WPut(last: bool) | WUnlock(last: bool)

  /** The writer's locals; `base` is what had been accepted before this call. */
  datatype Writer =
    Writer(pc: WPc, data: seq<byte>, noBlock: bool, count: nat, next: nat, wouldBlock: bool, base: seq<byte>)

  /** Program counter of `altera_avalon_uart_read`. */
  datatype RPc =
    | RIdle | RInner | RTake | RAdvance | REmpty | RLoop
    | RLock(last: bool) | RSet(last: bool) | RPut(last: bool) | RUnlock(last: bool)

  /** The reader's locals; `out` is the caller's buffer so far (its length is `count`). */
  datatype Reader =
    Reader(pc: RPc, len: int, noBlock: bool, out: seq<byte>, wouldBlock: bool, base: seq<byte>)

  /** Who holds interrupts disabled. */
  datatype Owner = Nobody | ByWriter | ByReader

  datatype System =
    System(u: Uart, irqOff: Owner, w: Writer, r: Reader, accepted: seq<byte>, delivered: seq<byte>)

  datatype Event =
    | CallWrite(data: seq<byte>, noBlock: bool)
    | StepWriter
    | CallRead(len: int, rNoBlock: bool)
    | StepReader
    | Interrupt(input: IrqInput)

  function WriterStep(s: System): System
    requires s.u.Ok() && s.w.pc != WIdle
  {
    var w := s.w;
    var on := s.u.ctrl.(trdy := true, dcts := true);
    match w.pc
    case WTest =>
      if w.count == 0 then s.(w := w.(pc := WLock(true)))
      else s.(w := w.(pc := WCheck, next := Succ(s.u.tx.end)))
    case WCheck =>
      if w.next != s.u.tx.start then s.(w := w.(pc := WStore))
      else if w.noBlock then s.(w := w.(pc := WLock(true), wouldBlock := true))
      else s.(w := w.(pc := WLock(false)))
    case WWait =>
      if w.next == s.u.tx.start then s else s.(w := w.(pc := WStore))
    case WStore =>
      var i := |w.data| - w.count;
      if w.count == 0 || i < 0 then s  // not reachable: the loop guard keeps count positive
      else s.(u := s.u.(tx := s.u.tx.Store(w.data[i])), w := w.(pc := WAdvance, count := w.count - 1))
    case WAdvance =>
      s.(u := s.u.(tx := s.u.tx.(end := w.next)), accepted := s.accepted + [s.u.tx.buf[s.u.tx.end]],
         w := w.(pc := WTest))
    case WLock(last) => s.(irqOff := ByWriter, w := w.(pc := WSet(last)))
    case WSet(last) => s.(u := s.u.(ctrl := on), w := w.(pc := WPut(last)))
    case WPut(last) => s.(u := s.u.(dev := s.u.ctrl), w := w.(pc := WUnlock(last)))
    case WUnlock(last) => s.(irqOff := Nobody, w := w.(pc := if last then WIdle else WWait))
  }

  function ReaderStep(s: System): System
    requires s.u.Ok() && s.r.pc != RIdle
  {
    var r := s.r;
    match r.pc
    case RInner =>
      if |r.out| < r.len && !s.u.rx.Empty() then s.(r := r.(pc := RTake))
      else s.(r := r.(pc := REmpty))
    case RTake => s.(r := r.(pc := RAdvance, out := r.out + [s.u.rx.buf[s.u.rx.start]]))
    case RAdvance =>
      s.(u := s.u.(rx := s.u.rx.(start := Succ(s.u.rx.start))),
         delivered := r.base + r.out, r := r.(pc := RInner))
    case REmpty =>
      if r.out != [] || !s.u.rx.Empty() then s.(r := r.(pc := RLoop))
      else if r.noBlock then s.(r := r.(pc := RLock(true), wouldBlock := true))
      else s.(r := r.(pc := RLock(false)))
    case RLoop =>
      if r.out == [] && r.len != 0 then s.(r := r.(pc := RInner))
      else s.(r := r.(pc := RLock(true)))
    case RLock(last) => s.(irqOff := ByReader, r := r.(pc := RSet(last)))
    case RSet(last) => s.(u := s.u.(ctrl := s.u.ctrl.(rrdy := true)), r := r.(pc := RPut(last)))
    case RPut(last) => s.(u := s.u.(dev := s.u.ctrl), r := r.(pc := RUnlock(last)))
    case RUnlock(last) => s.(irqOff := Nobody, r := r.(pc := if last then RIdle else RLoop))
  }

  // ---------------------------------------------------------------- runs

  predicate Enabled(s: System, e: Event) {
    match e
    case CallWrite(_, _) => s.w.pc == WIdle && s.irqOff == Nobody
    case StepWriter => s.w.pc != WIdle && s.irqOff != ByReader
    case CallRead(_, _) => s.r.pc == RIdle && s.irqOff == Nobody
    case StepReader => s.r.pc != RIdle && s.irqOff != ByWriter
    case Interrupt(_) => s.irqOff == Nobody
  }

  function Apply(s: System, e: Event): System
    requires s.u.Ok() && Enabled(s, e)
  {
    match e
    case CallWrite(data, noBlock) =>
      s.(w := Writer(WTest, data, noBlock, |data|, s.w.next, false, s.accepted))
    case StepWriter => WriterStep(s)
    case CallRead(len, noBlock) =>
      s.(r := Reader(RInner, len, noBlock, [], false, s.delivered))
    case StepReader => ReaderStep(s)
    case Interrupt(input) => s.(u := Irq(s.u, input))
  }

  /** `es` can be executed from `s`, event by event. */
  predicate CanExec(s: System, es: seq<Event>)
    decreases |es|
  {
    s.u.Ok() && (es != [] ==> Enabled(s, es[0]) && CanExec(Apply(s, es[0]), es[1..]))
  }

  function Exec(s: System, es: seq<Event>): System
    requires CanExec(s, es)
    decreases |es|
  {
    if es == [] then s else Exec(Apply(s, es[0]), es[1..])
  }

  /** The state `altera_avalon_uart_init` leaves behind: RTS, RRDY and DCTS enabled, rings empty. */
  predicate Initial(s: System) {
    && s.u.Ok()
    && s.u.rx.start == s.u.rx.end == s.u.tx.start == s.u.tx.end == 0
    && s.u.ctrl == s.u.dev == Ctrl(true, false, true, true)
    && s.u.sent == [] && s.u.taken == [] && s.accepted == [] && s.delivered == []
    && s.irqOff == Nobody
    && s.w.pc == WIdle && s.w.data == [] && s.w.count == 0 && s.w.base == [] && !s.w.wouldBlock && !s.w.noBlock
    && s.r.pc == RIdle && s.r.len == 0 && s.r.out == [] && s.r.base == [] && !s.r.wouldBlock && !s.r.noBlock
  }
}
