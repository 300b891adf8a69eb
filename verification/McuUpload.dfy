/**
 The upload of a program to the transceiver's microcontroller: 256 numbered portions of 32 bytes,
 each written to a FIFO register between two waits on a status register.
 */
module McuUpload {
  import opened Bytes

  const PROG_EEPROM: byte := 1
  const PROG_SRAM: byte := 2
  const BOOT_MCU: byte := 3
  const EMPTY_WRITE_BUFF: byte := 0x01
  const PROGRAMMED: byte := 0x40
  const MAX_MCU_RETRIES: nat := 30
  const LAST_RETRIES: nat := 500
  const LAST_PORTION: nat := 255
  const BLOCK: nat := 32

  datatype Packet = Packet(mode: byte, portion: nat, payload: seq<byte>) {
    predicate Ok() {
      portion <= LAST_PORTION && |payload| == BLOCK
    }

    predicate Boots() {
      portion == 0 && mode == BOOT_MCU
    }

    predicate Starts() {
      portion == 0 && mode != BOOT_MCU
    }
  }

  /** A write to the control register or to the FIFO register. */
  datatype Write = Control(value: byte) | Fifo(value: byte)

  datatype Reply = Completed | WrongOrder | Error

  /** `last_portion`, and every register write made so far. */
  datatype Session = Session(lastPortion: nat, writes: seq<Write>)

  function FifoWrites(payload: seq<byte>): seq<Write> {
    seq(|payload|, i requires 0 <= i < |payload| => Fifo(payload[i]))
  }

  /** The control writes of portion 0: a reset, and then the mode if it is a known one. */
  function Prologue(p: Packet): seq<Write> {
    if p.portion != 0 then []
    else if p.mode == PROG_EEPROM then [Control(0), Control(1)]
    else if p.mode == PROG_SRAM then [Control(0), Control(2)]
    else if p.mode == BOOT_MCU then [Control(0), Control(3)]
    else [Control(0)]
  }

  predicate InOrder(s: Session, p: Packet) {
    p.portion == 0 || s.lastPortion == p.portion - 1
  }

  function Step(s: Session, p: Packet): Session {
    if !InOrder(s, p) then s
    else if p.Boots() then s.(writes := s.writes + Prologue(p))
    else Session(p.portion, s.writes + Prologue(p) + FifoWrites(p.payload))
  }

  const INITIAL := Session(0, [])

  /** The session after the packets of a run. */
  function Run(ps: seq<Packet>): Session {
    if ps == [] then INITIAL else Step(Run(Front(ps)), Last(ps))
  }

  function Front(ps: seq<Packet>): seq<Packet>
    requires ps != []
  {
    ps[..|ps| - 1]
  }

  function Last(ps: seq<Packet>): Packet
    requires ps != []
  {
    ps[|ps| - 1]
  }

  // ---------------------------------------------------------------- what the upload should do

  /** The upload in progress: the packets since the last start, numbered without gap or repeat. */
  function Upload(ps: seq<Packet>): seq<Packet> {
    if ps == [] then []
    else
      var u, p := Upload(Front(ps)), Last(ps);
      if p.Starts() then [p] else if IsNext(u, p) then u + [p] else u
  }

  predicate IsNext(u: seq<Packet>, p: Packet) {
    u != [] && p.portion == |u|
  }

  /** The reply an upload should give: an error in the order of the portions, or none. */
  predicate ShouldAccept(ps: seq<Packet>, p: Packet) {
    p.portion == 0 || IsNext(Upload(ps), p)
  }

  function Content(u: seq<Packet>): seq<byte> {
    if u == [] then [] else Content(Front(u)) + Last(u).payload
  }

  /** The bytes that a sequence of writes pushes into the FIFO. */
  function Pushed(writes: seq<Write>): seq<byte> {
    if writes == [] then []
    else
      var before, w := Pushed(writes[..|writes| - 1]), writes[|writes| - 1];
      if w.Fifo? then before + [w.value] else before
  }

  /** What the microcontroller holds: the bytes pushed since it was last reset. */
  function Loaded(writes: seq<Write>): seq<byte> {
    if writes == [] then []
    else
      var before, w := Loaded(writes[..|writes| - 1]), writes[|writes| - 1];
      if w.Fifo? then before + [w.value] else if w.value == 0 then [] else before
  }

  /** The writes made before the upload in progress was started. */
  function Prior(ps: seq<Packet>): seq<Write> {
    if ps == [] then [] else if Last(ps).Starts() then Run(Front(ps)).writes else Prior(Front(ps))
  }

  predicate Started(ps: seq<Packet>) {
    exists i :: 0 <= i < |ps| && ps[i].Starts()
  }

  /** No portion 1 comes before the first start. */
  predicate Opened(ps: seq<Packet>) {
    forall i :: 0 <= i < |ps| && ps[i].portion == 1 ==> Started(ps[..i])
  }

  /** Every packet is accepted or refused as it should be. */
  predicate Faithful(ps: seq<Packet>) {
    forall i :: 0 <= i < |ps| ==> Agrees(ps, i)
  }

  predicate Agrees(ps: seq<Packet>, i: nat)
    requires i < |ps|
  {
    InOrder(Run(ps[..i]), ps[i]) == ShouldAccept(ps[..i], ps[i])
  }

  predicate AllOk(ps: seq<Packet>) {
    forall i :: 0 <= i < |ps| ==> ps[i].Ok()
  }

  /** Whether the microcontroller was booted after the upload in progress was started. */
  predicate BootedSince(ps: seq<Packet>) {
    ps != [] && !Last(ps).Starts() && (BootedSince(Front(ps)) || (Last(ps).Boots() && Upload(Front(ps)) != []))
  }

  // ---------------------------------------------------------------- lemmas about the logs

  lemma {:induction false} PushedAppend(a: seq<Write>, b: seq<Write>)
    ensures Pushed(a + b) == Pushed(a) + Pushed(b)
  {
    if b == [] {
      assert a + b == a;
    } else {
      assert (a + b)[..|a + b| - 1] == a + b[..|b| - 1];
      PushedAppend(a, b[..|b| - 1]);
    }
  }

  lemma {:induction false} FifoPushes(payload: seq<byte>)
    ensures Pushed(FifoWrites(payload)) == payload
  {
    if payload != [] {
      var n := |payload| - 1;
      assert FifoWrites(payload)[..n] == FifoWrites(payload[..n]);
      FifoPushes(payload[..n]);
      assert payload == payload[..n] + [payload[n]];
    }
  }

  lemma {:induction false} FifoLoads(writes: seq<Write>, payload: seq<byte>)
    ensures Loaded(writes + FifoWrites(payload)) == Loaded(writes) + payload
  {
    if payload == [] {
      assert writes + FifoWrites(payload) == writes;
    } else {
      var n := |payload| - 1;
      assert (writes + FifoWrites(payload))[..|writes| + n] == writes + FifoWrites(payload[..n]);
      FifoLoads(writes, payload[..n]);
      assert payload == payload[..n] + [payload[n]];
    }
  }

  lemma PrologueLogs(writes: seq<Write>, p: Packet)
    ensures Pushed(Prologue(p)) == []
    ensures Loaded(writes + Prologue(p)) == if p.portion == 0 then [] else Loaded(writes)
  {
    if p.portion != 0 {
      assert writes + Prologue(p) == writes;
    } else {
      var one := writes + [Control(0)];
      assert one[..|writes|] == writes && Loaded(one) == [];
      assert Pushed([Control(0)]) == [] by { assert [Control(0)][..0] == []; }
      if |Prologue(p)| == 2 {
        assert (writes + Prologue(p))[..|writes| + 1] == one;
        assert Prologue(p)[..1] == [Control(0)];
      }
    }
  }

  /** What one packet adds to the bytes pushed and does to the bytes loaded. */
  lemma StepLogs(s: Session, p: Packet)
    ensures s.writes <= Step(s, p).writes
    ensures var added := Step(s, p).writes[|s.writes|..];
            Pushed(added) == if InOrder(s, p) && !p.Boots() then p.payload else []
    ensures Loaded(Step(s, p).writes) ==
            if !InOrder(s, p) then Loaded(s.writes) else if p.Boots() then []
            else (if p.portion == 0 then [] else Loaded(s.writes)) + p.payload
  {
    hide Loaded, FifoWrites;
    PrologueLogs(s.writes, p);
    var added := Step(s, p).writes[|s.writes|..];
    if InOrder(s, p) {
      if p.Boots() {
        assert added == Prologue(p);
      } else {
        assert added == Prologue(p) + FifoWrites(p.payload);
        PushedAppend(Prologue(p), FifoWrites(p.payload));
        FifoPushes(p.payload);
        FifoLoads(s.writes + Prologue(p), p.payload);
      }
    }
  }

  // ---------------------------------------------------------------- every run

  lemma FrontOpened(ps: seq<Packet>)
    requires ps != [] && Opened(ps)
    ensures Opened(Front(ps)) && (Last(ps).portion == 1 ==> Started(Front(ps)))
  {
    var qs := Front(ps);
    forall i | 0 <= i < |qs| && qs[i].portion == 1
      ensures Started(qs[..i])
    {
      assert ps[i] == qs[i] && ps[..i] == qs[..i];
    }
  }

  lemma {:induction false} StartedUpload(ps: seq<Packet>)
    ensures Started(ps) <==> Upload(ps) != []
  {
    if ps != [] {
      var qs := Front(ps);
      StartedUpload(qs);
      if Started(qs) {
        var i :| 0 <= i < |qs| && qs[i].Starts();
        assert ps[i].Starts();
      } else if Last(ps).Starts() {
        assert ps[|ps| - 1].Starts();
      } else {
        forall i | 0 <= i < |ps|
          ensures !ps[i].Starts()
        {
          assert i < |qs| ==> qs[i] == ps[i];
        }
      }
    }
  }

  /** The portions of an upload are numbered by their position. */
  lemma {:induction false} UploadNumbered(ps: seq<Packet>)
    requires AllOk(ps)
    ensures AllOk(Upload(ps)) && |Upload(ps)| <= LAST_PORTION + 1
    ensures forall i :: 0 <= i < |Upload(ps)| ==> Upload(ps)[i].portion == i
  {
    if ps != [] {
      UploadNumbered(Front(ps));
    }
  }

  /** `last_portion` is the number of the upload's last packet; without an upload it is still 0. */
  ghost predicate Tracks(ps: seq<Packet>) {
    Run(ps).lastPortion == if Upload(ps) == [] then 0 else |Upload(ps)| - 1
  }

  lemma {:induction false} RunTracks(ps: seq<Packet>)
    requires AllOk(ps) && Opened(ps)
    ensures Tracks(ps)
  {
    if ps != [] {
      FrontOpened(ps);
      RunTracks(Front(ps));
      StartedUpload(Front(ps));
    }
  }

  lemma TracksAgrees(ps: seq<Packet>, i: nat)
    requires i < |ps| && Tracks(ps[..i])
    requires ps[i].portion == 1 ==> Upload(ps[..i]) != []
    ensures Agrees(ps, i)
  {
  }

  lemma PrefixOpened(ps: seq<Packet>, i: nat)
    requires i <= |ps| && Opened(ps)
    ensures Opened(ps[..i])
  {
    forall j | 0 <= j < i && ps[..i][j].portion == 1
      ensures Started(ps[..i][..j])
    {
      assert ps[..i][..j] == ps[..j];
      assert ps[..i][j] == ps[j];
    }
  }

  /** Gaps and repeats are refused and everything else is accepted, in exactly the runs that do
      not send portion 1 before a start: `last_portion` is 0 from reset on. */
  lemma OrderIsChecked(ps: seq<Packet>)
    requires AllOk(ps)
    ensures Faithful(ps) <==> Opened(ps)
  {
    if Opened(ps) {
      forall i | 0 <= i < |ps|
        ensures Agrees(ps, i)
      {
        PrefixOpened(ps, i);
        RunTracks(ps[..i]);
        StartedUpload(ps[..i]);
        TracksAgrees(ps, i);
      }
    } else {
      var i := FirstUnopened(ps);
      RunTracks(ps[..i]);
      StartedUpload(ps[..i]);
      assert !Agrees(ps, i);
    }
  }

  lemma FirstUnopened(ps: seq<Packet>) returns (i: nat)
    requires !Opened(ps)
    ensures i < |ps| && ps[i].portion == 1 && !Started(ps[..i]) && Opened(ps[..i])
  {
    i := 0;
    while !(ps[i].portion == 1 && !Started(ps[..i]))
      invariant i < |ps|
      invariant forall j :: 0 <= j < i && ps[j].portion == 1 ==> Started(ps[..j])
      decreases |ps| - i
    {
      if i == |ps| - 1 {
        assert Opened(ps);
      }
      i := i + 1;
    }
    forall j | 0 <= j < i && ps[..i][j].portion == 1
      ensures Started(ps[..i][..j])
    {
      assert ps[..i][..j] == ps[..j];
    }
  }

  /** A refused packet changes neither the registers nor `last_portion`. */
  lemma RefusedChangesNothing(ps: seq<Packet>, p: Packet)
    requires AllOk(ps) && Opened(ps + [p]) && !ShouldAccept(ps, p)
    ensures Run(ps + [p]) == Run(ps) && Upload(ps + [p]) == Upload(ps)
  {
    assert Front(ps + [p]) == ps && Last(ps + [p]) == p;
    FrontOpened(ps + [p]);
    RunTracks(ps);
    StartedUpload(ps);
  }

  /** What the last packet of a run pushes. */
  lemma LastPushes(ps: seq<Packet>)
    requires ps != [] && AllOk(ps) && Opened(ps)
    ensures var s, t, p := Run(Front(ps)).writes, Run(ps).writes, Last(ps);
      && s <= t
      && Pushed(t[|s|..]) == if p.Starts() || (!p.Boots() && IsNext(Upload(Front(ps)), p)) then p.payload else []
  {
    FrontOpened(ps);
    RunTracks(Front(ps));
    StartedUpload(Front(ps));
    StepLogs(Run(Front(ps)), Last(ps));
  }

  lemma {:induction false} PushedIsUpload(ps: seq<Packet>)
    requires AllOk(ps) && Opened(ps)
    ensures Prior(ps) <= Run(ps).writes
    ensures Pushed(Run(ps).writes[|Prior(ps)|..]) == Content(Upload(ps))
  {
    hide Step, Opened, Content, Run, Upload;
    if ps == [] {
      NothingPushed();
    } else {
      FrontOpened(ps);
      PushedIsUpload(Front(ps));
      LastPushes(ps);
      var s, t, prior := Run(Front(ps)).writes, Run(ps).writes, Prior(Front(ps));
      if Last(ps).Starts() {
        UploadStarts(ps);
      } else {
        assert t[|prior|..] == s[|prior|..] + t[|s|..];
        PushedAppend(s[|prior|..], t[|s|..]);
        UploadGrows(ps);
      }
    }
  }

  lemma NothingPushed()
    ensures Run([]).writes[0..] == [] && Content(Upload([])) == [] && Pushed([]) == []
  {
  }

  lemma UploadStarts(ps: seq<Packet>)
    requires ps != [] && Last(ps).Starts()
    ensures Content(Upload(ps)) == Last(ps).payload
  {
    SingleContent(Last(ps));
  }

  lemma SingleContent(p: Packet)
    ensures Content([p]) == p.payload
  {
    assert Front([p]) == [];
  }

  /** A packet that is not a start adds its payload to the upload, if it is the next one. */
  lemma UploadGrows(ps: seq<Packet>)
    requires ps != [] && !Last(ps).Starts()
    ensures var u, p := Upload(Front(ps)), Last(ps);
      Content(Upload(ps)) == Content(u) + if IsNext(u, p) then p.payload else []
  {
    var u, p := Upload(Front(ps)), Last(ps);
    if IsNext(u, p) {
      assert Front(u + [p]) == u;
    }
  }

  lemma {:induction false} BytesLength(u: seq<Packet>)
    requires AllOk(u)
    ensures |Content(u)| == BLOCK * |u|
  {
    if u != [] {
      BytesLength(Front(u));
    }
  }

  /** In every run that opens with a start, the bytes pushed since the last start are the payloads
      of portions 0 to `last_portion` in order: 8192 bytes once portion 255 is accepted. */
  lemma UploadIsExact(ps: seq<Packet>)
    requires AllOk(ps) && Opened(ps) && Started(ps)
    ensures Prior(ps) <= Run(ps).writes
    ensures Pushed(Run(ps).writes[|Prior(ps)|..]) == Content(Upload(ps))
    ensures |Upload(ps)| == Run(ps).lastPortion + 1
    ensures forall i :: 0 <= i < |Upload(ps)| ==> Upload(ps)[i].portion == i
    ensures |Content(Upload(ps))| == BLOCK * (Run(ps).lastPortion + 1)
    ensures Run(ps).lastPortion == LAST_PORTION ==> |Content(Upload(ps))| == 8192
  {
    PushedIsUpload(ps);
    RunTracks(ps);
    StartedUpload(ps);
    UploadNumbered(ps);
    BytesLength(Upload(ps));
  }

  lemma {:induction false} LoadedBounds(ps: seq<Packet>)
    requires AllOk(ps) && Opened(ps)
    ensures !BootedSince(ps) ==> Loaded(Run(ps).writes) == Content(Upload(ps))
    ensures BootedSince(ps) ==> |Loaded(Run(ps).writes)| < |Content(Upload(ps))|
  {
    if ps != [] {
      var qs, p := Front(ps), Last(ps);
      FrontOpened(ps);
      RunTracks(qs);
      StartedUpload(qs);
      LoadedBounds(qs);
      StepLogs(Run(qs), p);
      UploadNumbered(qs);
      BytesLength(Upload(qs));
      if p.Starts() {
        SingleContent(p);
      } else {
        UploadGrows(ps);
      }
    }
  }

  // ---------------------------------------------------------------- the modes

  /** The values written to the control register */
  function Controls(writes: seq<Write>): seq<byte> {
    if writes == [] then []
    else
      var before, w := Controls(writes[..|writes| - 1]), writes[|writes| - 1];
      if w.Control? then before + [w.value] else before
  }

  /** What portion 0 is to set: a reset, and then the mode, which is 1 for EEPROM and SRAM, 2 for SRAM
      only and 3 for booting; no other value is a mode. */
  function ModeSet(p: Packet): seq<byte> {
    if p.portion != 0 then [] else if 1 <= p.mode <= 3 then [0, p.mode] else [0]
  }

  /** The modes set in a run */
  function ModesSet(ps: seq<Packet>): seq<byte> {
    if ps == [] then [] else ModesSet(Front(ps)) + ModeSet(Last(ps))
  }

  lemma {:induction false} ControlsAppend(a: seq<Write>, b: seq<Write>)
    ensures Controls(a + b) == Controls(a) + Controls(b)
  {
    if b == [] {
      assert a + b == a;
    } else {
      assert (a + b)[..|a + b| - 1] == a + b[..|b| - 1];
      ControlsAppend(a, b[..|b| - 1]);
    }
  }

  lemma {:induction false} FifoControlsNothing(payload: seq<byte>)
    ensures Controls(FifoWrites(payload)) == []
  {
    if payload != [] {
      var n := |payload| - 1;
      assert FifoWrites(payload)[..n] == FifoWrites(payload[..n]);
      FifoControlsNothing(payload[..n]);
    }
  }

  lemma ControlOnce(v: byte)
    ensures Controls([Control(v)]) == [v]
  {
    assert [Control(v)][..0] == [];
  }

  lemma PrologueControls(p: Packet)
    ensures Controls(Prologue(p)) == ModeSet(p)
  {
    ControlOnce(0);
    ControlOnce(p.mode);
    ControlsAppend([Control(0)], [Control(p.mode)]);
    assert [Control(0)] + [Control(p.mode)] == [Control(0), Control(p.mode)];
  }

  /** The control values of one packet: those that portion 0 is to set, and none otherwise. */
  lemma StepControls(s: Session, p: Packet)
    ensures Controls(Step(s, p).writes) == Controls(s.writes) + ModeSet(p)
  {
    hide Controls, FifoWrites, Prologue;
    PrologueControls(p);
    FifoControlsNothing(p.payload);
    var w := s.writes;
    ControlsAppend(w, Prologue(p));
    ControlsAppend(w + Prologue(p), FifoWrites(p.payload));
    assert Controls(w) + [] == Controls(w) && Controls(w + Prologue(p)) + [] == Controls(w + Prologue(p));
  }

  /** Portion 0 begins with the reset and the mode; the payload follows unless it boots. */
  lemma ModeComesFirst(s: Session, p: Packet)
    requires p.portion == 0
    ensures Step(s, p).writes ==
            s.writes + [Control(0)] + (if 1 <= p.mode <= 3 then [Control(p.mode)] else []) +
            (if p.mode == 3 then [] else FifoWrites(p.payload))
  {
    hide FifoWrites;
    var mode := if 1 <= p.mode <= 3 then [Control(p.mode)] else [];
    assert Prologue(p) == [Control(0)] + mode;
    assert s.writes + ([Control(0)] + mode) == s.writes + [Control(0)] + mode;
  }

  /** What a packet adds to the writes: portion 0 a reset, the mode, and its payload unless it boots; any
      other portion no control value at all. */
  predicate ModeWritten(before: seq<Write>, after: seq<Write>, p: Packet) {
    && Controls(after) == Controls(before) + ModeSet(p)
    && (p.portion == 0 ==>
        after == before + [Control(0)] + (if 1 <= p.mode <= 3 then [Control(p.mode)] else []) +
                 (if p.mode == 3 then [] else FifoWrites(p.payload)))
  }

  lemma StepWritesMode(s: Session, p: Packet)
    ensures ModeWritten(s.writes, Step(s, p).writes, p)
  {
    hide Step, Controls, ModeSet, FifoWrites;
    StepControls(s, p);
    if p.portion == 0 {
      ModeComesFirst(s, p);
    }
  }

  /** In every run, whatever its order, the control register has been given exactly a reset and the
      mode for every portion 0, in the order of the packets; the last value is that of the last one. */
  lemma {:induction false} ControlsAreModes(ps: seq<Packet>)
    ensures Controls(Run(ps).writes) == ModesSet(ps)
  {
    if ps != [] {
      ControlsAreModes(Front(ps));
      StepControls(Run(Front(ps)), Last(ps));
    }
  }

  /** A boot in the middle of an upload resets the microcontroller but not `last_portion`: the
      upload goes on, and what is loaded is the whole upload exactly if there was no such boot. */
  lemma LoadedIffNotBooted(ps: seq<Packet>)
    requires AllOk(ps) && Opened(ps)
    ensures Loaded(Run(ps).writes) == Content(Upload(ps)) <==> !BootedSince(ps)
  {
    LoadedBounds(ps);
  }

  /** Portions 0 and 1 and then a boot: the microcontroller holds nothing, yet portion 2 is accepted
      as if the upload went on. */
  lemma BootLosesUpload(p0: Packet, p1: Packet, boot: Packet, p2: Packet)
    requires p0.Ok() && p1.Ok() && boot.Ok() && p0.Starts() && p1.portion == 1 && boot.Boots() && p2.portion == 2
    ensures var ps := [p0, p1, boot];
      && Loaded(Run(ps).writes) == [] && Content(Upload(ps)) == p0.payload + p1.payload
      && InOrder(Run(ps), p2)
  {
    hide FifoWrites, Prologue, Loaded, Content;
    var a, b := [p0], [p0, p1];
    RunNext([], p0);
    RunNext(a, p1);
    RunNext(b, boot);
    assert [] + [p0] == a && a + [p1] == b && b + [boot] == [p0, p1, boot];
    ContentOfTwo(p0, p1);
    StepLogs(Run(b), boot);
    hide Run, Upload;
  }

  /** Adding a packet to a run. */
  lemma RunNext(ps: seq<Packet>, p: Packet)
    ensures Run(ps + [p]) == Step(Run(ps), p)
    ensures Upload(ps + [p]) ==
      if p.Starts() then [p] else if IsNext(Upload(ps), p) then Upload(ps) + [p] else Upload(ps)
  {
    assert Front(ps + [p]) == ps && Last(ps + [p]) == p;
  }

  lemma ContentOfTwo(p: Packet, q: Packet)
    ensures Content([p] + [q]) == p.payload + q.payload
  {
    SingleContent(p);
    assert Front([p] + [q]) == [p];
  }

  /** Portion 1 is accepted as the first packet after reset. */
  lemma PortionOneIsAcceptedFirst(p: Packet)
    requires p.portion == 1 && p.Ok()
    ensures InOrder(Run([]), p) && !ShouldAccept([], p)
    ensures Pushed(Run([p]).writes) == p.payload && Upload([p]) == []
  {
    assert Front([p]) == [] && Last([p]) == p;
    StepLogs(INITIAL, p);
    assert Run([p]).writes[0..] == Run([p]).writes;
  }

  // ---------------------------------------------------------------- the waits

  datatype Wait = Polling(retries: nat) | Left(ready: bool)

  /** One round of a wait with an 8-bit retry counter, given the answer of the status register. */
  function Round(limit: nat, w: Wait, ready: bool): Wait {
    match w
    case Left(_) => w
    case Polling(r) =>
      if r >= limit then Left(false) else if ready then Left(true) else Polling((r + 1) % 256)
  }

  function Rounds(limit: nat, answers: seq<bool>): Wait {
    if answers == [] then Polling(0)
    else Round(limit, Rounds(limit, answers[..|answers| - 1]), answers[|answers| - 1])
  }

  lemma {:induction false} CounterStaysSmall(limit: nat, answers: seq<bool>)
    requires limit > 255
    ensures Rounds(limit, answers) != Left(false)
    ensures Rounds(limit, answers).Polling? ==> Rounds(limit, answers).retries < 256
  {
    if answers != [] {
      CounterStaysSmall(limit, answers[..|answers| - 1]);
    }
  }

  lemma {:induction false} NeverReady(limit: nat, n: nat)
    requires n <= limit <= 255
    ensures Rounds(limit, seq(n, _ => false)) == Polling(n)
  {
    if n > 0 {
      assert seq(n, _ => false)[..n - 1] == seq(n - 1, _ => false);
      NeverReady(limit, n - 1);
    }
  }

  /** A wait can give up exactly if its limit fits the 8-bit counter: the one of 30 can, the one of
      500 polls until the register answers. */
  lemma WaitCanGiveUp(limit: nat)
    ensures (exists answers :: Rounds(limit, answers) == Left(false)) <==> limit <= 255
  {
    if limit <= 255 {
      var answers := seq(limit + 1, _ => false);
      assert answers[..limit] == seq(limit, _ => false);
      NeverReady(limit, limit);
      assert Rounds(limit, answers) == Left(false);
    } else {
      forall answers: seq<bool>
        ensures Rounds(limit, answers) != Left(false)
      {
        CounterStaysSmall(limit, answers);
      }
    }
  }

  // ---------------------------------------------------------------- the command

  /** A bit of the status register */
  predicate Has(answer: byte, mask: byte) {
    answer & mask != 0
  }

  /** A register access in the order in which it is made */
  datatype Access = StatusRead | Written(write: Write)

  function Reads(n: int): seq<Access> {
    if n <= 0 then [] else seq(n, _ => StatusRead)
  }

  function Writes(writes: seq<Write>): seq<Access> {
    seq(|writes|, i requires 0 <= i < |writes| => Written(writes[i]))
  }

  /** The transceiver's registers: a log of the writes, the answers to the status reads, and a record
      of both. */
  class Transceiver {
    var writes: seq<Write>
    var polls: nat
    ghost var trace: seq<Access>
    const status: nat -> byte

    constructor (status: nat -> byte)
      ensures writes == [] && polls == 0 && trace == [] && this.status == status
    {
      this.status := status;
      writes, polls, trace := [], 0, [];
    }

    predicate Shows(n: nat, mask: byte) {
      Has(status(n), mask)
    }

    /** From every read on, some later one shows an empty buffer. */
    ghost predicate Drains() {
      forall m: nat :: DrainsFrom(m)
    }

    ghost predicate DrainsFrom(m: nat) {
      exists n: nat :: n >= m && Shows(n, EMPTY_WRITE_BUFF)
    }

    method ReadStatus() returns (b: byte)
      modifies this`polls, this`trace
      ensures b == status(old(polls)) && polls == old(polls) + 1 && trace == old(trace) + [StatusRead]
    {
      b := status(polls);
      polls := polls + 1;
      trace := trace + [StatusRead];
    }

    method WriteRegister(w: Write)
      modifies this`writes, this`trace
      ensures writes == old(writes) + [w] && trace == old(trace) + [Written(w)]
    {
      writes := writes + [w];
      trace := trace + [Written(w)];
    }
  }

  class Loader {
    var lastPortion: nat
    var mcuRetries: nat
    const lms: Transceiver

    ghost function View(): Session
      reads this, lms
    {
      Session(lastPortion, lms.writes)
    }

    ghost predicate Valid()
      reads this`mcuRetries
    {
      mcuRetries < 256 && lms.Drains()
    }

    constructor (status: nat -> byte)
      ensures lms.status == status && View() == INITIAL && mcuRetries < 256 && fresh(lms)
    {
      lastPortion, mcuRetries := 0, 0;
      lms := new Transceiver(status);
    }

    /** None of the answers to the reads from `m` to `n` shows the bit. */
    ghost predicate Silent(m: nat, n: nat, mask: byte) {
      forall i: nat :: m <= i < n ==> !lms.Shows(i, mask)
    }

    /** A wait of at most `limit` polls. */
    method WaitFor(limit: nat, mask: byte)
      requires Valid() && limit <= 255
      modifies this`mcuRetries, lms`polls, lms`trace
      ensures Valid() && old(lms.polls) <= lms.polls <= old(lms.polls) + limit
      ensures lms.trace == old(lms.trace) + Reads(lms.polls - old(lms.polls))
      ensures mcuRetries == limit <==> Silent(old(lms.polls), old(lms.polls) + limit, mask)
      ensures mcuRetries == limit ==> lms.polls == old(lms.polls) + limit
      ensures mcuRetries != limit ==>
        lms.polls > old(lms.polls) && lms.Shows(lms.polls - 1, mask) && Silent(old(lms.polls), lms.polls - 1, mask)
    {
      hide Has;
      mcuRetries := 0;
      while mcuRetries < limit
        invariant mcuRetries <= limit && lms.polls == old(lms.polls) + mcuRetries
        invariant lms.trace == old(lms.trace) + Reads(lms.polls - old(lms.polls))
        invariant Silent(old(lms.polls), lms.polls, mask)
      {
        var answer := lms.ReadStatus();
        if Has(answer, mask) {
          assert lms.Shows(lms.polls - 1, mask);
          break;
        }
        mcuRetries := mcuRetries + 1;
      }
    }

    /** The wait with limit 500: its counter wraps before it gets there. */
    method WaitUntilEmpty()
      requires Valid()
      modifies this`mcuRetries, lms`polls, lms`trace
      ensures Valid() && lms.polls > old(lms.polls)
      ensures lms.trace == old(lms.trace) + Reads(lms.polls - old(lms.polls))
      ensures lms.Shows(lms.polls - 1, EMPTY_WRITE_BUFF) && Silent(old(lms.polls), lms.polls - 1, EMPTY_WRITE_BUFF)
    {
      hide Has;
      assert lms.DrainsFrom(lms.polls);
      ghost var end: nat :| end >= lms.polls && lms.Shows(end, EMPTY_WRITE_BUFF);
      mcuRetries := 0;
      while mcuRetries < LAST_RETRIES
        invariant mcuRetries < 256 && old(lms.polls) <= lms.polls <= end
        invariant lms.trace == old(lms.trace) + Reads(lms.polls - old(lms.polls))
        invariant Silent(old(lms.polls), lms.polls, EMPTY_WRITE_BUFF)
        decreases end - lms.polls
      {
        var answer := lms.ReadStatus();
        if Has(answer, EMPTY_WRITE_BUFF) {
          break;
        }
        assert lms.polls - 1 != end;
        mcuRetries := (mcuRetries + 1) % 256;
      }
    }

    /** The control writes of portion 0: a reset, and then the mode as it is numbered. */
    method SetMode(p: Packet)
      requires p.portion == 0
      modifies lms`writes, lms`trace
      ensures lms.writes == old(lms.writes) + Prologue(p)
      ensures lms.trace == old(lms.trace) + Writes(Prologue(p))
    {
      lms.WriteRegister(Control(0));
      if p.mode == PROG_EEPROM {
        lms.WriteRegister(Control(1));
      } else if p.mode == PROG_SRAM {
        lms.WriteRegister(Control(2));
      } else if p.mode == BOOT_MCU {
        lms.WriteRegister(Control(3));
      }
    }

    lemma NoPrologue(writes: seq<Write>, trace: seq<Access>, p: Packet)
      ensures p.portion != 0 ==> writes + Prologue(p) == writes && trace + Writes(Prologue(p)) == trace
    {
    }

    /** What portion 0 is preceded by; a boot is followed by a read of the status and by nothing else. */
    method EnterMode(p: Packet) returns (booted: bool)
      modifies lms
      ensures booted <==> p.Boots()
      ensures lms.writes == old(lms.writes) + Prologue(p)
      ensures lms.trace == old(lms.trace) + Writes(Prologue(p)) + if booted then [StatusRead] else []
      ensures lms.polls == old(lms.polls) + if booted then 1 else 0
    {
      booted := false;
      if p.portion == 0 {
        hide Prologue, Writes;
        SetMode(p);
        if p.mode == BOOT_MCU {
          booted := true;
          var _ := lms.ReadStatus();
        }
      } else {
        NoPrologue(lms.writes, lms.trace, p);
      }
    }

    lemma NothingMore(trace: seq<Access>)
      ensures trace + [] == trace
    {
    }

    method FillFifo(payload: seq<byte>)
      requires |payload| == BLOCK
      modifies lms`writes, lms`trace
      ensures lms.writes == old(lms.writes) + FifoWrites(payload)
      ensures lms.trace == old(lms.trace) + Writes(FifoWrites(payload))
    {
      var block := 0;
      while block < BLOCK
        invariant 0 <= block <= BLOCK
        invariant lms.writes == old(lms.writes) + FifoWrites(payload)[..block]
        invariant lms.trace == old(lms.trace) + Writes(FifoWrites(payload))[..block]
      {
        lms.WriteRegister(Fifo(payload[block]));
        block := block + 1;
      }
    }

    /** The wait before the FIFO is filled: until an answer shows an empty buffer, or for as many
        answers as there are retries. */
    ghost predicate Waited(start: nat, end: nat) {
      && start < end <= start + MAX_MCU_RETRIES && Silent(start, end - 1, EMPTY_WRITE_BUFF)
      && (end < start + MAX_MCU_RETRIES ==> lms.Shows(end - 1, EMPTY_WRITE_BUFF))
    }

    /** The accesses that bring the payload of a packet in: a wait, up to read `ready`, the payload, a wait
        for an empty buffer, which ends with read `from`, and the reads of the last wait, if there is one. */
    ghost predicate BroughtIn(before: seq<Access>, start: nat, ready: nat, from: nat, p: Packet)
      reads lms
    {
      && Waited(start, ready)
      && from > ready && lms.Shows(from - 1, EMPTY_WRITE_BUFF) && Silent(ready, from - 1, EMPTY_WRITE_BUFF)
      && lms.trace == before + Reads(ready - start) + Writes(FifoWrites(p.payload)) + Reads(lms.polls - ready)
    }

    lemma Joined(before: seq<Access>, a: nat, b: nat)
      ensures before + Reads(a) + Reads(b) == before + Reads(a + b) && before + Reads(0) == before
    {
    }

    /** The waits and the payload of an accepted packet. */
    method Load(p: Packet) returns (ghost ready: nat, ghost from: nat, reply: Reply)
      requires Valid() && p.Ok()
      modifies this`mcuRetries, lms
      ensures Valid() && lms.writes == old(lms.writes) + FifoWrites(p.payload) && reply != WrongOrder
      ensures BroughtIn(old(lms.trace), old(lms.polls), ready, from, p)
      ensures reply == Error <==> p.portion == LAST_PORTION && Silent(from, from + MAX_MCU_RETRIES, PROGRAMMED)
    {
      hide FifoWrites, Writes, Reads, Transceiver.Shows, Transceiver.Drains;
      var cmdErrors := 0;
      WaitFor(MAX_MCU_RETRIES, EMPTY_WRITE_BUFF);
      ready := lms.polls;
      FillFifo(p.payload);
      ghost var filled := lms.trace;
      WaitUntilEmpty();
      from := lms.polls;
      if p.portion == LAST_PORTION {
        WaitFor(MAX_MCU_RETRIES, PROGRAMMED);
        if mcuRetries == MAX_MCU_RETRIES {
          cmdErrors := cmdErrors + 1;
        }
      }
      Joined(filled, from - ready, lms.polls - from);
      reply := if cmdErrors != 0 then Error else Completed;
    }

    /** The command. An error is reported exactly if the last portion is followed by as many answers
        without the programmed bit as there are retries; `from` is the read at which they start. */
    method Handle(p: Packet) returns (reply: Reply, ghost ready: nat, ghost from: nat)
      requires Valid() && p.Ok()
      modifies this, lms
      ensures Valid()
      ensures View() == Step(old(View()), p)
      ensures ModeWritten(old(lms.writes), lms.writes, p)
      ensures reply == WrongOrder <==> !InOrder(old(View()), p)
      ensures reply == WrongOrder || p.Boots() ==> mcuRetries == old(mcuRetries)
      ensures reply == Error <==>
        InOrder(old(View()), p) && p.portion == LAST_PORTION && Silent(from, from + MAX_MCU_RETRIES, PROGRAMMED)
      ensures reply == WrongOrder ==> lms.trace == old(lms.trace)
      ensures p.Boots() ==> lms.trace == old(lms.trace) + Writes(Prologue(p)) + [StatusRead]
      ensures reply != WrongOrder && !p.Boots() ==>
        BroughtIn(old(lms.trace) + Writes(Prologue(p)), old(lms.polls), ready, from, p)
    {
      StepWritesMode(View(), p);
      hide Prologue, FifoWrites, Writes, Reads, ModeWritten, Loader.Valid, Loader.BroughtIn, Loader.Silent;
      NothingMore(old(lms.trace) + Writes(Prologue(p)));
      from, ready := lms.polls, lms.polls;
      if p.portion != 0 {
        if lastPortion != p.portion - 1 {
          return WrongOrder, ready, from;
        }
      }
      var booted := EnterMode(p);
      if booted {
        return Completed, ready, from;
      }
      ready, from, reply := Load(p);
      lastPortion := p.portion;
    }
  }
}
