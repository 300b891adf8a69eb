/**
 The SPI master's transfer loop against an arbitrary slave.

 The loop polls the controller's ready flags; a schedule of polls is a run of the loop.  What it
 has to achieve is the plain exchange `Transfer`, in which the bytes simply follow one another.
 */
module Spi {
  import opened Bytes
  import opened Wrappers

  /** A slave: how it reacts to its chip select and to a byte clocked through it. */
  datatype Slave<!S> = Slave(select: S -> S, shift: (S, byte) -> (S, byte), deselect: S -> S)

  /** The slave behind the controller; `sso` is the forced chip select of the control register. */
  datatype Wire<S> = Wire(state: S, sso: bool)

  // ---------------------------------------------------------------- what a transfer means

  /** The control register write at the start: forces the chip select unless it shall toggle. */
  function Assert<S>(slave: Slave<S>, w: Wire<S>, toggle: bool): Wire<S> {
    if toggle || w.sso then w else Wire(slave.select(w.state), true)
  }

  /** The control register write at the end: releases the chip select unless commands merge. */
  function Release<S>(slave: Slave<S>, w: Wire<S>, merge: bool): Wire<S> {
    if merge || !w.sso then w else Wire(slave.deselect(w.state), false)
  }

  /** One byte on the wire.  Without the forced chip select the controller selects the slave for
      this byte alone. */
  function Exchange<S>(slave: Slave<S>, w: Wire<S>, b: byte): (Wire<S>, byte) {
    if w.sso then
      var (s, reply) := slave.shift(w.state, b);
      (Wire(s, true), reply)
    else
      var (s, reply) := slave.shift(slave.select(w.state), b);
      (Wire(slave.deselect(s), false), reply)
  }

  function ExchangeAll<S>(slave: Slave<S>, w: Wire<S>, bytes: seq<byte>): (r: (Wire<S>, seq<byte>))
    ensures |r.1| == |bytes|
    ensures r.0.sso == w.sso
  {
    if bytes == [] then (w, [])
    else
      var n := |bytes| - 1;
      var (v, replies) := ExchangeAll(slave, w, bytes[..n]);
      var (u, reply) := Exchange(slave, v, bytes[n]);
      (u, replies + [reply])
  }

  function Zeros(n: nat): seq<byte> {
    seq(n, _ => 0)
  }

  /** The bytes a command shifts out: its data, then a zero for every byte to read. */
  function Outgoing(writeData: seq<byte>, readLength: nat): seq<byte> {
    writeData + Zeros(readLength)
  }

  /** A whole command: the slave's last `readLength` replies are the data read. */
  function Transfer<S>(slave: Slave<S>, w: Wire<S>, writeData: seq<byte>, readLength: nat, toggle: bool, merge: bool)
    : (Wire<S>, seq<byte>)
  {
    var (v, replies) := ExchangeAll(slave, Assert(slave, w, toggle), Outgoing(writeData, readLength));
    (Release(slave, v, merge), replies[|writeData|..])
  }

  lemma {:induction false} ExchangeAllAppend<S>(slave: Slave<S>, w: Wire<S>, a: seq<byte>, b: seq<byte>)
    ensures var (v, x) := ExchangeAll(slave, w, a); var (u, y) := ExchangeAll(slave, v, b);
      ExchangeAll(slave, w, a + b) == (u, x + y)
    decreases |b|
  {
    var (v, x) := ExchangeAll(slave, w, a);
    if b == [] {
      assert a + b == a && x + [] == x;
    } else {
      var n := |b| - 1;
      assert (a + b)[..|a + b| - 1] == a + b[..n] && (a + b)[|a + b| - 1] == b[n];
      ExchangeAllAppend(slave, w, a, b[..n]);
      var (u, y) := ExchangeAll(slave, v, b[..n]);
      var (_, reply) := Exchange(slave, u, b[n]);
      assert x + (y + [reply]) == (x + y) + [reply];
    }
  }

  /** Every byte in a frame of its own: the slave is selected for it alone. */
  function OneByOne<S>(slave: Slave<S>, s: S, bytes: seq<byte>): (S, seq<byte>) {
    if bytes == [] then (s, [])
    else
      var n := |bytes| - 1;
      var before := OneByOne(slave, s, bytes[..n]);
      var last := slave.shift(slave.select(before.0), bytes[n]);
      (slave.deselect(last.0), before.1 + [last.1])
  }

  lemma {:induction false} ReleasedExchange<S>(slave: Slave<S>, s: S, bytes: seq<byte>)
    ensures var r := OneByOne(slave, s, bytes); ExchangeAll(slave, Wire(s, false), bytes) == (Wire(r.0, false), r.1)
  {
    if bytes != [] {
      ReleasedExchange(slave, s, bytes[..|bytes| - 1]);
    }
  }

  /** A toggling command on a released bus sends every byte in a frame of its own and leaves the bus
      released, merged or not. */
  lemma ToggledBytesAreFrames<S>(slave: Slave<S>, s: S, writeData: seq<byte>, readLength: nat, merge: bool)
    ensures var r := OneByOne(slave, s, writeData + Zeros(readLength));
      |r.1| == |writeData| + readLength &&
      Transfer(slave, Wire(s, false), writeData, readLength, true, merge) == (Wire(r.0, false), r.1[|writeData|..])
  {
    ReleasedExchange(slave, s, Outgoing(writeData, readLength));
  }

  // ---------------------------------------------------------------- the polling loop

  /** The loop's variables: the credit, what is left to write, the zeros left to write, the replies
      still to be ignored and the data read so far; `inFlight` is the reply the controller has or
      is about to have. */
  datatype Loop<S> = Loop(
    wire: Wire<S>, credits: int, writeLeft: seq<byte>, zeros: nat, ignore: nat, got: seq<byte>,
    inFlight: Option<byte>, done: bool)

  /** One reading of the status register. */
  datatype Poll = Poll(trdy: bool, rrdy: bool)

  /** Receive data is reported only when a reply is outstanding. */
  predicate Possible<S>(l: Loop<S>, p: Poll) {
    p.rrdy ==> l.inFlight.Some?
  }

  /** The poll ends the waiting loop. */
  predicate Effective<S>(l: Loop<S>, p: Poll) {
    (p.trdy && l.credits != 0) || p.rrdy
  }

  function Send<S>(slave: Slave<S>, l: Loop<S>): Loop<S> {
    var m := l.(credits := l.credits - 1);
    if l.writeLeft != [] then
      var (w, reply) := Exchange(slave, l.wire, l.writeLeft[0]);
      m.(wire := w, writeLeft := l.writeLeft[1..], inFlight := Some(reply))
    else if l.zeros > 0 then
      var (w, reply) := Exchange(slave, l.wire, 0);
      m.(wire := w, zeros := l.zeros - 1, inFlight := Some(reply))
    else m.(credits := -1024)
  }

  function Receive<S>(l: Loop<S>, readLength: nat): Loop<S>
    requires l.inFlight.Some?
  {
    var m := l.(credits := l.credits + 1, inFlight := None);
    var k := if l.ignore > 0 then m.(ignore := l.ignore - 1) else m.(got := l.got + [l.inFlight.value]);
    k.(done := k.ignore == 0 && |k.got| == readLength)
  }

  /** What one poll makes the loop do. */
  function Iterate<S>(slave: Slave<S>, l: Loop<S>, p: Poll, readLength: nat): Loop<S>
    requires Possible(l, p)
  {
    if l.done || !Effective(l, p) then l
    else
      var m := if p.trdy && l.credits > 0 then Send(slave, l) else l;
      if p.rrdy && m.inFlight.Some? then Receive(m, readLength) else m
  }

  function Begin<S>(w: Wire<S>, writeData: seq<byte>, readLength: nat): Loop<S> {
    Loop(w, 1, writeData, readLength, |writeData|, [], None, false)
  }

  predicate Schedule<S>(slave: Slave<S>, l: Loop<S>, polls: seq<Poll>, readLength: nat)
    decreases |polls|
  {
    polls != [] ==>
      Possible(l, polls[0]) && Schedule(slave, Iterate(slave, l, polls[0], readLength), polls[1..], readLength)
  }

  function Run<S>(slave: Slave<S>, l: Loop<S>, polls: seq<Poll>, readLength: nat): Loop<S>
    requires Schedule(slave, l, polls, readLength)
    decreases |polls|
  {
    if polls == [] then l else Run(slave, Iterate(slave, l, polls[0], readLength), polls[1..], readLength)
  }

  /** How many bytes have been sent and how many replies taken. */
  function Sent<S>(l: Loop<S>, writeData: seq<byte>, readLength: nat): int {
    |writeData| + readLength - |l.writeLeft| - l.zeros
  }

  function Received<S>(l: Loop<S>, writeData: seq<byte>): int {
    |writeData| - l.ignore + |l.got|
  }

  /** The counters agree with what has been sent and taken, and at most one reply is outstanding. */
  predicate Counts<S>(writeData: seq<byte>, readLength: nat, l: Loop<S>) {
    var n, r := Sent(l, writeData, readLength), Received(l, writeData);
    && l.zeros <= readLength && l.ignore <= |writeData| && |l.writeLeft| <= |writeData|
    && (l.zeros < readLength ==> l.writeLeft == [])
    && l.writeLeft == writeData[|writeData| - |l.writeLeft|..]
    && 0 <= r <= n <= |writeData| + readLength && n - r == 1 - l.credits && (l.credits == 0 || l.credits == 1)
    && (l.inFlight.Some? <==> l.credits == 0)
    && (l.ignore > 0 ==> l.got == [])
    && (l.done <==> r == |writeData| + readLength && (writeData != [] || readLength > 0))
  }

  /** After `n` bytes sent and `r` replies taken: the wire is where the plain exchange of those
      bytes leads, and the data read are its last replies. */
  ghost predicate OnWire<S>(slave: Slave<S>, w: Wire<S>, writeData: seq<byte>, readLength: nat, l: Loop<S>)
    requires Counts(writeData, readLength, l)
  {
    var n, r := Sent(l, writeData, readLength), Received(l, writeData);
    var (v, replies) := ExchangeAll(slave, w, Outgoing(writeData, readLength)[..n]);
    && l.wire == v
    && (l.inFlight.Some? ==> l.inFlight.value == replies[r])
    && l.got == replies[|writeData| - l.ignore..r]
  }

  ghost predicate Good<S>(slave: Slave<S>, w: Wire<S>, writeData: seq<byte>, readLength: nat, l: Loop<S>) {
    Counts(writeData, readLength, l) && OnWire(slave, w, writeData, readLength, l)
  }

  lemma BeginIsGood<S>(slave: Slave<S>, w: Wire<S>, writeData: seq<byte>, readLength: nat)
    ensures Good(slave, w, writeData, readLength, Begin(w, writeData, readLength))
  {
    var all := Outgoing(writeData, readLength);
    assert all[..0] == [] && writeData[0..] == writeData;
  }

  /** What is sent next is the next outgoing byte. */
  lemma NextOutgoing<S>(slave: Slave<S>, w: Wire<S>, writeData: seq<byte>, readLength: nat, l: Loop<S>)
    requires Good(slave, w, writeData, readLength, l) && l.credits == 1 && !l.done
    requires writeData != [] || readLength > 0
    ensures var n, all := Sent(l, writeData, readLength), Outgoing(writeData, readLength);
      && 0 <= n < |all| && all[n] == (if l.writeLeft != [] then l.writeLeft[0] else 0)
      && all[..n + 1][..n] == all[..n] && all[..n + 1][n] == all[n]
      && (l.writeLeft == [] ==> l.zeros > 0)
  {
  }

  lemma SendKeepsCounts<S>(slave: Slave<S>, writeData: seq<byte>, readLength: nat, l: Loop<S>)
    requires Counts(writeData, readLength, l) && l.credits == 1 && !l.done
    requires writeData != [] || readLength > 0
    ensures var m := Send(slave, l);
      && Counts(writeData, readLength, m) && m.credits == 0 && m.got == l.got && m.ignore == l.ignore
      && Sent(m, writeData, readLength) == Sent(l, writeData, readLength) + 1
      && Received(m, writeData) == Received(l, writeData) == Sent(l, writeData, readLength)
  {
    hide Exchange;
    if l.writeLeft != [] {
      assert l.writeLeft[1..] == writeData[|writeData| - |l.writeLeft[1..]|..];
    }
  }

  /** Exchanging one byte more. */
  lemma ExchangeNext<S>(slave: Slave<S>, w: Wire<S>, bytes: seq<byte>, n: nat)
    requires n < |bytes|
    ensures var (v, replies) := ExchangeAll(slave, w, bytes[..n]); var (u, reply) := Exchange(slave, v, bytes[n]);
      ExchangeAll(slave, w, bytes[..n + 1]) == (u, replies + [reply])
  {
    assert bytes[..n + 1][..n] == bytes[..n];
    hide Exchange;
  }

  /** Sending puts the next byte on the wire. */
  lemma SendExchanges<S>(slave: Slave<S>, l: Loop<S>, b: byte)
    requires l.writeLeft != [] || l.zeros > 0
    requires b == if l.writeLeft != [] then l.writeLeft[0] else 0
    ensures var (w, reply) := Exchange(slave, l.wire, b);
      Send(slave, l).wire == w && Send(slave, l).inFlight == Some(reply)
  {
    hide Exchange;
  }

  /** One exchange more keeps the wire where the plain exchange leads. */
  lemma SentOnWire<S>(slave: Slave<S>, w: Wire<S>, writeData: seq<byte>,
                      readLength: nat, l: Loop<S>, m: Loop<S>, n: nat)
    requires Counts(writeData, readLength, l) && OnWire(slave, w, writeData, readLength, l)
    requires Counts(writeData, readLength, m) && m.got == l.got && m.ignore == l.ignore
    requires Sent(l, writeData, readLength) == Received(l, writeData) == Received(m, writeData) == n
    requires Sent(m, writeData, readLength) == n + 1 && n < |Outgoing(writeData, readLength)|
    requires var (u, reply) := Exchange(slave, l.wire, Outgoing(writeData, readLength)[n]);
      m.wire == u && m.inFlight == Some(reply)
    ensures OnWire(slave, w, writeData, readLength, m)
  {
    var all, from := Outgoing(writeData, readLength), |writeData| - l.ignore;
    assert 0 <= from <= n;
    ExchangeNext(slave, w, all, n);
    var (v, replies) := ExchangeAll(slave, w, all[..n]);
    var (u, reply) := Exchange(slave, l.wire, all[n]);
    assert l.wire == v && l.got == replies[from..n] && |replies| == n;
    assert ExchangeAll(slave, w, all[..n + 1]) == (u, replies + [reply]);
    hide Exchange, ExchangeAll, Outgoing, Counts, Sent, Received;
    SliceOfMore(replies, reply, from);
  }

  lemma SliceOfMore(s: seq<byte>, b: byte, from: nat)
    requires from <= |s|
    ensures (s + [b])[from..|s|] == s[from..] == s[from..|s|] && (s + [b])[|s|] == b
  {
  }

  lemma SendKeepsGood<S>(slave: Slave<S>, w: Wire<S>, writeData: seq<byte>, readLength: nat, l: Loop<S>)
    requires Good(slave, w, writeData, readLength, l) && l.credits == 1 && !l.done
    requires writeData != [] || readLength > 0
    ensures Good(slave, w, writeData, readLength, Send(slave, l)) && Send(slave, l).credits == 0
  {
    hide Counts, OnWire, Exchange, ExchangeAll, Outgoing, Send, Sent, Received;
    var n, all := Sent(l, writeData, readLength), Outgoing(writeData, readLength);
    NextOutgoing(slave, w, writeData, readLength, l);
    SendKeepsCounts(slave, writeData, readLength, l);
    SendExchanges(slave, l, all[n]);
    SentOnWire(slave, w, writeData, readLength, l, Send(slave, l), n);
  }

  lemma ReceiveKeepsCounts<S>(writeData: seq<byte>, readLength: nat, l: Loop<S>)
    requires Counts(writeData, readLength, l) && l.inFlight.Some? && !l.done
    ensures var m := Receive(l, readLength);
      && Counts(writeData, readLength, m) && m.wire == l.wire && m.inFlight.None?
      && Sent(m, writeData, readLength) == Sent(l, writeData, readLength) == Received(l, writeData) + 1
      && Received(m, writeData) == Received(l, writeData) + 1
      && (l.ignore > 0 ==> m.ignore == l.ignore - 1 && m.got == [] && Received(m, writeData) == |writeData| - m.ignore)
      && (l.ignore == 0 ==> m.ignore == 0 && m.got == l.got + [l.inFlight.value])
  {
  }

  lemma ReceiveKeepsGood<S>(slave: Slave<S>, w: Wire<S>, writeData: seq<byte>, readLength: nat, l: Loop<S>)
    requires Good(slave, w, writeData, readLength, l) && l.inFlight.Some? && !l.done
    ensures Good(slave, w, writeData, readLength, Receive(l, readLength))
  {
    ReceiveKeepsCounts(writeData, readLength, l);
    var n, r := Sent(l, writeData, readLength), Received(l, writeData);
    var replies := ExchangeAll(slave, w, Outgoing(writeData, readLength)[..n]).1;
    assert 0 <= |writeData| - l.ignore <= r < |replies| == n && (l.ignore > 0 ==> r == |writeData| - l.ignore);
    hide Exchange, ExchangeAll, Outgoing, Counts, Receive, Sent, Received;
    if l.ignore == 0 {
      assert replies[|writeData|..r + 1] == replies[|writeData|..r] + [replies[r]];
    } else {
      assert replies[|writeData| - (l.ignore - 1)..r + 1] == [];
    }
  }

  /** Every poll keeps the loop good; in particular the credit never leaves {0, 1}. */
  lemma PollKeepsGood<S>(slave: Slave<S>, w: Wire<S>, writeData: seq<byte>, readLength: nat, l: Loop<S>, p: Poll)
    requires Good(slave, w, writeData, readLength, l) && Possible(l, p)
    requires writeData != [] || readLength > 0
    ensures Good(slave, w, writeData, readLength, Iterate(slave, l, p, readLength))
  {
    if !l.done && Effective(l, p) {
      if l.credits == 1 {
        SendKeepsGood(slave, w, writeData, readLength, l);
      } else {
        ReceiveKeepsGood(slave, w, writeData, readLength, l);
      }
    }
  }

  // ---------------------------------------------------------------- every schedule

  /** For every schedule of ready flags and every non-empty command: at most one byte is
      outstanding, the -1024 branch is not taken, the chip select stays as it was, the slave has
      seen exactly a prefix of the outgoing bytes, and a finished loop has exchanged them all and
      read the last replies. */
  lemma {:induction false} EveryScheduleIsGood<S>(slave: Slave<S>, w: Wire<S>, writeData: seq<byte>,
                                                  readLength: nat, l: Loop<S>,
                                                  polls: seq<Poll>)
    requires writeData != [] || readLength > 0
    requires Good(slave, w, writeData, readLength, l) && Schedule(slave, l, polls, readLength)
    ensures var t := Run(slave, l, polls, readLength); var all := Outgoing(writeData, readLength);
      && Good(slave, w, writeData, readLength, t)
      && (t.credits == 0 || t.credits == 1)
      && 0 <= Sent(t, writeData, readLength) - Received(t, writeData) == 1 - t.credits <= 1
      && t.wire == ExchangeAll(slave, w, all[..Sent(t, writeData, readLength)]).0
      && t.wire.sso == w.sso
      && (t.done ==> (t.wire, t.got) == (ExchangeAll(slave, w, all).0, ExchangeAll(slave, w, all).1[|writeData|..]))
    decreases |polls|
  {
    if polls == [] {
      var all := Outgoing(writeData, readLength);
      if l.done {
        assert l.ignore == 0 && Sent(l, writeData, readLength) == |all|;
        assert all[..|all|] == all;
        var replies := ExchangeAll(slave, w, all).1;
        assert replies[|writeData|..|all|] == replies[|writeData|..];
      }
    } else {
      PollKeepsGood(slave, w, writeData, readLength, l, polls[0]);
      EveryScheduleIsGood(slave, w, writeData, readLength, Iterate(slave, l, polls[0], readLength), polls[1..]);
    }
  }

  lemma FinishedIsTransfer<S>(slave: Slave<S>, start: Wire<S>, writeData: seq<byte>,
                              readLength: nat, toggle: bool, merge: bool,
                              l: Loop<S>)
    requires writeData != [] || readLength > 0
    requires Good(slave, Assert(slave, start, toggle), writeData, readLength, l) && l.done
    ensures (Release(slave, l.wire, merge), l.got) == Transfer(slave, start, writeData, readLength, toggle, merge)
    ensures |l.got| == readLength
  {
    EveryScheduleIsGood(slave, Assert(slave, start, toggle), writeData, readLength, l, []);
  }

  /** Bytes still to be sent plus replies still to be taken. */
  function Remaining<S>(l: Loop<S>, writeData: seq<byte>, readLength: nat): int {
    2 * (|writeData| + readLength) - Sent(l, writeData, readLength) - Received(l, writeData)
  }

  /** The polls of a schedule that find the loop something to do. */
  function EffectivePolls<S>(slave: Slave<S>, l: Loop<S>, polls: seq<Poll>, readLength: nat): nat
    requires Schedule(slave, l, polls, readLength)
    decreases |polls|
  {
    if polls == [] then 0
    else (if Effective(l, polls[0]) then 1 else 0) +
         EffectivePolls(slave, Iterate(slave, l, polls[0], readLength), polls[1..], readLength)
  }

  /** A loop that is not finished has used fewer effective polls than two per byte. */
  lemma {:induction false} TwoPollsPerByte<S>(slave: Slave<S>, w: Wire<S>, writeData: seq<byte>,
                                              readLength: nat, l: Loop<S>,
                                              polls: seq<Poll>)
    requires writeData != [] || readLength > 0
    requires Good(slave, w, writeData, readLength, l) && Schedule(slave, l, polls, readLength)
    ensures EffectivePolls(slave, l, polls, readLength) >= Remaining(l, writeData, readLength) ==>
              Run(slave, l, polls, readLength).done
    decreases |polls|
  {
    if polls != [] {
      var m := Iterate(slave, l, polls[0], readLength);
      PollKeepsGood(slave, w, writeData, readLength, l, polls[0]);
      TwoPollsPerByte(slave, w, writeData, readLength, m, polls[1..]);
      if l.done {
        DoneStays(slave, l, polls, readLength);
      } else if Effective(l, polls[0]) {
        assert Remaining(m, writeData, readLength) <= Remaining(l, writeData, readLength) - 1;
      }
    }
  }

  lemma {:induction false} DoneStays<S>(slave: Slave<S>, l: Loop<S>, polls: seq<Poll>, readLength: nat)
    requires l.done && Schedule(slave, l, polls, readLength)
    ensures Run(slave, l, polls, readLength) == l
    decreases |polls|
  {
    if polls != [] {
      DoneStays(slave, l, polls[1..], readLength);
    }
  }

  /** A command with nothing to write and nothing to read never ends, whatever the flags do. */
  lemma {:induction false} EmptyCommandNeverReturns<S>(slave: Slave<S>, l: Loop<S>, polls: seq<Poll>)
    requires l.writeLeft == [] && l.zeros == 0 && l.inFlight.None? && !l.done
    requires Schedule(slave, l, polls, 0)
    ensures !Run(slave, l, polls, 0).done
    decreases |polls|
  {
    if polls != [] {
      EmptyCommandNeverReturns(slave, Iterate(slave, l, polls[0], 0), polls[1..]);
    }
  }

  /** What the routine itself needs to know of a good loop. */
  lemma GoodFacts<S>(slave: Slave<S>, w: Wire<S>, writeData: seq<byte>, readLength: nat, l: Loop<S>)
    requires writeData != [] || readLength > 0
    requires Good(slave, w, writeData, readLength, l)
    ensures l.credits == 0 || l.credits == 1
    ensures l.inFlight.Some? <==> l.credits == 0
    ensures Remaining(l, writeData, readLength) >= 0
    ensures l.credits == 1 && !l.done ==>
              && Good(slave, w, writeData, readLength, Send(slave, l))
              && Remaining(Send(slave, l), writeData, readLength) == Remaining(l, writeData, readLength) - 1
    ensures l.credits == 0 && !l.done ==>
              && Good(slave, w, writeData, readLength, Receive(l, readLength))
              && Remaining(Receive(l, readLength), writeData, readLength) == Remaining(l, writeData, readLength) - 1
  {
    if !l.done {
      if l.credits == 1 {
        SendKeepsGood(slave, w, writeData, readLength, l);
      } else {
        ReceiveKeepsGood(slave, w, writeData, readLength, l);
      }
    }
  }

  // ---------------------------------------------------------------- the routine

  /** alt_avalon_spi_command.  The flags are read from an arbitrary controller that becomes ready
      after finitely many fruitless polls. */
  method Command<S>(slave: Slave<S>, start: Wire<S>, writeData: seq<byte>, readLength: nat, toggle: bool, merge: bool)
    returns (wire: Wire<S>, readData: seq<byte>)
    requires writeData != [] || readLength > 0
    ensures (wire, readData) == Transfer(slave, start, writeData, readLength, toggle, merge)
    ensures |readData| == readLength
  {
    hide Good, Transfer, Assert, Exchange, Release, Remaining;
    wire := Assert(slave, start, toggle);
    readData := [];
    var next: nat, writeZeros: nat, readIgnore: nat := 0, readLength, |writeData|;
    var credits: int := 1;
    var rxData: Option<byte> := None;
    var finished := false;
    ghost var w := wire;
    ghost var l := Begin(w, writeData, readLength);
    BeginIsGood(slave, w, writeData, readLength);
    var patience: nat := *;
    while !finished
      invariant Good(slave, w, writeData, readLength, l) && next <= |writeData|
      invariant l == Loop(wire, credits, writeData[next..], writeZeros, readIgnore, readData, rxData, finished)
      decreases !finished, Remaining(l, writeData, readLength), patience
    {
      var trdy: bool, rrdy: bool := *, *;
      if patience == 0 {
        trdy, rrdy := true, rxData.Some?;
      }
      rrdy := rrdy && rxData.Some?;
      GoodFacts(slave, w, writeData, readLength, l);
      if (!trdy || credits == 0) && !rrdy {
        patience := patience - 1;
        continue;
      }
      if trdy && credits > 0 {
        l := Send(slave, l);
        credits := credits - 1;
        if next < |writeData| {
          assert writeData[next..][1..] == writeData[next + 1..];
          var reply;
          wire, reply := ExchangeByte(slave, wire, writeData[next]);
          next, rxData := next + 1, Some(reply);
        } else if writeZeros > 0 {
          writeZeros := writeZeros - 1;
          var reply;
          wire, reply := ExchangeByte(slave, wire, 0);
          rxData := Some(reply);
        } else {
          credits := -1024;
        }
      }
      if rrdy {
        l := Receive(l, readLength);
        readIgnore, readData, finished := TakeReply(rxData.value, readIgnore, readData, readLength);
        rxData := None;
        credits := credits + 1;
      }
    }
    FinishedIsTransfer(slave, start, writeData, readLength, toggle, merge, l);
    wire := Release(slave, wire, merge);
  }

  /** One reply: ignored or stored; is it the last? */
  method TakeReply(rxData: byte, readIgnore: nat, readData: seq<byte>, readLength: nat)
    returns (ignore: nat, data: seq<byte>, last: bool)
    ensures readIgnore > 0 ==> ignore == readIgnore - 1 && data == readData
    ensures readIgnore == 0 ==> ignore == 0 && data == readData + [rxData]
    ensures last <==> ignore == 0 && |data| == readLength
  {
    ignore, data := readIgnore, readData;
    if ignore > 0 {
      ignore := ignore - 1;
    } else {
      data := data + [rxData];
    }
    last := ignore == 0 && |data| == readLength;
  }

  method ExchangeByte<S>(slave: Slave<S>, wire: Wire<S>, b: byte) returns (w: Wire<S>, reply: byte)
    ensures (w, reply) == Exchange(slave, wire, b)
  {
    var r := Exchange(slave, wire, b);
    w, reply := r.0, r.1;
  }
}
