/**
 The interrupt registry and the dispatcher: a handler table, a shadow of the interrupt-enable
 register, and a loop that serves the lowest-numbered pending line.
 */
module Irq {
  import opened Bytes
  import opened Errno
  import opened Wrappers

  const NIRQ: nat := 32

  /** A 32-bit register, bit 0 first */
  type word = w: seq<bool> | |w| == NIRQ witness seq(NIRQ, _ => false)

  /** An entry of `alt_irq`; no handler is the null pointer. */
  datatype Slot = Slot(handler: Option<nat>, context: nat)

  datatype Cpu = Cpu(table: seq<Slot>, active: word, ienable: word, pie: bool)

  // ---------------------------------------------------------------- bits

  function Zero(): word {
    seq(NIRQ, _ => false)
  }

  function One(): word {
    seq(NIRQ, k => k == 0)
  }

  function And(a: word, b: word): word {
    seq(NIRQ, k requires 0 <= k < NIRQ => a[k] && b[k])
  }

  function Or(a: word, b: word): word {
    seq(NIRQ, k requires 0 <= k < NIRQ => a[k] || b[k])
  }

  function Not(a: word): word {
    seq(NIRQ, k requires 0 <= k < NIRQ => !a[k])
  }

  /** A shift left by one bit; the topmost bit is lost. */
  function Shl(a: word): word {
    [false] + a[..NIRQ - 1]
  }

  /** `1 << i` */
  function Mask(i: nat): word {
    if i == 0 then One() else Shl(Mask(i - 1))
  }

  predicate Bit(w: word, i: nat) {
    And(w, Mask(i)) != Zero()
  }

  /** `active |= 1 << id`, or `active &= ~(1 << id)` */
  function Switched(active: word, id: nat, on: bool): word {
    if on then Or(active, Mask(id)) else And(active, Not(Mask(id)))
  }

  lemma {:induction false} MaskIs(i: nat, k: nat)
    requires k < NIRQ
    ensures Mask(i)[k] <==> k == i
  {
    if i > 0 && k > 0 {
      MaskIs(i - 1, k - 1);
    }
  }

  /** A mask tests its own bit, and none once it has been shifted out. */
  lemma BitIs(w: word, i: nat)
    ensures Bit(w, i) <==> i < NIRQ && w[i]
  {
    var a := And(w, Mask(i));
    forall k: nat | k < NIRQ
      ensures a[k] <==> k == i && w[k]
    {
      MaskIs(i, k);
    }
    hide And, Mask;
    if i < NIRQ && w[i] {
      assert a[i] && !Zero()[i];
    } else {
      assert a == Zero();
    }
  }

  /** The search for a set bit, from 0 up and without a bound, ends exactly if the word is not 0. */
  lemma SearchEndsIff(w: word)
    ensures (exists i: nat :: Bit(w, i)) <==> w != Zero()
    ensures w != Zero() <==> exists i: nat :: i < NIRQ && Bit(w, i)
  {
    hide Bit;
    forall i: nat
      ensures Bit(w, i) <==> i < NIRQ && w[i]
    {
      BitIs(w, i);
    }
    if w != Zero() {
      var k: nat :| k < NIRQ && w[k] != Zero()[k];
      assert Bit(w, k);
    }
  }

  lemma BitSet(w: word, id: nat, k: nat)
    requires id < NIRQ && k < NIRQ
    ensures Bit(Switched(w, id, true), k) <==> k == id || Bit(w, k)
    ensures Bit(Switched(w, id, false), k) <==> k != id && Bit(w, k)
  {
    BitIs(w, k);
    BitIs(Switched(w, id, true), k);
    BitIs(Switched(w, id, false), k);
    MaskIs(id, k);
    hide Mask, Bit;
  }

  // ---------------------------------------------------------------- the registry

  predicate Sized(c: Cpu) {
    |c.table| == NIRQ
  }

  /** The shadow is the register, and exactly the lines with a handler are enabled. */
  predicate Consistent(c: Cpu)
    requires Sized(c)
  {
    c.active == c.ienable && forall i :: 0 <= i < NIRQ ==> LineOk(c, i)
  }

  predicate LineOk(c: Cpu, i: nat)
    requires Sized(c) && i < NIRQ
  {
    Bit(c.ienable, i) <==> c.table[i].handler.Some?
  }

  /** What holds at every statement boundary. */
  predicate Safe(c: Cpu) {
    Sized(c) && (c.pie ==> Consistent(c))
  }

  datatype Registration = Registration(irq: u32, isr: Option<nat>, context: nat)

  /** `id < ALT_NIRQ`, where `id` is the signed integer that the line number is stored as. */
  predicate Admitted(irq: u32) {
    Int32(irq) < NIRQ
  }

  /** What callers have to see to: a number that is not negative when it is taken as signed. */
  predicate Sensible(r: Registration) {
    r.irq < 0x8000_0000
  }

  /** The signed comparison also admits the numbers that no table entry belongs to. */
  lemma AdmittedIff(irq: u32)
    ensures Admitted(irq) <==> irq < NIRQ || irq >= 0x8000_0000
  {
  }

  /** The effect of a registration; one for a line that does not exist has none. */
  function Register(c: Cpu, r: Registration): Cpu
    requires Sized(c) && Sensible(r)
  {
    if r.irq >= NIRQ then c
    else
      var active := Switched(c.active, r.irq, r.isr.Some?);
      c.(table := c.table[r.irq := Slot(r.isr, r.context)], active := active, ienable := active)
  }

  function Reset(): Cpu {
    Cpu(seq(NIRQ, _ => Slot(None, 0)), Zero(), Zero(), false)
  }

  predicate AllSensible(rs: seq<Registration>) {
    forall i :: 0 <= i < |rs| ==> Sensible(rs[i])
  }

  function RegisterEach(c: Cpu, rs: seq<Registration>): (d: Cpu)
    requires Sized(c) && AllSensible(rs)
    ensures Sized(d) && d.pie == c.pie
  {
    if rs == [] then c else Register(RegisterEach(c, rs[..|rs| - 1]), rs[|rs| - 1])
  }

  /** The last registration of a line, or what the table had before. */
  function LastFor(c: Cpu, rs: seq<Registration>, i: nat): Slot
    requires Sized(c) && i < NIRQ
  {
    if rs == [] then c.table[i]
    else
      var r := rs[|rs| - 1];
      if r.irq == i then Slot(r.isr, r.context) else LastFor(c, rs[..|rs| - 1], i)
  }

  lemma RegisterKeeps(c: Cpu, r: Registration)
    requires Sized(c) && Consistent(c) && Sensible(r)
    ensures Consistent(Register(c, r))
  {
    if r.irq < NIRQ {
      var d := Register(c, r);
      hide Bit, Mask, Switched;
      forall i | 0 <= i < NIRQ
        ensures LineOk(d, i)
      {
        assert LineOk(c, i);
        BitSet(c.active, r.irq, i);
      }
    }
  }

  lemma ResetIsConsistent()
    ensures Consistent(Reset())
  {
    hide Bit;
    forall k | 0 <= k < NIRQ
      ensures LineOk(Reset(), k)
    {
      NoBits(k);
    }
  }

  /** After any registrations, null handlers included, every line has the handler and the context of
      its last one, and is enabled exactly if that handler is not null. */
  lemma {:induction false} LastOneWins(c: Cpu, rs: seq<Registration>, i: nat)
    requires Sized(c) && Consistent(c) && AllSensible(rs) && i < NIRQ
    ensures var d := RegisterEach(c, rs);
      && Consistent(d) && d.table[i] == LastFor(c, rs, i)
      && (Bit(d.ienable, i) <==> LastFor(c, rs, i).handler.Some?)
  {
    hide Bit;
    if rs != [] {
      var before := rs[..|rs| - 1];
      LastOneWins(c, before, i);
      RegisterKeeps(RegisterEach(c, before), rs[|rs| - 1]);
    }
    assert LineOk(RegisterEach(c, rs), i);
  }

  lemma NoBits(k: nat)
    ensures !Bit(Zero(), k)
  {
    BitIs(Zero(), k);
  }

  // ---------------------------------------------------------------- the dispatcher

  predicate IsLowest(w: word, i: nat) {
    i < NIRQ && Bit(w, i) && forall k :: 0 <= k < i ==> !Bit(w, k)
  }

  /** What the handler that is called at each reading registers. */
  type Effects = nat -> seq<Registration>

  ghost predicate Orderly(effects: Effects) {
    forall n: nat :: AllSensible(effects(n))
  }

  /** The state after `k` handlers, when the first of them is called at reading `m`. */
  ghost function StateAt(c: Cpu, effects: Effects, m: nat, k: nat): (d: Cpu)
    requires Sized(c) && Orderly(effects)
    ensures Sized(d) && d.pie == c.pie
  {
    if k == 0 then c else RegisterEach(StateAt(c, effects, m, k - 1), effects(m + k - 1))
  }

  /** Each call is the one for the lowest line that is pending at its reading, with the handler and
      the context that the line has at that moment. */
  ghost predicate ServesLowest(c: Cpu, effects: Effects, lines: nat -> word, m: nat, calls: seq<Slot>)
    requires Sized(c) && Orderly(effects)
  {
    forall j :: 0 <= j < |calls| ==> ServesAt(c, effects, lines, m, j, calls[j])
  }

  ghost predicate ServesAt(c: Cpu, effects: Effects, lines: nat -> word, m: nat, j: nat, call: Slot)
    requires Sized(c) && Orderly(effects)
  {
    var d := StateAt(c, effects, m, j);
    Serves(d, PendingAt(d, lines, m + j), call) && call.handler.Some?
  }

  function PendingAt(c: Cpu, lines: nat -> word, n: nat): word {
    Masked(lines(n), c.ienable)
  }

  /** The asserted lines that are enabled */
  function Masked(asserted: word, ienable: word): word {
    And(asserted, ienable)
  }

  ghost predicate Serves(c: Cpu, pending: word, call: Slot)
    requires Sized(c)
  {
    exists i: nat :: IsLowest(pending, i) && call == c.table[i]
  }

  lemma OneMoreServed(c: Cpu, effects: Effects, lines: nat -> word, m: nat, calls: seq<Slot>, call: Slot)
    requires Sized(c) && Orderly(effects) && ServesLowest(c, effects, lines, m, calls)
    requires ServesAt(c, effects, lines, m, |calls|, call)
    ensures ServesLowest(c, effects, lines, m, calls + [call])
  {
    hide ServesAt;
  }

  lemma PendingIsEnabled(c: Cpu, lines: word, i: nat)
    requires Sized(c) && Consistent(c) && i < NIRQ && Bit(Masked(lines, c.ienable), i)
    ensures c.table[i].handler.Some?
  {
    assert LineOk(c, i);
    BitIs(Masked(lines, c.ienable), i);
    BitIs(c.ienable, i);
  }

  // ---------------------------------------------------------------- the machine

  /** The processor state with its device lines, and a record of the state after every statement. */
  class Processor {
    const irq: array<Slot>
    var active: word
    var ienable: word
    var pie: bool
    var taken: nat
    const lines: nat -> word
    var calls: seq<Slot>
    ghost var history: seq<Cpu>

    ghost function View(): Cpu
      reads this, irq
    {
      Cpu(irq[..], active, ienable, pie)
    }

    constructor (lines: nat -> word)
      ensures fresh(irq) && View() == Reset() && calls == [] && history == [] && this.lines == lines
    {
      irq := new Slot[NIRQ](_ => Slot(None, 0));
      active, ienable, pie := Zero(), Zero(), false;
      this.lines := lines;
      calls, history, taken := [], [], 0;
      new;
      assert irq[..] == Reset().table;
    }

    method DisableAll() returns (context: bool)
      modifies this`pie, this`history
      ensures context == old(pie) && View() == old(View()).(pie := false) && history == old(history) + [View()]
    {
      context := pie;
      pie := false;
      history := history + [View()];
    }

    method EnableAll(context: bool)
      modifies this`pie, this`history
      ensures View() == old(View()).(pie := context) && history == old(history) + [View()]
    {
      pie := context;
      history := history + [View()];
    }

    method SetHandler(id: nat, isr: Option<nat>)
      requires Sized(View()) && id < NIRQ
      modifies irq, this`history
      ensures View() == old(View()).(table := old(View()).table[id := old(View()).table[id].(handler := isr)])
      ensures history == old(history) + [View()]
    {
      irq[id] := irq[id].(handler := isr);
      history := history + [View()];
    }

    method SetContext(id: nat, context: nat)
      requires Sized(View()) && id < NIRQ
      modifies irq, this`history
      ensures View() == old(View()).(table := old(View()).table[id := old(View()).table[id].(context := context)])
      ensures history == old(history) + [View()]
    {
      irq[id] := irq[id].(context := context);
      history := history + [View()];
    }

    /** `alt_irq_enable` and `alt_irq_disable`: interrupts stay disabled up to the last statement. */
    method Switch(id: nat, on: bool)
      requires Sized(View())
      modifies this`active, this`ienable, this`pie, this`history
      ensures var a := Switched(old(active), id, on); View() == old(View()).(active := a, ienable := a)
      ensures |history| > |old(history)| && history[..|old(history)|] == old(history) &&
        history[|history| - 1] == View()
      ensures forall j :: |old(history)| <= j < |history| - 1 ==> Sized(history[j]) && !history[j].pie
    {
      hide Switched, Bit, LineOk;
      var status := DisableAll();
      active := SwitchBit(active, id, on);
      history := history + [View()];
      ienable := active;
      history := history + [View()];
      EnableAll(status);
    }

    /** The handler tables and the enable bit, with interrupts disabled. */
    method Install(id: nat, r: Registration)
      requires Sized(View()) && id < NIRQ && id == r.irq && !pie
      modifies this`active, this`ienable, this`pie, this`history, irq
      ensures View() == Register(old(View()), r)
      ensures old(history) <= history && forall j :: |old(history)| <= j < |history| ==> Safe(history[j])
    {
      hide Switched, Consistent;
      SetHandler(id, r.isr);
      SetContext(id, r.context);
      Switch(id, r.isr.Some?);
    }

    /** Registers a handler. Between any two statements an interrupt that is taken finds the shadow
        equal to the register and a handler behind every enabled line. */
    method RegisterIsr(r: Registration) returns (rc: int)
      requires Sized(View()) && Consistent(View()) && Sensible(r)
      modifies this`active, this`ienable, this`pie, this`history, irq
      ensures View() == Register(old(View()), r) && Consistent(View())
      ensures rc == if r.irq < NIRQ then 0 else -EINVAL
      ensures old(history) <= history && forall j :: |old(history)| <= j < |history| ==> Safe(history[j])
    {
      RegisterKeeps(View(), r);
      hide LineOk, Switched;
      rc := -EINVAL;
      var id := Int32(r.irq);
      if id < NIRQ {
        var status := DisableAll();
        Install(id, r);
        rc := 0;
        EnableAll(status);
      }
    }

    /** The registrations that a handler makes. */
    method RunHandler(rs: seq<Registration>)
      requires Sized(View()) && Consistent(View()) && AllSensible(rs)
      modifies this`active, this`ienable, this`pie, this`history, irq
      ensures View() == RegisterEach(old(View()), rs) && Consistent(View())
    {
      hide Consistent, Register;
      var i := 0;
      while i < |rs|
        invariant 0 <= i <= |rs| && Sized(View()) && Consistent(View())
        invariant View() == RegisterEach(old(View()), rs[..i])
      {
        assert rs[..i + 1][..i] == rs[..i];
        var _ := RegisterIsr(rs[i]);
        i := i + 1;
      }
      assert rs[..i] == rs;
    }

    method Pending() returns (w: word)
      modifies this`taken
      ensures w == Masked(lines(old(taken)), ienable) && taken == old(taken) + 1
    {
      w := And(lines(taken), ienable);
      taken := taken + 1;
    }

    /** Tests each bit in turn. */
    method FindLowest(pending: word) returns (i: nat)
      requires pending != Zero()
      ensures IsLowest(pending, i)
    {
      SearchEndsIff(pending);
      ghost var end: nat :| end < NIRQ && Bit(pending, end);
      hide Bit, Mask;
      i := 0;
      var mask: word := FirstMask();
      while true
        invariant i <= end && mask == Mask(i)
        invariant forall k :: 0 <= k < i ==> !Bit(pending, k)
        decreases end - i
      {
        var found := TestBit(pending, mask, i);
        if found {
          break;
        }
        mask := NextMask(i, mask);
        i := i + 1;
      }
    }

    /** Calls the handler of the lowest pending line. */
    method ServeOne(pending: word, ghost asserted: word)
      requires Sized(View()) && Consistent(View()) && pending == Masked(asserted, ienable) && pending != Zero()
      modifies this`calls
      ensures |calls| == |old(calls)| + 1 && calls[..|old(calls)|] == old(calls)
      ensures Serves(View(), pending, calls[|old(calls)|]) && calls[|old(calls)|].handler.Some?
    {
      hide Bit, Masked, Consistent;
      var i := FindLowest(pending);
      PendingIsEnabled(View(), asserted, i);
      calls := calls + [irq[i]];
    }

    /** `served` are the calls made since reading `m`, when the state was `c`. */
    ghost predicate Midway(c: Cpu, effects: Effects, m: nat, served: seq<Slot>)
      requires Orderly(effects)
      reads this, irq
    {
      && Sized(c) && ServesLowest(c, effects, lines, m, served)
      && Sized(View()) && Consistent(View()) && View() == StateAt(c, effects, m, |served|) && taken == m + |served| + 1
    }

    /** One pass of the outer loop: a handler is called and the next pending lines are read. */
    method OnePass(pending: word, effects: Effects, ghost c: Cpu, ghost m: nat, ghost served: seq<Slot>)
      returns (next: word)
      requires Orderly(effects) && Midway(c, effects, m, served)
      requires pending != Zero() && pending == PendingAt(View(), lines, m + |served|)
      modifies this`active, this`ienable, this`pie, this`history, this`calls, this`taken, irq
      ensures |calls| == |old(calls)| + 1 && calls[..|old(calls)|] == old(calls)
      ensures Midway(c, effects, m, served + [calls[|calls| - 1]])
      ensures next == PendingAt(View(), lines, m + |served| + 1)
    {
      hide Masked, Bit, LineOk, Serves, ServesLowest, Consistent, Orderly, AllSensible, Register, RegisterEach;
      ServeOne(pending, lines(taken - 1));
      ghost var call := calls[|calls| - 1];
      OneMoreServed(c, effects, lines, m, served, call);
      EffectsSensible(effects, taken - 1);
      NextState(c, effects, m, |served|);
      RunHandler(effects(taken - 1));
      next := Pending();
    }

    /** Serves pending lines until none is left, which the devices and the handlers must bring about
        at some reading. Handlers may register handlers. */
    method Dispatch(effects: Effects, ghost quiet: nat)
      requires Sized(View()) && Consistent(View()) && Orderly(effects)
      requires PendingAt(View(), lines, taken) != Zero()
      requires quiet > taken && PendingAt(StateAt(View(), effects, taken, quiet - taken), lines, quiet) == Zero()
      modifies this`active, this`ienable, this`pie, this`history, this`calls, this`taken, irq
      ensures |calls| > |old(calls)| && calls[..|old(calls)|] == old(calls)
      ensures Midway(old(View()), effects, old(taken), calls[|old(calls)|..])
      ensures PendingAt(View(), lines, taken - 1) == Zero()
    {
      hide Masked, PendingAt, Serves, ServesLowest, Consistent, Orderly, StateAt;
      ghost var c, m := View(), taken;
      var pending := FirstPass(effects);
      ghost var served: seq<Slot> := [];
      while true
        invariant calls == old(calls) + served && Midway(c, effects, m, served) && taken <= quiet
        invariant pending != Zero() && pending == PendingAt(View(), lines, m + |served|)
        decreases quiet - taken
      {
        ghost var before := calls;
        pending := OnePass(pending, effects, c, m, served);
        served := served + [calls[|before|]];
        assert calls == before + [calls[|before|]];
        if pending == Zero() {
          break;
        }
      }
      assert calls[|old(calls)|..] == served;
    }

    method FirstPass(ghost effects: Effects) returns (pending: word)
      requires Sized(View()) && Consistent(View()) && Orderly(effects)
      modifies this`taken
      ensures pending == PendingAt(View(), lines, old(taken)) && Midway(View(), effects, old(taken), [])
    {
      NoneServed(View(), effects, lines, taken);
      hide Consistent, Masked, ServesLowest;
      pending := Pending();
    }
  }

  lemma NextState(c: Cpu, effects: Effects, m: nat, k: nat)
    requires Sized(c) && Orderly(effects)
    ensures AllSensible(effects(m + k))
    ensures StateAt(c, effects, m, k + 1) == RegisterEach(StateAt(c, effects, m, k), effects(m + k))
  {
  }

  lemma NoneServed(c: Cpu, effects: Effects, lines: nat -> word, m: nat)
    requires Sized(c) && Orderly(effects)
    ensures ServesLowest(c, effects, lines, m, [])
  {
  }

  lemma EffectsSensible(effects: Effects, n: nat)
    requires Orderly(effects)
    ensures AllSensible(effects(n))
  {
  }

  method TestBit(w: word, mask: word, ghost i: nat) returns (b: bool)
    requires mask == Mask(i)
    ensures b <==> Bit(w, i)
  {
    b := And(w, mask) != Zero();
  }

  method SwitchBit(active: word, id: nat, on: bool) returns (a: word)
    ensures a == Switched(active, id, on)
  {
    a := if on then Or(active, Mask(id)) else And(active, Not(Mask(id)));
  }

  method FirstMask() returns (m: word)
    ensures m == Mask(0)
  {
    m := One();
  }

  method NextMask(ghost i: nat, mask: word) returns (m: word)
    requires mask == Mask(i)
    ensures m == Mask(i + 1)
  {
    MaskNext(i);
    hide Mask;
    m := Shl(mask);
  }

  lemma MaskNext(i: nat)
    ensures Mask(i + 1) == Shl(Mask(i))
  {
  }
}
