/**
 The alarm scheduler on values: a 32-bit tick counter that wraps, one `rollover` bit per alarm,
 and the ideal scheduler with an unbounded clock and unbounded deadlines that it refines.
 */
module AlarmModel {
  import opened Bytes
  import opened Wrappers

  /** The fields of `alt_alarm` that the scheduler computes with. */
  datatype Alarm = Alarm(time: u32, rollover: bool)

  /** alt_alarm_start at counter value `now`. */
  function StartAlarm(now: u32, nticks: u32): Alarm {
    var time := Wrap(nticks + now + 1);
    Alarm(time, time < now)
  }

  /** The first thing a tick does to an alarm: the counter reaching zero clears the flag. */
  function Visit(now: u32, a: Alarm): Alarm {
    if a.rollover && now == 0 then a.(rollover := false) else a
  }

  predicate Due(now: u32, a: Alarm) {
    a.time <= now && !a.rollover
  }

  /** Re-arming after the callback returned `period`. */
  function Rearm(now: u32, a: Alarm, period: u32): Alarm {
    var time := Wrap(a.time + period);
    Alarm(time, if time < now then true else a.rollover)
  }

  /** One tick for one alarm: is the callback made, and what becomes of the alarm? */
  function TickAlarm(now: u32, a: Alarm, period: u32): (bool, Option<Alarm>) {
    var v := Visit(now, a);
    if !Due(now, v) then (false, Some(v))
    else if period == 0 then (true, None)
    else (true, Some(Rearm(now, v, period)))
  }

  // ---------------------------------------------------------------- one alarm against its deadline

  function Epoch(t: nat): nat {
    t / TWO_32
  }

  /** Between two ticks: alarm `a` stands for `deadline`, less than one wrap ahead of `clock`;
      the flag is set if and only if the deadline lies in the next epoch of the counter. */
  predicate Stands(clock: nat, a: Alarm, deadline: nat) {
    && clock < deadline < clock + TWO_32
    && a.time == deadline % TWO_32
    && (a.rollover <==> Epoch(deadline) == Epoch(clock) + 1)
  }

  lemma EpochOf(clock: nat, t: nat)
    requires clock <= t < clock + TWO_32
    ensures Epoch(t) == Epoch(clock) || Epoch(t) == Epoch(clock) + 1
    ensures Epoch(t) == Epoch(clock) <==> clock % TWO_32 <= t % TWO_32
    ensures Epoch(t) == Epoch(clock) <==> clock % TWO_32 + (t - clock) < TWO_32
  {
    var e, r := clock / TWO_32, clock % TWO_32;
    assert clock == e * TWO_32 + r;
    var d := t - clock;
    if r + d < TWO_32 {
      assert t == e * TWO_32 + (r + d);
    } else {
      assert t == (e + 1) * TWO_32 + (r + d - TWO_32);
    }
  }

  lemma StartStands(clock: nat, nticks: u32)
    requires nticks < TWO_32 - 1
    ensures Stands(clock, StartAlarm(clock % TWO_32, nticks), clock + nticks + 1)
  {
    var d := clock + nticks + 1;
    EpochOf(clock, d);
    assert Wrap(nticks + clock % TWO_32 + 1) == d % TWO_32;
  }

  /** After the visit the flag is about the new counter value, and the alarm is due at its deadline. */
  lemma VisitStands(clock: nat, a: Alarm, deadline: nat)
    requires Stands(clock, a, deadline)
    ensures var c := clock + 1; var v := Visit(c % TWO_32, a);
      && v.time == deadline % TWO_32
      && (v.rollover <==> Epoch(deadline) == Epoch(c) + 1)
      && (Due(c % TWO_32, v) <==> c == deadline)
  {
    var c := clock + 1;
    EpochOf(clock, c);
    EpochOf(clock, deadline);
    EpochOf(c, deadline);
    assert c % TWO_32 == 0 <==> Epoch(c) == Epoch(clock) + 1;
    hide Epoch;
  }

  lemma RearmStands(c: nat, v: Alarm, period: u32)
    requires v.time == c % TWO_32 && !v.rollover && period > 0
    ensures Stands(c, Rearm(c % TWO_32, v, period), c + period)
  {
    EpochOf(c, c + period);
    assert Wrap(v.time + period) == (c + period) % TWO_32;
    hide Epoch;
  }

  /** One tick: the callback is made exactly when the clock reaches the deadline, and what is left
      stands for the unchanged or the next deadline. */
  lemma TickStands(clock: nat, a: Alarm, deadline: nat, period: u32)
    requires Stands(clock, a, deadline)
    ensures var now := (clock + 1) % TWO_32; var r := TickAlarm(now, a, period);
      && (r.0 <==> clock + 1 == deadline)
      && (r.1.None? <==> r.0 && period == 0)
      && (r.1.Some? ==> Stands(clock + 1, r.1.value, if r.0 then deadline + period else deadline))
  {
    var c := clock + 1;
    VisitStands(clock, a, deadline);
    EpochOf(clock, deadline);
    hide Epoch, Visit, Due, Rearm;
    if c == deadline && period > 0 {
      RearmStands(c, Visit(c % TWO_32, a), period);
    }
  }

  // ---------------------------------------------------------------- all alarms

  /** One tick over the list, head first: the alarms left, in order, and the callbacks made. */
  function TickAll<Id>(now: u32, alarms: seq<(Id, Alarm)>, answer: Id -> u32): (seq<(Id, Alarm)>, seq<Id>) {
    if alarms == [] then ([], [])
    else
      var (id, a) := alarms[0];
      var (fired, left) := TickAlarm(now, a, answer(id));
      var (rest, calls) := TickAll(now, alarms[1..], answer);
      ((if left.Some? then [(id, left.value)] else []) + rest, (if fired then [id] else []) + calls)
  }

  lemma {:induction false} TickAllAppend<Id>(now: u32, x: seq<(Id, Alarm)>, y: seq<(Id, Alarm)>, answer: Id -> u32)
    ensures var (a, f) := TickAll(now, x, answer); var (b, g) := TickAll(now, y, answer);
      TickAll(now, x + y, answer) == (a + b, f + g)
    decreases |x|
  {
    if x == [] {
      var (b, g) := TickAll(now, y, answer);
      assert x + y == y && [] + b == b && [] + g == g;
    } else {
      assert (x + y)[0] == x[0] && (x + y)[1..] == x[1..] + y;
      TickAllAppend(now, x[1..], y, answer);
      var (a, f) := TickAll(now, x[1..], answer);
      var (b, g) := TickAll(now, y, answer);
      var (fired, left) := TickAlarm(now, x[0].1, answer(x[0].0));
      var head := if left.Some? then [(x[0].0, left.value)] else [];
      var call := if fired then [x[0].0] else [];
      assert head + (a + b) == (head + a) + b && call + (f + g) == (call + f) + g;
    }
  }

  /** The traversal so far, extended by the next alarm. */
  lemma TickAllNext<Id>(now: u32, alarms: seq<(Id, Alarm)>, i: nat, answer: Id -> u32)
    requires i < |alarms|
    ensures var (left, calls) := TickAll(now, alarms[..i], answer);
      var (fired, next) := TickAlarm(now, alarms[i].1, answer(alarms[i].0));
      TickAll(now, alarms[..i + 1], answer) ==
      (left + (if next.Some? then [(alarms[i].0, next.value)] else []), calls + (if fired then [alarms[i].0] else []))
  {
    assert alarms[..i + 1] == alarms[..i] + [alarms[i]];
    TickAllAppend(now, alarms[..i], [alarms[i]], answer);
    assert [alarms[i]][1..] == [];
    var (left, calls) := TickAll(now, [alarms[i]], answer);
    var (fired, next) := TickAlarm(now, alarms[i].1, answer(alarms[i].0));
    assert left == if next.Some? then [(alarms[i].0, next.value)] else [];
    assert calls == if fired then [alarms[i].0] else [];
  }

  /** The same tick for a list of ideal deadlines. */
  function IdealTickAll<Id>(clock: nat, alarms: seq<(Id, nat)>, answer: Id -> u32): (seq<(Id, nat)>, seq<Id>) {
    if alarms == [] then ([], [])
    else
      var (id, deadline) := alarms[0];
      var (rest, calls) := IdealTickAll(clock, alarms[1..], answer);
      if deadline != clock then ([(id, deadline)] + rest, calls)
      else ((if answer(id) == 0 then [] else [(id, deadline + answer(id))]) + rest, [id] + calls)
  }

  predicate AllStand<Id(==)>(clock: nat, alarms: seq<(Id, Alarm)>, ideal: seq<(Id, nat)>) {
    && |alarms| == |ideal|
    && forall k :: 0 <= k < |alarms| ==> alarms[k].0 == ideal[k].0 && Stands(clock, alarms[k].1, ideal[k].1)
  }

  lemma {:induction false} TickAllStands<Id>(clock: nat, alarms: seq<(Id, Alarm)>,
                                             ideal: seq<(Id, nat)>, answer: Id -> u32)
    requires AllStand(clock, alarms, ideal)
    ensures var (left, calls) := TickAll((clock + 1) % TWO_32, alarms, answer);
      var (idealLeft, idealCalls) := IdealTickAll(clock + 1, ideal, answer);
      calls == idealCalls && AllStand(clock + 1, left, idealLeft)
    decreases |alarms|
  {
    hide Stands, TickAlarm;
    if alarms != [] {
      assert AllStand(clock, alarms[1..], ideal[1..]);
      TickStands(clock, alarms[0].1, ideal[0].1, answer(alarms[0].0));
      StandsAhead(clock, alarms[0].1, ideal[0].1);
      TickAllStands(clock, alarms[1..], ideal[1..], answer);
    }
  }

  lemma StandsAhead(clock: nat, a: Alarm, deadline: nat)
    requires Stands(clock, a, deadline)
    ensures clock < deadline
  {
  }

  // ---------------------------------------------------------------- whole runs

  datatype Event<!Id> = Start(id: Id, nticks: u32) | Stop(id: Id) | Tick(answer: Id -> u32)

  /** The scheduler's state: the counter and the registered alarms, most recent first. */
  datatype State<Id> = State(now: u32, alarms: seq<(Id, Alarm)>)

  datatype IdealState<Id> = IdealState(clock: nat, alarms: seq<(Id, nat)>)

  function Drop<Id(==), A>(s: seq<(Id, A)>, id: Id): seq<(Id, A)> {
    if s == [] then [] else if s[0].0 == id then Drop(s[1..], id) else [s[0]] + Drop(s[1..], id)
  }

  function Step<Id(==)>(s: State<Id>, e: Event<Id>): (State<Id>, seq<Id>) {
    match e
    case Start(id, nticks) => (s.(alarms := [(id, StartAlarm(s.now, nticks))] + s.alarms), [])
    case Stop(id) => (s.(alarms := Drop(s.alarms, id)), [])
    case Tick(answer) =>
      var now := Wrap(s.now + 1);
      var (left, calls) := TickAll(now, s.alarms, answer);
      (State(now, left), calls)
  }

  function IdealStep<Id(==)>(s: IdealState<Id>, e: Event<Id>): (IdealState<Id>, seq<Id>) {
    match e
    case Start(id, nticks) => (s.(alarms := [(id, s.clock + nticks + 1)] + s.alarms), [])
    case Stop(id) => (s.(alarms := Drop(s.alarms, id)), [])
    case Tick(answer) =>
      var (left, calls) := IdealTickAll(s.clock + 1, s.alarms, answer);
      (IdealState(s.clock + 1, left), calls)
  }

  /** The callbacks of a run, event by event. */
  function Calls<Id(==)>(s: State<Id>, es: seq<Event<Id>>): seq<seq<Id>>
    decreases |es|
  {
    if es == [] then [] else [Step(s, es[0]).1] + Calls(Step(s, es[0]).0, es[1..])
  }

  function IdealCalls<Id(==)>(s: IdealState<Id>, es: seq<Event<Id>>): seq<seq<Id>>
    decreases |es|
  {
    if es == [] then [] else [IdealStep(s, es[0]).1] + IdealCalls(IdealStep(s, es[0]).0, es[1..])
  }

  predicate Refines<Id(==)>(s: State<Id>, i: IdealState<Id>) {
    s.now == i.clock % TWO_32 && AllStand(i.clock, s.alarms, i.alarms)
  }

  lemma {:induction false} DropStands<Id>(clock: nat, alarms: seq<(Id, Alarm)>, ideal: seq<(Id, nat)>, id: Id)
    requires AllStand(clock, alarms, ideal)
    ensures AllStand(clock, Drop(alarms, id), Drop(ideal, id))
    decreases |alarms|
  {
    if alarms != [] {
      DropStands(clock, alarms[1..], ideal[1..], id);
    }
  }

  lemma StepRefines<Id>(s: State<Id>, i: IdealState<Id>, e: Event<Id>)
    requires Refines(s, i)
    requires e.Start? ==> e.nticks < TWO_32 - 1
    ensures Step(s, e).1 == IdealStep(i, e).1
    ensures Refines(Step(s, e).0, IdealStep(i, e).0)
  {
    match e
    case Start(id, nticks) => StartStands(i.clock, nticks);
    case Stop(id) => DropStands(i.clock, s.alarms, i.alarms, id);
    case Tick(answer) =>
      assert Wrap(s.now + 1) == (i.clock + 1) % TWO_32;
      TickAllStands(i.clock, s.alarms, i.alarms, answer);
  }

  /** Over every run, across any number of wraps of the counter, the scheduler makes exactly the
      callbacks of the ideal scheduler, at the same ticks and in the same order. */
  lemma {:induction false} SchedulerRefinesIdeal<Id>(s: State<Id>, i: IdealState<Id>, es: seq<Event<Id>>)
    requires Refines(s, i)
    requires forall e :: e in es && e.Start? ==> e.nticks < TWO_32 - 1
    ensures Calls(s, es) == IdealCalls(i, es)
    decreases |es|
  {
    if es != [] {
      StepRefines(s, i, es[0]);
      SchedulerRefinesIdeal(Step(s, es[0]).0, IdealStep(i, es[0]).0, es[1..]);
    }
  }

  // ---------------------------------------------------------------- the longest delay

  /** The alarm after `k` ticks from counter value `now`, as long as it does not fire. */
  function Wait(now: u32, a: Alarm, k: nat): Alarm {
    if k == 0 then a else Visit(Wrap(now + k), Wait(now, a, k - 1))
  }

  predicate DueAfter(now: u32, a: Alarm, k: nat) {
    Due(Wrap(now + k), Wait(now, a, k))
  }

  /** The first tick at which the alarm is due is the `m`th. */
  predicate FirstDueAfter(now: u32, a: Alarm, m: nat) {
    DueAfter(now, a, m) && forall k :: 1 <= k < m ==> !DueAfter(now, a, k)
  }

  lemma {:induction false} WaitClosed(now: u32, a: Alarm, k: nat)
    requires k <= TWO_32
    ensures Wait(now, a, k).time == a.time
    ensures Wait(now, a, k).rollover <==> a.rollover && now + k < TWO_32
  {
    if k > 0 {
      WaitClosed(now, a, k - 1);
      assert Wrap(now + k) == 0 <==> now + k == TWO_32 || now + k == 0 || now + k == 2 * TWO_32;
    }
  }

  /** An alarm started with `nticks` is first due after exactly `nticks + 1` ticks, except for the
      longest delay: 2^32-1 works only when the counter itself stands at 2^32-1. */
  lemma StartIsExact(now: u32, nticks: u32)
    ensures FirstDueAfter(now, StartAlarm(now, nticks), nticks + 1) <==> (nticks != TWO_32 - 1 || now == TWO_32 - 1)
  {
    var a := StartAlarm(now, nticks);
    var m := nticks + 1;
    if nticks == TWO_32 - 1 && now != TWO_32 - 1 {
      WaitClosed(now, a, 1);
      assert DueAfter(now, a, 1);
    } else {
      forall k | 1 <= k <= m ensures DueAfter(now, a, k) <==> k == m {
        WaitClosed(now, a, k);
        WrapSmall(now, k);
        WrapSmall(now, m);
      }
    }
  }

  /** At reset the longest delay is over at the next tick. */
  lemma LongestDelayFiresAtOnce()
    ensures FirstDueAfter(0, StartAlarm(0, TWO_32 - 1), 1)
  {
    WaitClosed(0, StartAlarm(0, TWO_32 - 1), 1);
  }

  lemma WrapSmall(now: u32, k: nat)
    requires k <= TWO_32
    ensures Wrap(now + k) == if now + k < TWO_32 then now + k else if now + k < 2 * TWO_32 then now + k - TWO_32 else 0
  {
  }
}
