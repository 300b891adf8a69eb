/** The alarm scheduler in place: the tick counter and the linked list of alarms. */
module AlarmSystem {
  import opened Bytes
  import opened LinkedList
  import opened AlarmModel

  type AlarmEntry = Entry<Alarm>

  datatype StartResult = Started | InvalidArgument | NotSupported

  class Scheduler {
    var nticks: u32
    var tickRate: u32
    const alarms: List<Alarm>

    ghost predicate Valid()
      reads this, alarms, alarms.head, alarms.entries
    {
      alarms.Valid()
    }

    /** The registered alarms, most recent first, as values. */
    ghost function View(): seq<(AlarmEntry, Alarm)>
      reads this, alarms, alarms.entries
    {
      Values(alarms.entries)
    }

    ghost function Now(): State<AlarmEntry>
      reads this, alarms, alarms.entries
    {
      State(nticks, View())
    }

    constructor (rate: u32)
      ensures Valid() && fresh(alarms) && fresh(alarms.head)
      ensures nticks == 0 && tickRate == rate && alarms.entries == []
    {
      nticks, tickRate := 0, rate;
      alarms := new List(Alarm(0, false));
    }

    /** alt_alarm_start.  An alarm that is still registered must not be started again. */
    method Start(alarm: Entry?<Alarm>, delay: u32) returns (result: StartResult)
      requires Valid()
      requires alarm != null ==> alarm != alarms.head && alarm !in alarms.entries
      modifies alarms, alarms.head, alarms.entries, alarm
      ensures Valid()
      ensures result == (if tickRate == 0 then NotSupported else if alarm == null then InvalidArgument else Started)
      ensures result == Started ==> Now() == Step(old(Now()), AlarmModel.Start(alarm, delay)).0
      ensures result != Started ==> Now() == old(Now())
    {
      if tickRate == 0 {
        return NotSupported;
      }
      if alarm == null {
        return InvalidArgument;
      }
      var current := nticks;
      var time := Wrap(delay + current + 1);
      alarm.value := Alarm(time, time < current);
      alarms.Insert(alarm);
      ValuesInserted(alarm);
      result := Started;
    }

    twostate lemma ValuesInserted(alarm: AlarmEntry)
      requires alarms.entries == [alarm] + old(alarms.entries)
      requires forall x :: x in old(alarms.entries) ==> x.value == old(x.value)
      ensures View() == [(alarm, alarm.value)] + old(View())
    {
      assert alarms.entries[1..] == old(alarms.entries);
      ValuesUnchanged(old(alarms.entries));
    }

    /** alt_alarm_stop */
    method Stop(alarm: AlarmEntry)
      requires Valid() && alarm != alarms.head
      requires alarm !in alarms.entries ==> alarm.SelfLinked()
      modifies alarms, alarms.head, alarms.entries, alarm
      ensures Valid() && alarm.SelfLinked()
      ensures Now() == Step(old(Now()), AlarmModel.Stop(alarm)).0
      ensures alarms.entries == Without(old(alarms.entries), alarm)
      ensures forall x :: x in old(alarms.entries) ==> x.value == old(x.value)
    {
      alarms.Remove(alarm);
      ValuesUnchanged(old(alarms.entries));
      ValuesWithout(old(alarms.entries), alarm);
    }

    /** An entry that may be stopped: a registered alarm, or one that has been stopped already. */
    ghost predicate Stoppable(x: AlarmEntry)
      reads alarms, x
    {
      x != alarms.head && (x in alarms.entries || x.SelfLinked())
    }

    method StopOne(x: AlarmEntry, ghost others: set<AlarmEntry>)
      requires Valid() && Stoppable(x) && forall y :: y in others ==> Stoppable(y)
      modifies alarms, alarms.head, alarms.entries, x
      ensures Valid() && x.SelfLinked() && forall y :: y in others ==> Stoppable(y)
      ensures forall y :: y in alarms.entries <==> y in old(alarms.entries) && y != x
    {
      hide Step, View;
      ghost var before := alarms.entries;
      Stop(x);
      forall y
        ensures y in alarms.entries <==> y in before && y != x
      {
        WithoutMembers(before, x, y);
      }
    }

    /** What a callback does that stops other alarms.  The traversal has saved the entry that follows
        the alarm called; it gets back to the head of the list, and so ends, if and only if the saved
        entry is not among those stopped. */
    method StopInCallback(stopped: seq<AlarmEntry>, ghost saved: AlarmEntry)
      requires Valid() && (saved == alarms.head || saved in alarms.entries)
      requires forall x :: x in stopped ==> Stoppable(x)
      modifies alarms, alarms.head, alarms.entries, stopped
      ensures Valid()
      ensures Returns(alarms, saved) <==> saved !in stopped
    {
      StopEach(stopped);
      assert alarms.Valid();
      ReturnsIff(alarms, saved);
    }

    method StopEach(stopped: seq<AlarmEntry>)
      requires Valid() && forall x :: x in stopped ==> Stoppable(x)
      modifies alarms, alarms.head, alarms.entries, stopped
      ensures Valid() && forall x :: x in stopped ==> x.SelfLinked() && x != alarms.head
      ensures forall x :: x in alarms.entries <==> x in old(alarms.entries) && x !in stopped
    {
      hide Valid;
      if stopped != [] {
        assert forall x :: x in stopped <==> x == stopped[0] || x in stopped[1..];
        StopOne(stopped[0], set x | x in stopped[1..]);
        assert forall k :: 0 <= k < |alarms.entries| ==> alarms.entries[k] in old(alarms.entries);
        assert forall k :: 0 <= k < |stopped[1..]| ==> stopped[1..][k] in stopped;
        StopEach(stopped[1..]);
      }
    }

    /** Re-arms `alarm` after its callback asked for `period` more ticks. */
    method RearmAlarm(alarm: AlarmEntry, period: u32)
      requires !alarm.value.rollover
      modifies alarm`value
      ensures alarm.value == Rearm(nticks, old(alarm.value), period)
    {
      alarm.value := alarm.value.(time := Wrap(alarm.value.time + period));
      if alarm.value.time < nticks {
        alarm.value := alarm.value.(rollover := true);
      }
    }

    /** Upon the counter's roll-over the flag is cleared. */
    method ClearRollover(alarm: AlarmEntry)
      modifies alarm`value
      ensures alarm.value == AlarmModel.Visit(nticks, old(alarm.value))
    {
      if alarm.value.rollover && nticks == 0 {
        alarm.value := alarm.value.(rollover := false);
      }
    }

    /** Takes the alarm at position `j` out of the list. */
    method StopAt(alarm: AlarmEntry, ghost j: nat)
      requires Valid() && j < |alarms.entries| && alarms.entries[j] == alarm
      modifies alarms, alarms.head, alarms.entries
      ensures Valid() && alarms.entries == old(alarms.Cut(j)) && alarm.SelfLinked()
      ensures forall x :: x in old(alarms.entries) ==> x.value == old(x.value)
    {
      alarms.CutPoint(j);
      Stop(alarm);
    }

    /** The body of the traversal for one alarm, at position `j` of the list. */
    method Visit(alarm: AlarmEntry, answer: u32, ghost j: nat) returns (fired: bool)
      requires Valid() && j < |alarms.entries| && alarms.entries[j] == alarm
      modifies alarms, alarms.head, alarms.entries
      ensures Valid()
      ensures var (f, left) := TickAlarm(nticks, old(alarm.value), answer);
        && fired == f
        && (left.None? ==> alarms.entries == old(alarms.Cut(j)) && alarm.SelfLinked())
        && (left.Some? ==> alarms.entries == old(alarms.entries) && alarm.value == left.value)
      ensures forall x :: x in old(alarms.entries) && x != alarm ==> x.value == old(x.value)
    {
      fired := false;
      ClearRollover(alarm);
      if alarm.value.time <= nticks && !alarm.value.rollover {
        fired := true;
        if answer == 0 {
          StopAt(alarm, j);
        } else {
          RearmAlarm(alarm, answer);
        }
      }
    }

    /** The traversal has come to position `i` of the list `was` it started with, and `kept` is
        what it has left of the part before. */
    ghost predicate Midway(was: seq<AlarmEntry>, values: seq<(AlarmEntry, Alarm)>, i: nat, kept: seq<AlarmEntry>)
      reads this, alarms, alarms.head, alarms.entries, was
    {
      && Valid() && |values| == |was| && i <= |was|
      && alarms.entries == kept + was[i..]
      && (forall k :: 0 <= k < |kept| ==> kept[k] in was)
      && (forall k :: i <= k < |was| ==> values[k] == (was[k], was[k].value))
    }

    /** What it has left, and the callbacks it has made, are those of the tick on values. */
    ghost predicate SoFar(values: seq<(AlarmEntry, Alarm)>, i: nat, kept: seq<AlarmEntry>, calls: seq<AlarmEntry>,
                          answer: AlarmEntry -> u32)
      reads this, kept
      requires i <= |values|
    {
      var (left, made) := TickAll(nticks, values[..i], answer);
      Values(kept) == left && calls == made
    }

    /** One round of the traversal: `more` is what it adds to `kept`. */
    method Round(alarm: AlarmEntry, answer: u32, ghost was: seq<AlarmEntry>, ghost values: seq<(AlarmEntry, Alarm)>,
                 ghost i: nat, ghost kept: seq<AlarmEntry>)
      returns (fired: bool, ghost more: seq<AlarmEntry>)
      requires Midway(was, values, i, kept) && i < |was| && alarm == was[i]
      modifies alarms, alarms.head, alarms.entries
      ensures Midway(was, values, i + 1, kept + more)
      ensures var (f, left) := TickAlarm(nticks, values[i].1, answer);
        fired == f && Values(more) == (if left.Some? then [(values[i].0, left.value)] else [])
      ensures Values(kept) == old(Values(kept))
    {
      hide Valid, TickAlarm;
      ghost var j := |kept|;
      KeptApart(was, values, i, kept);
      assert values[i] == (alarm, alarm.value);
      assert alarms.entries[j] == alarm && alarms.Cut(j) == kept + was[i + 1..];
      fired := Visit(alarm, answer, j);
      ValuesUnchanged(kept);
      more := if TickAlarm(nticks, values[i].1, answer).1.Some? then [alarm] else [];
      NextMoved(kept, was, i);
    }

    lemma NextMoved(kept: seq<AlarmEntry>, was: seq<AlarmEntry>, i: nat)
      requires i < |was|
      ensures (kept + [was[i]]) + was[i + 1..] == kept + was[i..] && kept + [] == kept
    {
    }

    /** A round together with its entry in the record of callbacks. */
    method RecordedRound(alarm: AlarmEntry, answer: AlarmEntry -> u32, calls: seq<AlarmEntry>,
                         ghost was: seq<AlarmEntry>,
                         ghost values: seq<(AlarmEntry, Alarm)>, ghost i: nat, ghost kept: seq<AlarmEntry>)
      returns (next: AlarmEntry, made: seq<AlarmEntry>, ghost left: seq<AlarmEntry>)
      requires Midway(was, values, i, kept) && i < |was| && alarm == was[i]
      requires SoFar(values, i, kept, calls, answer)
      modifies alarms, alarms.head, alarms.entries
      ensures Midway(was, values, i + 1, left)
      ensures SoFar(values, i + 1, left, made, answer)
      ensures next == if i + 1 < |was| then was[i + 1] else alarms.head
    {
      NextOf(was, values, i, kept);
      assert values[i].0 == alarm;
      hide Valid, Midway;
      next := alarm.next;
      ghost var more;
      var fired;
      fired, more := Round(alarm, answer(alarm), was, values, i, kept);
      left := kept + more;
      made := if fired then calls + [alarm] else calls;
      SoFarNext(values, i, kept, more, calls, answer);
    }

    lemma SoFarNext(values: seq<(AlarmEntry, Alarm)>, i: nat, kept: seq<AlarmEntry>, more: seq<AlarmEntry>,
                    calls: seq<AlarmEntry>, answer: AlarmEntry -> u32)
      requires i < |values| && SoFar(values, i, kept, calls, answer)
      requires var left := TickAlarm(nticks, values[i].1, answer(values[i].0)).1;
        Values(more) == if left.Some? then [(values[i].0, left.value)] else []
      ensures var fired := TickAlarm(nticks, values[i].1, answer(values[i].0)).0;
        SoFar(values, i + 1, kept + more, if fired then calls + [values[i].0] else calls, answer)
    {
      hide TickAlarm;
      TickAllNext(nticks, values, i, answer);
      ValuesAppended(kept, more);
      assert calls + [] == calls;
    }

    /** The traversal of alt_tick. */
    method Traverse(answer: AlarmEntry -> u32) returns (calls: seq<AlarmEntry>)
      requires Valid()
      modifies alarms, alarms.head, alarms.entries
      ensures Valid() && (View(), calls) == TickAll(nticks, old(View()), answer)
    {
      hide Midway, SoFar, Valid;
      ghost var was, values := alarms.entries, View();
      calls := [];
      var alarm := alarms.head.next;
      ghost var i := 0;
      ghost var kept: seq<AlarmEntry> := [];
      BeforeFirst(answer);
      while alarm != alarms.head
        invariant i <= |was| == |values| && Midway(was, values, i, kept)
        invariant SoFar(values, i, kept, calls, answer)
        invariant alarm == if i < |was| then was[i] else alarms.head
        decreases |was| - i
      {
        WithinFrame(was, values, i, kept);
        alarm, calls, kept := RecordedRound(alarm, answer, calls, was, values, i, kept);
        i := i + 1;
      }
      Finished(was, values, i, kept, calls, answer);
    }

    /** alt_tick.  `answer` is what each alarm's callback returns; `calls` lists the callbacks made. */
    method Tick(answer: AlarmEntry -> u32) returns (calls: seq<AlarmEntry>)
      requires Valid()
      modifies this`nticks, alarms, alarms.head, alarms.entries
      ensures Valid() && tickRate == old(tickRate)
      ensures (Now(), calls) == Step(old(Now()), AlarmModel.Tick(answer))
    {
      nticks := Wrap(nticks + 1);
      calls := Traverse(answer);
    }

    lemma BeforeFirst(answer: AlarmEntry -> u32)
      requires Valid()
      ensures Midway(alarms.entries, View(), 0, []) && SoFar(View(), 0, [], [], answer) && |View()| == |alarms.entries|
      ensures alarms.head.next == if alarms.entries == [] then alarms.head else alarms.entries[0]
    {
      assert [] + alarms.entries[0..] == alarms.entries;
      EntryAt([], alarms.entries);
      ValuesAll(alarms.entries);
    }

    /** The alarm being visited is none of those kept, nor one still to come. */
    lemma KeptApart(was: seq<AlarmEntry>, values: seq<(AlarmEntry, Alarm)>, i: nat, kept: seq<AlarmEntry>)
      requires Midway(was, values, i, kept) && i < |was|
      ensures forall k :: 0 <= k < |kept| ==> kept[k] != was[i] && kept[k] in alarms.entries
      ensures forall k :: i < k < |was| ==> was[k] != was[i] && was[k] in alarms.entries
    {
      var j, e := |kept|, alarms.entries;
      assert e[j] == was[i];
      forall k | 0 <= k < |kept| ensures kept[k] != was[i] && kept[k] in e {
        assert e[k] == kept[k];
      }
      forall k | i < k < |was| ensures was[k] != was[i] && was[k] in e {
        assert e[j + (k - i)] == was[k];
      }
    }

    lemma WithinFrame(was: seq<AlarmEntry>, values: seq<(AlarmEntry, Alarm)>, i: nat, kept: seq<AlarmEntry>)
      requires Midway(was, values, i, kept)
      ensures forall k :: 0 <= k < |alarms.entries| ==> alarms.entries[k] in was
      ensures i < |was| ==> was[i] != alarms.head
    {
      if i < |was| {
        assert alarms.entries[|kept|] == was[i];
      }
    }

    lemma Finished(was: seq<AlarmEntry>, values: seq<(AlarmEntry, Alarm)>, i: nat, kept: seq<AlarmEntry>,
                   calls: seq<AlarmEntry>, answer: AlarmEntry -> u32)
      requires Midway(was, values, i, kept) && SoFar(values, i, kept, calls, answer)
      requires alarms.head == if i < |was| then was[i] else alarms.head
      ensures Valid() && (View(), calls) == TickAll(nticks, values, answer)
    {
      WithinFrame(was, values, i, kept);
      assert values[..i] == values && kept + was[i..] == kept;
    }

    lemma NextOf(was: seq<AlarmEntry>, values: seq<(AlarmEntry, Alarm)>, i: nat, kept: seq<AlarmEntry>)
      requires Midway(was, values, i, kept) && i < |was|
      ensures was[i].next == if i + 1 < |was| then was[i + 1] else alarms.head
    {
      assert alarms.entries == (kept + [was[i]]) + was[i + 1..];
      EntryAt(kept + [was[i]], was[i + 1..]);
    }

    /** What follows the entries `before` in the list. */
    lemma EntryAt(before: seq<AlarmEntry>, after: seq<AlarmEntry>)
      requires Valid() && alarms.entries == before + after
      ensures var last := if before == [] then alarms.head else before[|before| - 1];
        last.next == if after == [] then alarms.head else after[0]
    {
      assert Neighbours(alarms.Cycle(), |before|);
    }
  }

  /** Entries paired with the alarms they hold. */
  ghost function Values(es: seq<AlarmEntry>): (v: seq<(AlarmEntry, Alarm)>)
    reads es
    ensures |v| == |es|
  {
    if es == [] then [] else [(es[0], es[0].value)] + Values(es[1..])
  }

  twostate lemma ValuesUnchanged(es: seq<AlarmEntry>)
    requires forall x :: x in es ==> x.value == old(x.value)
    ensures Values(es) == old(Values(es))
  {
    if es != [] {
      ValuesUnchanged(es[1..]);
    }
  }

  lemma {:induction false} ValuesAll(es: seq<AlarmEntry>)
    ensures forall k :: 0 <= k < |es| ==> Values(es)[k] == (es[k], es[k].value)
  {
    if es != [] {
      ValuesAll(es[1..]);
    }
  }

  lemma {:induction false} ValuesAppended(es: seq<AlarmEntry>, fs: seq<AlarmEntry>)
    ensures Values(es + fs) == Values(es) + Values(fs)
  {
    if es == [] {
      assert es + fs == fs;
    } else {
      assert (es + fs)[1..] == es[1..] + fs;
      ValuesAppended(es[1..], fs);
    }
  }

  lemma {:induction false} ValuesWithout(es: seq<AlarmEntry>, e: AlarmEntry)
    ensures Values(Without(es, e)) == Drop(Values(es), e)
  {
    if es != [] {
      ValuesWithout(es[1..], e);
    }
  }
}
