/** The intrusive circular doubly linked list of alt_llist.h, with its links updated in place. */
module LinkedList {

  /** A list entry together with the structure it is embedded in (`value`). */
  class Entry<T> {
    var next: Entry<T>
    var previous: Entry<T>
    var value: T

    constructor (v: T)
      ensures next == this && previous == this && value == v
    {
      next := this;
      previous := this;
      value := v;
    }

    ghost predicate SelfLinked()
      reads this
    {
      next == this && previous == this
    }
  }

  ghost predicate Distinct<T>(s: seq<T>) {
    forall i, j :: 0 <= i < j < |s| ==> s[i] != s[j]
  }

  /** `s` without its elements equal to `e`, order kept. */
  function Without<T(==)>(s: seq<T>, e: T): (r: seq<T>)
    ensures e !in r
    ensures e !in s ==> r == s
  {
    if s == [] then []
    else if s[0] == e then Without(s[1..], e)
    else [s[0]] + Without(s[1..], e)
  }

  lemma {:induction false} WithoutSplit<T>(a: seq<T>, e: T, b: seq<T>)
    requires e !in a && e !in b
    ensures Without(a + [e] + b, e) == a + b
  {
    if a == [] {
      assert a + [e] + b == [e] + b && ([e] + b)[1..] == b && a + b == b;
    } else {
      assert (a + [e] + b)[1..] == a[1..] + [e] + b;
      assert a + b == [a[0]] + (a[1..] + b);
      WithoutSplit(a[1..], e, b);
    }
  }

  lemma CutCircle<T>(h: T, s: seq<T>, k: nat)
    requires k < |s|
    ensures ([h] + s + [h])[..k + 1] + ([h] + s + [h])[k + 2..] == [h] + (s[..k] + s[k + 1..]) + [h]
  {
    assert ([h] + s + [h])[..k + 1] == [h] + s[..k];
    assert ([h] + s + [h])[k + 2..] == s[k + 1..] + [h];
  }

  /** The elements at positions `i` and `i + 1` point at each other. */
  ghost predicate Neighbours<T>(s: seq<Entry<T>>, i: nat)
    requires i + 1 < |s|
    reads s`next, s`previous
  {
    s[i].next == s[i + 1] && s[i + 1].previous == s[i]
  }

  ghost predicate Linked<T>(s: seq<Entry<T>>)
    reads s`next, s`previous
  {
    forall i :: 0 <= i < |s| - 1 ==> Neighbours(s, i)
  }

  lemma LinkedJoin<T>(a: seq<Entry<T>>, b: seq<Entry<T>>)
    requires Linked(a) && Linked(b)
    requires a != [] && b != [] ==> a[|a| - 1].next == b[0] && b[0].previous == a[|a| - 1]
    ensures Linked(a + b)
  {
    forall i | 0 <= i < |a + b| - 1
      ensures Neighbours(a + b, i)
    {
      if i < |a| - 1 {
        assert Neighbours(a, i);
      } else if i >= |a| {
        assert Neighbours(b, i - |a|);
      }
    }
  }

  class List<T> {
    const head: Entry<T>
    ghost var entries: seq<Entry<T>>

    /** The entries between two occurrences of the head. */
    ghost function Cycle(): seq<Entry<T>>
      reads this
    {
      [head] + entries + [head]
    }

    lemma CycleAt(i: nat)
      requires 1 <= i <= |entries|
      ensures Cycle()[i] == entries[i - 1]
    {
    }

    ghost predicate Valid()
      reads this, head, entries
    {
      head !in entries && Distinct(entries) && Linked(Cycle())
    }

    /** ALT_LLIST_HEAD */
    constructor (headValue: T)
      ensures Valid() && entries == [] && fresh(head)
    {
      head := new Entry(headValue);
      entries := [];
    }

    /** alt_llist_insert: `entry` becomes the first element. */
    method Insert(entry: Entry<T>)
      requires Valid() && entry != head && entry !in entries
      modifies this, head, entries, entry
      ensures Valid() && entries == [entry] + old(entries)
      ensures head.value == old(head.value) && entry.value == old(entry.value)
      ensures forall x :: x in old(entries) ==> x.value == old(x.value)
    {
      FirstOf();
      Link(head, entry);
      Inserted(entry);
      entries := [entry] + entries;
    }

    lemma FirstOf()
      requires Valid()
      ensures head.next == Cycle()[1] && Cycle()[1].previous == head && (head.next == head || head.next in entries)
    {
      assert Neighbours(Cycle(), 0);
    }

    twostate lemma Inserted(new entry: Entry<T>)
      requires old(Valid()) && entries == old(entries) && entry !in entries && entry != head
      requires head.next == entry && entry.previous == head && entry.next == Cycle()[1] && Cycle()[1].previous == entry
      requires forall x :: x in entries ==> x.next == old(x.next)
      requires forall x :: x in Cycle() && x != Cycle()[1] ==> x.previous == old(x.previous)
      ensures Linked([head] + ([entry] + entries) + [head]) && Distinct([entry] + entries)
    {
      LinkedTail();
      assert Linked([head, entry]) by {
        assert Neighbours([head, entry], 0);
      }
      LinkedJoin([head, entry], Cycle()[1..]);
      assert [head, entry] + Cycle()[1..] == [head] + ([entry] + entries) + [head];
    }

    /** The tail of the circle stays linked when only the links beside the head change. */
    twostate lemma LinkedTail()
      requires old(Valid()) && entries == old(entries)
      requires forall x :: x in entries ==> x.next == old(x.next)
      requires forall x :: x in Cycle() && x != Cycle()[1] ==> x.previous == old(x.previous)
      ensures Linked(Cycle()[1..])
    {
      var c := Cycle();
      forall m | 0 <= m < |c[1..]| - 1
        ensures Neighbours(c[1..], m)
      {
        CycleAt(m + 1);
        assert old(Neighbours(c, m + 1));
        assert c[m + 2] != c[1];
      }
    }

    /** alt_llist_remove: takes `entry` out, or does nothing to an entry already taken out. */
    method Remove(entry: Entry<T>)
      requires Valid() && entry != head
      requires entry !in entries ==> entry.SelfLinked()
      modifies this, head, entries, entry
      ensures Valid() && entries == Without(old(entries), entry)
      ensures entry.SelfLinked()
      ensures head.value == old(head.value) && entry.value == old(entry.value)
      ensures forall x :: x in old(entries) ==> x.value == old(x.value)
    {
      ghost var k := Position(entry);
      Unlink(entry);
      if k < |entries| {
        UnlinkedAt(k);
        entries := Cut(k);
      } else {
        OthersStayLinked(entry);
      }
    }

    /** Where the entry is, or the length of the list. */
    ghost function Position(entry: Entry<T>): (k: nat)
      requires Valid() && entry != head
      reads this, head, entries
      ensures k <= |entries| && (k < |entries| <==> entry in entries)
      ensures k < |entries| ==> entries[k] == entry && Without(entries, entry) == Cut(k)
      ensures k == |entries| ==> Without(entries, entry) == entries
      ensures k < |entries| ==> entry.previous == Cycle()[k] != entry && entry.next == Cycle()[k + 2] != entry
    {
      if entry in entries then
        var k :| 0 <= k < |entries| && entries[k] == entry;
        CutPoint(k);
        k
      else
        |entries|
    }

    twostate lemma OthersStayLinked(entry: Entry<T>)
      requires old(Valid()) && entries == old(entries) && entry != head && entry !in entries
      requires forall x :: x in Cycle() ==> x.next == old(x.next) && x.previous == old(x.previous)
      ensures Valid()
    {
      forall i | 0 <= i < |Cycle()| - 1
        ensures Neighbours(Cycle(), i)
      {
        assert old(Neighbours(Cycle(), i));
      }
    }

    /** The list after the element at position `k` has been unlinked. */
    twostate lemma UnlinkedAt(k: nat)
      requires Bypassed(k)
      ensures head !in Cut(k) && Distinct(Cut(k)) && Linked([head] + Cut(k) + [head])
    {
      LinkedWithout(k);
      CutDistinct(k);
    }

    /** The list without its element at position `k`. */
    ghost function Cut(k: nat): seq<Entry<T>>
      reads this
      requires k < |entries|
    {
      entries[..k] + entries[k + 1..]
    }

    /** Only the links around position `k` have changed. */
    twostate predicate Bypassed(k: nat)
      reads this, head, entries
    {
      && old(Valid()) && k < |entries| && entries == old(entries)
      && Cycle()[k].next == Cycle()[k + 2] && Cycle()[k + 2].previous == Cycle()[k]
      && (forall x :: x in Cycle() && x != Cycle()[k] && x != entries[k] ==> x.next == old(x.next))
      && (forall x :: x in Cycle() && x != Cycle()[k + 2] && x != entries[k] ==> x.previous == old(x.previous))
    }

    twostate lemma LinkedBefore(k: nat)
      requires Bypassed(k)
      ensures Linked(Cycle()[..k + 1])
    {
      var c := Cycle();
      var part := c[..k + 1];
      forall i | 0 <= i < |part| - 1
        ensures Neighbours(part, i)
      {
        CycleAt(i + 1);
        assert old(Neighbours(c, i));
        assert c[i] != c[k] && c[i + 1] != c[k + 2];
      }
    }

    twostate lemma LinkedAfter(k: nat)
      requires Bypassed(k)
      ensures Linked(Cycle()[k + 2..])
    {
      var c := Cycle();
      var part := c[k + 2..];
      forall i | 0 <= i < |part| - 1
        ensures Neighbours(part, i)
      {
        var m := k + 2 + i;
        CycleAt(m);
        assert old(Neighbours(c, m));
        assert c[m] != c[k] && c[m + 1] != c[k + 2];
      }
    }

    lemma JoinAround(k: nat)
      requires k < |entries| && Linked(Cycle()[..k + 1]) && Linked(Cycle()[k + 2..])
      requires Cycle()[k].next == Cycle()[k + 2] && Cycle()[k + 2].previous == Cycle()[k]
      ensures Linked([head] + Cut(k) + [head])
    {
      LinkedJoin(Cycle()[..k + 1], Cycle()[k + 2..]);
      CutCircle(head, entries, k);
    }

    /** Bypassing the element at position `k` leaves the others linked. */
    twostate lemma LinkedWithout(k: nat)
      requires Bypassed(k)
      ensures Linked([head] + Cut(k) + [head])
    {
      LinkedBefore(k);
      LinkedAfter(k);
      JoinAround(k);
    }

    /** The neighbours of an element. */
    lemma CutPoint(k: nat)
      requires Valid() && k < |entries|
      ensures entries[k].previous == Cycle()[k] && entries[k].next == Cycle()[k + 2]
      ensures Cycle()[k] != entries[k] && Cycle()[k + 2] != entries[k]
      ensures Cycle()[k] == head || Cycle()[k] in entries
      ensures Cycle()[k + 2] == head || Cycle()[k + 2] in entries
      ensures Without(entries, entries[k]) == Cut(k) && Distinct(Cut(k)) && head !in Cut(k)
    {
      assert Neighbours(Cycle(), k) && Neighbours(Cycle(), k + 1);
      hide Linked, Neighbours;
      CycleAround(k);
      CutDistinct(k);
    }

    lemma CycleAround(k: nat)
      requires k < |entries|
      ensures Cycle()[k] == if k == 0 then head else entries[k - 1]
      ensures Cycle()[k + 1] == entries[k]
      ensures Cycle()[k + 2] == if k + 1 == |entries| then head else entries[k + 1]
    {
    }

    lemma CutDistinct(k: nat)
      requires k < |entries| && Distinct(entries)
      ensures Without(entries, entries[k]) == Cut(k) && Distinct(Cut(k))
      ensures forall x :: x in Cut(k) ==> x in entries
    {
      var a, e, b := entries[..k], entries[k], entries[k + 1..];
      assert entries == a + [e] + b;
      WithoutSplit(a, e, b);
    }
  }

  // ---------------------------------------------------------------- chains

  /** The entry reached by `k` steps along `next`. */
  ghost function Forward<T>(e: Entry<T>, k: nat): Entry<T>
    reads *
  {
    if k == 0 then e else Forward(e.next, k - 1)
  }

  /** The entry reached by `k` steps along `previous`. */
  ghost function Backward<T>(e: Entry<T>, k: nat): Entry<T>
    reads *
  {
    if k == 0 then e else Backward(e.previous, k - 1)
  }

  lemma {:induction false} WalkForward<T>(l: List<T>, i: nat, k: nat)
    requires l.Valid() && i + k <= |l.entries| + 1
    ensures Forward(l.Cycle()[i], k) == l.Cycle()[i + k]
    decreases k
  {
    if k > 0 {
      assert Neighbours(l.Cycle(), i);
      WalkForward(l, i + 1, k - 1);
    }
  }

  lemma {:induction false} WalkBackward<T>(l: List<T>, i: nat, k: nat)
    requires l.Valid() && k <= i <= |l.entries| + 1
    ensures Backward(l.Cycle()[i], k) == l.Cycle()[i - k]
    decreases k
  {
    if k > 0 {
      assert Neighbours(l.Cycle(), i - 1);
      WalkBackward(l, i - 1, k - 1);
    }
  }

  lemma {:induction false} StaysPut<T>(e: Entry<T>, k: nat)
    requires e.SelfLinked()
    ensures Forward(e, k) == e
  {
    if k > 0 {
      StaysPut(e, k - 1);
    }
  }

  /** A traversal that has come to `e` gets back to the head. */
  ghost predicate Returns<T>(l: List<T>, e: Entry<T>)
    reads *
  {
    exists k: nat :: Forward(e, k) == l.head
  }

  /** It does so exactly from entries that are still linked; a removed one leads to itself. */
  lemma ReturnsIff<T>(l: List<T>, e: Entry<T>)
    requires l.Valid() && (e == l.head || e in l.entries || e.SelfLinked())
    ensures Returns(l, e) <==> e == l.head || e in l.entries
  {
    if e == l.head {
      assert Forward(e, 0) == l.head;
    } else if e in l.entries {
      var i :| 0 <= i < |l.entries| && l.entries[i] == e;
      l.CycleAt(i + 1);
      WalkForward(l, i + 1, |l.entries| - i);
      assert Forward(e, |l.entries| - i) == l.head;
    } else {
      forall k: nat
        ensures Forward(e, k) == e
      {
        StaysPut(e, k);
      }
    }
  }

  /** Along `next` the head leads through the sequence and back to itself; along `previous`
      through its reverse. */
  lemma BothChains<T>(l: List<T>, k: nat)
    requires l.Valid() && k < |l.entries|
    ensures Forward(l.head, k + 1) == l.entries[k]
    ensures Backward(l.head, k + 1) == l.entries[|l.entries| - 1 - k]
    ensures Forward(l.head, |l.entries| + 1) == l.head == Backward(l.head, |l.entries| + 1)
  {
    var n := |l.entries|;
    WalkForward(l, 0, k + 1);
    WalkBackward(l, n + 1, k + 1);
    WalkForward(l, 0, n + 1);
    WalkBackward(l, n + 1, n + 1);
    l.CycleAt(k + 1);
    l.CycleAt(n - k);
  }

  // ---------------------------------------------------------------- sequences of operations

  datatype Op<T> = Insert(entry: Entry<T>) | Remove(entry: Entry<T>)

  /** What an operation means for the sequence of elements. */
  function Meaning<T>(s: seq<Entry<T>>, op: Op<T>): seq<Entry<T>> {
    match op
    case Insert(e) => [e] + s
    case Remove(e) => Without(s, e)
  }

  function Meanings<T>(s: seq<Entry<T>>, ops: seq<Op<T>>): seq<Entry<T>>
    decreases |ops|
  {
    if ops == [] then s else Meanings(Meaning(s, ops[0]), ops[1..])
  }

  /** Nothing is inserted while it is already in the list; removals are unrestricted. */
  ghost predicate Legal<T>(s: seq<Entry<T>>, ops: seq<Op<T>>)
    decreases |ops|
  {
    ops != [] ==> (ops[0].Insert? ==> ops[0].entry !in s) && Legal(Meaning(s, ops[0]), ops[1..])
  }

  lemma {:induction false} WithoutMembers<T>(s: seq<T>, e: T, x: T)
    ensures x in Without(s, e) <==> x in s && x != e
  {
    if s != [] {
      assert x in s <==> x == s[0] || x in s[1..];
      WithoutMembers(s[1..], e, x);
    }
  }

  /** The list and the entries of a pool that are not in it. */
  ghost predicate Sound<T>(l: List<T>, pool: set<Entry<T>>)
    reads l, l.head, l.entries, pool
  {
    && l.Valid() && l.head !in pool && (forall e :: e in l.entries ==> e in pool)
    && (forall e :: e in pool && e !in l.entries ==> e.SelfLinked())
  }

  method Perform<T>(l: List<T>, op: Op<T>, ghost pool: set<Entry<T>>)
    requires Sound(l, pool) && op.entry in pool
    requires op.Insert? ==> op.entry !in l.entries
    modifies l, l.head, pool
    ensures Sound(l, pool) && l.entries == Meaning(old(l.entries), op)
  {
    match op {
      case Insert(e) => l.Insert(e);
      case Remove(e) =>
        ghost var was := l.entries;
        l.Remove(e);
        forall x | x in pool && x !in l.entries ensures x.SelfLinked() {
          WithoutMembers(was, e, x);
          assert x == e || (x !in was && old(x.SelfLinked()));
        }
        forall x | x in l.entries ensures x in pool {
          WithoutMembers(was, e, x);
        }
    }
  }

  /** Any legal sequence of insertions and removals (repeated removals included) over a pool of
      entries takes the list from one sequence to the one the operations mean. */
  method Replay<T>(l: List<T>, ops: seq<Op<T>>, ghost pool: set<Entry<T>>)
    requires Sound(l, pool) && Legal(l.entries, ops)
    requires forall op :: op in ops ==> op.entry in pool
    modifies l, l.head, pool
    ensures Sound(l, pool) && l.entries == Meanings(old(l.entries), ops)
  {
    var i := 0;
    while i < |ops|
      invariant 0 <= i <= |ops| && Sound(l, pool)
      invariant Legal(l.entries, ops[i..])
      invariant Meanings(l.entries, ops[i..]) == Meanings(old(l.entries), ops)
    {
      assert ops[i] in ops && ops[i..][0] == ops[i] && ops[i..][1..] == ops[i + 1..];
      Perform(l, ops[i], pool);
      i := i + 1;
    }
  }

  /** A second removal changes nothing. */
  lemma {:induction false} RemoveTwice<T>(s: seq<Entry<T>>, e: Entry<T>)
    ensures Meanings(s, [Remove(e), Remove(e)]) == Meanings(s, [Remove(e)])
  {
    assert [Remove(e), Remove(e)][1..] == [Remove(e)] && [Remove(e)][1..] == [];
    assert Without(Without(s, e), e) == Without(s, e);
  }

  /** The four assignments of alt_llist_insert. */
  method Link<T>(list: Entry<T>, entry: Entry<T>)
    requires entry != list && entry != list.next
    modifies list`next, entry`next, entry`previous, list.next`previous
    ensures list.next == entry && entry.previous == list
    ensures entry.next == old(list.next) && old(list.next).previous == entry
  {
    entry.previous := list;
    entry.next := list.next;
    list.next.previous := entry;
    list.next := entry;
  }

  /** The four assignments of alt_llist_remove. */
  method Unlink<T>(entry: Entry<T>)
    modifies entry`next, entry`previous, entry.next`previous, entry.previous`next
    ensures entry.SelfLinked()
    ensures var p, n := old(entry.previous), old(entry.next);
      (n != entry ==> n.previous == p) && (p != entry ==> p.next == n)
  {
    entry.next.previous := entry.previous;
    entry.previous.next := entry.next;
    entry.previous := entry;
    entry.next := entry;
  }
}
