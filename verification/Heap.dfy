/**
 The program break, and the allocator of profiling records that carves slabs out of it.
 */
module Heap {
  import opened Bytes

  const SLAB: nat := 1020  // MCOUNT_SLAB_INCREMENT
  const FAIL: u32 := 0xFFFF_FFFF

  /** `heap_end`, `mcount_slab_ptr` and the signed `mcount_slab_size` */
  datatype Heap = Heap(heapEnd: u32, slabPtr: u32, slabSize: int)

  function AlignUp(a: u32): (r: u32)
    ensures r % 4 == 0
    ensures a < TWO_32 - 3 ==> a <= r <= a + 3
  {
    Wrap(a + 3) / 4 * 4
  }

  /** Extends the heap by `incr` bytes; the break is aligned even if that fails. */
  function Sbrk(h: Heap, limit: u32, incr: int): (Heap, u32) {
    var a := AlignUp(h.heapEnd);
    if Wrap(a + incr) > limit then (h.(heapEnd := a), FAIL) else (h.(heapEnd := Wrap(a + incr)), a)
  }

  function Refill(h: Heap, limit: u32): Heap {
    var (g, p) := Sbrk(h, limit, SLAB);
    g.(slabPtr := p, slabSize := SLAB)
  }

  /** A record of `size` bytes; a slab is asked for if the current one is too small, and is used
      without a look at whether it was granted. */
  function Allocate(h: Heap, limit: u32, size: u32): (Heap, u32) {
    var g := if size > Wrap(h.slabSize) then Refill(h, limit) else h;
    (g.(slabPtr := Wrap(g.slabPtr + size), slabSize := Int32(g.slabSize - size)), g.slabPtr)
  }

  // ---------------------------------------------------------------- runs

  datatype Request = Block(incr: nat) | Record(size: u32)

  /** Memory that was handed out: a block of the program or a profiling record. */
  datatype Grant = Grant(start: int, size: nat, block: bool) {
    function End(): int {
      start + size
    }
  }

  datatype Memory = Memory(heap: Heap, grants: seq<Grant>)

  function Step(m: Memory, limit: u32, r: Request): Memory {
    match r
    case Block(n) =>
      var (h, p) := Sbrk(m.heap, limit, n);
      Memory(h, if p == FAIL then m.grants else m.grants + [Grant(p, n, true)])
    case Record(size) =>
      var (h, p) := Allocate(m.heap, limit, size);
      Memory(h, m.grants + [Grant(p, size, false)])
  }

  function Run(start: u32, limit: u32, rs: seq<Request>): Memory {
    if rs == [] then Memory(Heap(start, 0, 0), []) else Step(Run(start, limit, rs[..|rs| - 1]), limit, rs[|rs| - 1])
  }

  /** What a caller may ask for: increments that are positive integers, records that are not empty. */
  predicate Proper(r: Request) {
    match r
    case Block(n) => n < 0x8000_0000
    case Record(size) => size > 0
  }

  /** The heap is in the lower half of the address space, so that no increment wraps around. */
  predicate Layout(start: u32, limit: u32) {
    start <= limit < 0x7FFF_FFFC
  }

  predicate Apart(g: Grant, h: Grant) {
    g.End() <= h.start || h.End() <= g.start
  }

  predicate GrantOk(m: Memory, start: u32, limit: u32, g: Grant) {
    && start <= g.start && g.End() <= limit && g.End() <= m.heap.heapEnd
    && (g.block ==> g.start % 4 == 0)
    && (m.heap.slabSize > 0 ==> g.End() <= m.heap.slabPtr || m.heap.slabPtr + m.heap.slabSize <= g.start)
  }

  predicate HeapOk(h: Heap, start: u32, limit: u32) {
    && start <= h.heapEnd <= AlignUp(limit) && 0 <= h.slabSize <= SLAB
    && (h.slabSize > 0 ==> start <= h.slabPtr && h.slabPtr + h.slabSize <= h.heapEnd && h.slabPtr + h.slabSize <= limit)
  }

  /** Everything handed out lies in the heap, blocks are aligned to words, no two pieces overlap and
      none overlaps what is left of the slab. */
  predicate Sound(m: Memory, start: u32, limit: u32) {
    && HeapOk(m.heap, start, limit)
    && (forall i :: 0 <= i < |m.grants| ==> GrantOk(m, start, limit, m.grants[i]))
    && (forall i, j :: 0 <= i < j < |m.grants| ==> Apart(m.grants[i], m.grants[j]))
  }

  // ---------------------------------------------------------------- sbrk

  /** A call is granted exactly if the new break does not exceed the limit, unless the address wraps
      around to the other side of it. A block starts at the aligned break and ends at the new one; a
      refused call only aligns the break. */
  lemma SbrkOutcome(h: Heap, limit: u32, incr: int)
    requires h.heapEnd < TWO_32 - 3 && -0x8000_0000 <= incr < 0x8000_0000
    ensures var (g, p) := Sbrk(h, limit, incr); var a := AlignUp(h.heapEnd); var end := a + incr;
      && ((p != FAIL <==> end <= limit) <==>
          if end < 0 then end + TWO_32 <= limit else end < TWO_32 || end - TWO_32 > limit)
      && (p != FAIL ==> p == a && p % 4 == 0 && g == h.(heapEnd := Wrap(end)))
      && (p == FAIL ==> g == h.(heapEnd := a))
  {
    assert AlignUp(h.heapEnd) % 4 == 0;
  }

  lemma SbrkInLayout(h: Heap, start: u32, limit: u32, incr: nat)
    requires Layout(start, limit) && HeapOk(h, start, limit) && incr < 0x8000_0000
    ensures var (g, p) := Sbrk(h, limit, incr); var a := AlignUp(h.heapEnd);
      && h.heapEnd <= a <= AlignUp(limit) && (p != FAIL <==> a + incr <= limit)
      && (p != FAIL ==> p == a && p % 4 == 0 && g == h.(heapEnd := a + incr))
      && (p == FAIL ==> g == h.(heapEnd := a)) && HeapOk(g, start, limit)
  {
    SlackStays(h.heapEnd, limit);
    var a := AlignUp(h.heapEnd);
    assert a % 4 == 0 && a + incr < TWO_32;
    hide AlignUp;
    assert Wrap(a + incr) == a + incr;
    hide Wrap;
  }

  /** Aligning the break does not move it further past the limit. */
  lemma SlackStays(a: u32, limit: u32)
    requires limit < 0x7FFF_FFFC
    ensures AlignUp(limit) <= limit + 3 && (a <= AlignUp(limit) ==> AlignUp(a) <= AlignUp(limit))
    ensures limit <= AlignUp(limit)
  {
  }

  // ---------------------------------------------------------------- one request

  /** A record that can be served: it is no larger than a slab, and if the current slab is too small
      a new one is granted. */
  predicate Served(m: Memory, limit: u32, r: Request) {
    match r
    case Block(_) => true
    case Record(size) =>
      size <= m.heap.slabSize || (size <= SLAB && AlignUp(m.heap.heapEnd) + SLAB <= limit)
  }

  lemma AppendSound(m: Memory, h: Heap, g: Grant, start: u32, limit: u32)
    requires Sound(m, start, limit) && HeapOk(h, start, limit)
    requires GrantOk(Memory(h, m.grants + [g]), start, limit, g)
    requires forall i :: 0 <= i < |m.grants| ==> GrantOk(Memory(h, m.grants + [g]), start, limit, m.grants[i])
    requires forall i :: 0 <= i < |m.grants| ==> Apart(m.grants[i], g)
    ensures Sound(Memory(h, m.grants + [g]), start, limit)
  {
    var n := Memory(h, m.grants + [g]);
    hide GrantOk, Apart, HeapOk;
    forall i | 0 <= i < |n.grants|
      ensures GrantOk(n, start, limit, n.grants[i])
    {
      assert i < |m.grants| ==> n.grants[i] == m.grants[i];
    }
    forall i, j | 0 <= i < j < |n.grants|
      ensures Apart(n.grants[i], n.grants[j])
    {
      assert n.grants[i] == m.grants[i];
    }
  }

  lemma BlockKeepsSound(m: Memory, start: u32, limit: u32, incr: nat)
    requires Layout(start, limit) && Sound(m, start, limit) && incr < 0x8000_0000
    ensures Sound(Step(m, limit, Block(incr)), start, limit)
  {
    SbrkInLayout(m.heap, start, limit, incr);
    var (h, p) := Sbrk(m.heap, limit, incr);
    hide AlignUp, Sbrk;
    if p == FAIL {
      forall i | 0 <= i < |m.grants|
        ensures GrantOk(Memory(h, m.grants), start, limit, m.grants[i])
      {
        assert GrantOk(m, start, limit, m.grants[i]);
      }
    } else {
      var g := Grant(p, incr, true);
      var n := Memory(h, m.grants + [g]);
      forall i | 0 <= i < |m.grants|
        ensures GrantOk(n, start, limit, m.grants[i]) && Apart(m.grants[i], g)
      {
        assert GrantOk(m, start, limit, m.grants[i]);
      }
      AppendSound(m, h, g, start, limit);
    }
  }

  /** The slab in use when a record is carved out: the current one or a new one. */
  lemma RefillKeepsSound(m: Memory, start: u32, limit: u32)
    requires Layout(start, limit) && Sound(m, start, limit) && AlignUp(m.heap.heapEnd) + SLAB <= limit
    ensures Sound(Memory(Refill(m.heap, limit), m.grants), start, limit)
    ensures Refill(m.heap, limit).slabSize == SLAB
  {
    SbrkInLayout(m.heap, start, limit, SLAB);
    hide AlignUp, Sbrk;
    var n := Memory(Refill(m.heap, limit), m.grants);
    forall i | 0 <= i < |m.grants|
      ensures GrantOk(n, start, limit, m.grants[i])
    {
      assert GrantOk(m, start, limit, m.grants[i]);
    }
  }

  lemma CarveKeepsSound(m: Memory, start: u32, limit: u32, size: u32)
    requires Layout(start, limit) && Sound(m, start, limit) && 0 < size <= m.heap.slabSize
    ensures Sound(Step(m, limit, Record(size)), start, limit)
  {
    var h := m.heap;
    var g := Grant(h.slabPtr, size, false);
    var k := h.(slabPtr := h.slabPtr + size, slabSize := h.slabSize - size);
    CarveStep(m, start, limit, size);
    var n := Memory(k, m.grants + [g]);
    assert GrantOk(n, start, limit, g) && HeapOk(k, start, limit);
    hide HeapOk, GrantOk, Apart, Step;
    forall i | 0 <= i < |m.grants|
      ensures GrantOk(n, start, limit, m.grants[i]) && Apart(m.grants[i], g)
    {
      CarveGrant(m, n, start, limit, size, m.grants[i]);
    }
    AppendSound(m, k, g, start, limit);
  }

  lemma CarveStep(m: Memory, start: u32, limit: u32, size: u32)
    requires Layout(start, limit) && HeapOk(m.heap, start, limit) && 0 < size <= m.heap.slabSize
    ensures var k := m.heap.(slabPtr := m.heap.slabPtr + size, slabSize := m.heap.slabSize - size);
      Step(m, limit, Record(size)) == Memory(k, m.grants + [Grant(m.heap.slabPtr, size, false)])
  {
    var h := m.heap;
    InRange(h.slabSize);
    InRange(h.slabPtr + size);
    SmallInt(h.slabSize - size);
    hide Wrap, Int32, AlignUp, Sbrk, Refill;
    assert Allocate(h, limit, size).1 == h.slabPtr;
  }

  lemma InRange(x: int)
    requires 0 <= x < TWO_32
    ensures Wrap(x) == x
  {
  }

  lemma SmallInt(x: int)
    requires 0 <= x < 0x8000_0000
    ensures Int32(x) == x
  {
  }

  /** What has been handed out before stays clear of the record and of the rest of the slab. */
  lemma CarveGrant(m: Memory, n: Memory, start: u32, limit: u32, size: u32, g: Grant)
    requires GrantOk(m, start, limit, g) && 0 < size <= m.heap.slabSize && m.heap.slabPtr + size < TWO_32
    requires n.heap == m.heap.(slabPtr := m.heap.slabPtr + size, slabSize := m.heap.slabSize - size)
    ensures GrantOk(n, start, limit, g) && Apart(g, Grant(m.heap.slabPtr, size, false))
  {
  }

  /** Beginning with a slab that is too small is the same as beginning with a new one. */
  lemma RefillFirst(m: Memory, limit: u32, size: u32)
    requires 0 <= m.heap.slabSize < size <= SLAB && m.heap.slabSize <= SLAB
    ensures Step(m, limit, Record(size)) == Step(Memory(Refill(m.heap, limit), m.grants), limit, Record(size))
  {
    hide Sbrk;
    assert Refill(m.heap, limit).slabSize == SLAB;
  }

  lemma UnservedIsUnsound(m: Memory, start: u32, limit: u32, size: u32)
    requires Layout(start, limit) && Sound(m, start, limit) && !Served(m, limit, Record(size))
    ensures !Sound(Step(m, limit, Record(size)), start, limit)
  {
    SbrkInLayout(m.heap, start, limit, SLAB);
    hide AlignUp, Sbrk;
    var n := Step(m, limit, Record(size));
    var g := n.grants[|m.grants|];
    assert g == Grant(Refill(m.heap, limit).slabPtr, size, false);
    assert !GrantOk(n, start, limit, g);
  }

  /** A request keeps memory sound exactly if it can be served. */
  lemma StepSoundIff(m: Memory, start: u32, limit: u32, r: Request)
    requires Layout(start, limit) && Sound(m, start, limit) && Proper(r)
    ensures Sound(Step(m, limit, r), start, limit) <==> Served(m, limit, r)
  {
    hide Sound, HeapOk, AlignUp, Step;
    match r {
      case Block(n) => BlockKeepsSound(m, start, limit, n);
      case Record(size) =>
        if !Served(m, limit, r) {
          UnservedIsUnsound(m, start, limit, size);
        } else if size <= m.heap.slabSize {
          CarveKeepsSound(m, start, limit, size);
        } else {
          SlabRange(m, start, limit);
          RefillKeepsSound(m, start, limit);
          RefillFirst(m, limit, size);
          CarveKeepsSound(Memory(Refill(m.heap, limit), m.grants), start, limit, size);
        }
    }
  }

  lemma SlabRange(m: Memory, start: u32, limit: u32)
    requires Sound(m, start, limit)
    ensures 0 <= m.heap.slabSize <= SLAB
  {
  }

  // ---------------------------------------------------------------- every run

  predicate SoundThroughout(start: u32, limit: u32, rs: seq<Request>) {
    forall k :: 0 <= k <= |rs| ==> Sound(Run(start, limit, rs[..k]), start, limit)
  }

  predicate AllServed(start: u32, limit: u32, rs: seq<Request>) {
    forall k :: 0 <= k < |rs| ==> Served(Run(start, limit, rs[..k]), limit, rs[k])
  }

  lemma {:induction false} ServedPrefixIsSound(start: u32, limit: u32, rs: seq<Request>, k: nat)
    requires Layout(start, limit) && k <= |rs| && forall i :: 0 <= i < |rs| ==> Proper(rs[i])
    requires forall i :: 0 <= i < k ==> Served(Run(start, limit, rs[..i]), limit, rs[i])
    ensures Sound(Run(start, limit, rs[..k]), start, limit)
  {
    if k > 0 {
      ServedPrefixIsSound(start, limit, rs, k - 1);
      hide Sound, Served;
      assert rs[..k][..k - 1] == rs[..k - 1];
      StepSoundIff(Run(start, limit, rs[..k - 1]), start, limit, rs[k - 1]);
    }
  }

  /** In every run all that is handed out stays apart, aligned and below the limit, if and only if
      every profiling record is at most a slab and every slab it needs is granted. */
  lemma RunSoundIff(start: u32, limit: u32, rs: seq<Request>)
    requires Layout(start, limit) && forall i :: 0 <= i < |rs| ==> Proper(rs[i])
    ensures SoundThroughout(start, limit, rs) <==> AllServed(start, limit, rs)
  {
    if AllServed(start, limit, rs) {
      forall k | 0 <= k <= |rs|
        ensures Sound(Run(start, limit, rs[..k]), start, limit)
      {
        ServedPrefixIsSound(start, limit, rs, k);
      }
    }
    if SoundThroughout(start, limit, rs) {
      forall k | 0 <= k < |rs|
        ensures Served(Run(start, limit, rs[..k]), limit, rs[k])
      {
        hide Sound, Served;
        assert rs[..k + 1][..k] == rs[..k];
        assert Run(start, limit, rs[..k + 1]) == Step(Run(start, limit, rs[..k]), limit, rs[k]);
        StepSoundIff(Run(start, limit, rs[..k]), start, limit, rs[k]);
      }
    }
  }

  /** A heap of 256 bytes cannot hold a slab: the first profiling record is put at the address that
      reports the failure. */
  lemma RefusedSlabIsUsed()
    ensures var m := Run(0x1000, 0x1100, [Record(12)]);
      m.grants == [Grant(FAIL, 12, false)] && !Sound(m, 0x1000, 0x1100)
  {
    var before := Run(0x1000, 0x1100, []);
    assert [Record(12)][..0] == [];
    var m := Run(0x1000, 0x1100, [Record(12)]);
    assert m == Step(before, 0x1100, Record(12));
    hide Run;
    FirstSlabRefused();
    assert m.grants == [] + [Grant(FAIL, 12, false)] == [Grant(FAIL, 12, false)];
    hide Step;
    assert !GrantOk(m, 0x1000, 0x1100, m.grants[0]);
  }

  lemma FirstSlabRefused()
    ensures Allocate(Heap(0x1000, 0, 0), 0x1100, 12).1 == FAIL
  {
    assert AlignUp(0x1000) == 0x1000;
    hide AlignUp;
    InRange(0x1000 + SLAB);
    assert Sbrk(Heap(0x1000, 0, 0), 0x1100, SLAB).1 == FAIL;
  }

  // ---------------------------------------------------------------- the allocators in place

  class Allocator {
    var heapEnd: u32
    var mcountSlabPtr: u32
    var mcountSlabSize: int
    const limit: u32

    ghost function View(): Heap
      reads this
    {
      Heap(heapEnd, mcountSlabPtr, mcountSlabSize)
    }

    constructor (start: u32, limit: u32)
      ensures View() == Run(start, limit, []).heap && this.limit == limit
    {
      heapEnd, mcountSlabPtr, mcountSlabSize := start, 0, 0;
      this.limit := limit;
    }

    method ExtendHeap(incr: int) returns (p: u32)
      modifies this`heapEnd
      ensures (View(), p) == Sbrk(old(View()), limit, incr)
    {
      heapEnd := Wrap(heapEnd + 3) / 4 * 4;
      if Wrap(heapEnd + incr) > limit {
        return FAIL;
      }
      var prevHeapEnd := heapEnd;
      heapEnd := Wrap(heapEnd + incr);
      return prevHeapEnd;
    }

    method McountAllocate(size: u32) returns (data: u32)
      modifies this
      ensures (View(), data) == Allocate(old(View()), limit, size)
    {
      if size > Wrap(mcountSlabSize) {
        mcountSlabPtr := ExtendHeap(SLAB);
        mcountSlabSize := SLAB;
      }
      data := mcountSlabPtr;
      mcountSlabPtr := Wrap(mcountSlabPtr + size);
      mcountSlabSize := Int32(mcountSlabSize - size);
    }
  }
}
