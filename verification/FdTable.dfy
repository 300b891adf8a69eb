/**
 The file descriptor table: allocation with a high-water mark, and exclusive access to devices by a
 flag in the descriptor.
 */
module FdTable {
  import opened Errno
  import opened Wrappers

  const ALT_MAX_FD: nat := 32
  const EXCL: bv32 := 0x8000_0000
  const DEV: bv32 := 0x4000_0000
  const FLAGS_MASK: bv32 := EXCL | DEV
  const FCNTL_MASK: bv32 := 0x4008  // O_APPEND | O_NONBLOCK

  /** What a name refers to: a device or a file system, and none is both. */
  datatype Node = Device(id: nat) | FileSystem(id: nat)

  datatype Entry = Entry(dev: Option<Node>, flags: bv32) {
    predicate Holds() {
      flags & EXCL != 0
    }

    predicate IsDev() {
      flags & DEV != 0
    }
  }

  const FREE := Entry(None, 0)

  /** `alt_fd_list` and `alt_max_fd` */
  datatype Table = Table(fds: seq<Entry>, maxFd: int)

  /** A return value and the error number stored, if one is. */
  datatype Result = Result(value: int, errno: Option<int>) | Flags(word: bv32)

  datatype Request = Exclusive | Shared | Other
  datatype Command = GetFlags | SetFlags(arg: bv32) | Unknown

  /** A call, with the answer of the driver it may reach. */
  datatype Call =
    | Open(target: Option<Node>, flags: bv32, answer: int)
    | Close(fd: int, answer: int)
    | Ioctl(fd: int, req: Request, driver: Option<int>)
    | Fcntl(fd: int, cmd: Command)

  // ---------------------------------------------------------------- the calls on values

  function FirstFree(fds: seq<Entry>, from: nat): (i: nat)
    requires from <= |fds|
    ensures from <= i <= |fds|
    ensures forall k :: from <= k < i ==> fds[k].dev.Some?
    ensures i < |fds| ==> fds[i].dev.None?
    decreases |fds| - from
  {
    if from == |fds| || fds[from].dev.None? then from else FirstFree(fds, from + 1)
  }

  function Max(a: int, b: int): int {
    if a > b then a else b
  }

  predicate Sized(t: Table) {
    |t.fds| == ALT_MAX_FD && -1 <= t.maxFd < ALT_MAX_FD
  }

  function SetEntry(t: Table, fd: nat, e: Entry): Table
    requires Sized(t) && fd < ALT_MAX_FD
  {
    t.(fds := t.fds[fd := e])
  }

  function Release(t: Table, fd: int): Table
    requires Sized(t) && fd < ALT_MAX_FD
  {
    if fd > 2 then SetEntry(t, fd, FREE) else t
  }

  /** Some other descriptor up to the high-water mark holds the device. */
  predicate HeldByOther(t: Table, fd: nat)
    requires Sized(t) && fd < ALT_MAX_FD
  {
    exists i :: 0 <= i <= t.maxFd && i != fd && t.fds[i].dev == t.fds[fd].dev && t.fds[i].Holds()
  }

  /** Some other descriptor below the high-water mark is open on the device. */
  predicate OpenBelow(t: Table, fd: nat)
    requires Sized(t) && fd < ALT_MAX_FD
  {
    exists i :: 0 <= i < t.maxFd && i != fd && t.fds[i].dev == t.fds[fd].dev
  }

  function OpenFlags(dev: Node, flags: bv32): bv32 {
    if dev.Device? then (flags & !FLAGS_MASK) | DEV else flags & !FLAGS_MASK
  }

  function Claim(t: Table, i: nat, dev: Node, flags: bv32): Table
    requires Sized(t) && i < ALT_MAX_FD
  {
    Table(t.fds[i := Entry(Some(dev), OpenFlags(dev, flags))], Max(i, t.maxFd))
  }

  function DoOpen(t: Table, target: Option<Node>, flags: bv32, answer: int): (Table, Result)
    requires Sized(t)
  {
    if target.None? then (t, Result(-1, Some(ENODEV)))
    else
      var i := FirstFree(t.fds, 0);
      if i == ALT_MAX_FD then (t, Result(-1, Some(EMFILE)))
      else
        var u := Claim(t, i, target.value, flags);
        if target.value.Device? && HeldByOther(u, i) then (Release(u, i), Result(-1, Some(EACCES)))
        else if answer < 0 then (Release(u, i), Result(-1, Some(-answer)))
        else (u, Result(i, None))
  }

  function DoClose(t: Table, fd: int, answer: int): (Table, Result)
    requires Sized(t) && fd < ALT_MAX_FD
  {
    if fd < 0 then (t, Result(-1, Some(EBADFD)))
    else (Release(t, fd), if answer < 0 then Result(-1, Some(-answer)) else Result(0, None))
  }

  function Lock(t: Table, fd: nat): (Table, int)
    requires Sized(t) && fd < ALT_MAX_FD
  {
    if OpenBelow(t, fd) then (t, -EACCES)
    else (SetEntry(t, fd, t.fds[fd].(flags := t.fds[fd].flags | EXCL)), 0)
  }

  function Unlock(t: Table, fd: nat): Table
    requires Sized(t) && fd < ALT_MAX_FD
  {
    SetEntry(t, fd, t.fds[fd].(flags := t.fds[fd].flags & !EXCL))
  }

  function Answered(rc: int): Result {
    Result(rc, if rc < 0 then Some(-rc) else None)
  }

  function DoIoctl(t: Table, fd: int, req: Request, driver: Option<int>): (Table, Result)
    requires Sized(t) && fd < ALT_MAX_FD
  {
    if fd < 0 then (t, Answered(-EBADFD))
    else if t.fds[fd].IsDev() && req == Exclusive then var (u, rc) := Lock(t, fd); (u, Answered(rc))
    else if t.fds[fd].IsDev() && req == Shared then (Unlock(t, fd), Answered(0))
    else (t, Answered(if driver.Some? then driver.value else -ENOTTY))
  }

  function UpdatedFlags(flags: bv32, arg: bv32): bv32 {
    (flags & !FCNTL_MASK) | (arg & FCNTL_MASK)
  }

  function DoFcntl(t: Table, fd: int, cmd: Command): (Table, Result)
    requires Sized(t) && fd < ALT_MAX_FD
  {
    if fd < 0 then (t, Result(-1, Some(EBADFD)))
    else match cmd
      case GetFlags => (t, Flags(t.fds[fd].flags & !FLAGS_MASK))
      case SetFlags(arg) => (SetEntry(t, fd, t.fds[fd].(flags := UpdatedFlags(t.fds[fd].flags, arg))), Result(0, None))
      case Unknown => (t, Result(-1, Some(EINVAL)))
  }

  /** What the code demands of a descriptor argument: it is negative, or in the table and in use. */
  predicate Legal(t: Table, c: Call) {
    Sized(t) && match c
    case Open(_, _, _) => true
    case Close(fd, _) => fd < 0 || (fd < ALT_MAX_FD && t.fds[fd].dev.Some?)
    case Ioctl(fd, _, _) => fd < 0 || (fd < ALT_MAX_FD && t.fds[fd].dev.Some?)
    case Fcntl(fd, _) => fd < ALT_MAX_FD
  }

  function Perform(t: Table, c: Call): (Table, Result)
    requires Legal(t, c)
  {
    match c
    case Open(target, flags, answer) => DoOpen(t, target, flags, answer)
    case Close(fd, answer) => DoClose(t, fd, answer)
    case Ioctl(fd, req, driver) => DoIoctl(t, fd, req, driver)
    case Fcntl(fd, cmd) => DoFcntl(t, fd, cmd)
  }

  /** The calls of a run are legal one after the other. */
  predicate LegalRun(t: Table, calls: seq<Call>)
    decreases |calls|
  {
    calls == [] || (Legal(t, calls[0]) && LegalRun(Perform(t, calls[0]).0, calls[1..]))
  }

  function After(t: Table, calls: seq<Call>): Table
    requires LegalRun(t, calls)
    decreases |calls|
  {
    if calls == [] then t else After(Perform(t, calls[0]).0, calls[1..])
  }

  // ---------------------------------------------------------------- the invariant

  predicate Shape(t: Table) {
    Sized(t) && (forall i :: 0 <= i <= 2 ==> t.fds[i].dev.Some?)
      && (forall i :: 2 < i < ALT_MAX_FD && t.fds[i].dev.Some? ==> i <= t.maxFd)
  }

  predicate CleanEntry(t: Table, e: Entry) {
    && (e.Holds() ==> e.IsDev())
    && (e.IsDev() ==> t.maxFd > 2 && e.dev.Some? && e.dev.value.Device?)
  }

  predicate Clean(t: Table)
    requires Sized(t)
  {
    forall i :: 0 <= i < ALT_MAX_FD ==> CleanEntry(t, t.fds[i])
  }

  /** Descriptor `i` shares the device that `h` holds. */
  predicate Shares(t: Table, h: nat, i: nat)
    requires Sized(t) && h < ALT_MAX_FD && i < ALT_MAX_FD
  {
    h != i && t.fds[h].Holds() && t.fds[i].dev == t.fds[h].dev
  }

  /** A descriptor that shares a held device comes after the holder and does not hold it too. */
  predicate Guarded(t: Table)
    requires Sized(t)
  {
    forall h, i :: 0 <= h < ALT_MAX_FD && 0 <= i < ALT_MAX_FD && Shares(t, h, i) ==> h < i && !t.fds[i].Holds()
  }

  /** At most one descriptor shares a held device. */
  predicate OneSharer(t: Table)
    requires Sized(t)
  {
    forall h, i, j ::
      0 <= h < ALT_MAX_FD && 0 <= i < ALT_MAX_FD && 0 <= j < ALT_MAX_FD && Shares(t, h, i) && Shares(t, h, j) ==>
        i == j
  }

  predicate Inv(t: Table) {
    Shape(t) && Clean(t) && Guarded(t) && OneSharer(t)
  }

  lemma FlagBits(flags: bv32, arg: bv32)
    ensures (flags | EXCL) & EXCL != 0 && (flags | EXCL) & DEV == flags & DEV
    ensures (flags & !EXCL) & EXCL == 0 && (flags & !EXCL) & DEV == flags & DEV
    ensures UpdatedFlags(flags, arg) & EXCL == flags & EXCL && UpdatedFlags(flags, arg) & DEV == flags & DEV
  {
  }

  lemma OpenBits(dev: Node, flags: bv32)
    ensures OpenFlags(dev, flags) & EXCL == 0
    ensures OpenFlags(dev, flags) & DEV != 0 <==> dev.Device?
  {
  }

  /** Nobody holds the device, wherever in the table. */
  predicate Unheld(t: Table, dev: Node)
    requires Sized(t)
  {
    forall i :: 0 <= i < ALT_MAX_FD && t.fds[i].dev == Some(dev) ==> !t.fds[i].Holds()
  }

  /** The scan up to the high-water mark misses no holder. */
  lemma ScanIsComplete(t: Table, i: nat, dev: Node, flags: bv32)
    requires Inv(t) && 2 < i < ALT_MAX_FD && t.fds[i].dev.None?
    ensures HeldByOther(Claim(t, i, dev, flags), i) <==> !Unheld(t, dev)
  {
    hide Entry.Holds;
    var u := Claim(t, i, dev, flags);
    if HeldByOther(u, i) {
      var k :| 0 <= k <= u.maxFd && k != i && u.fds[k].dev == u.fds[i].dev && u.fds[k].Holds();
      assert t.fds[k].dev == Some(dev) && t.fds[k].Holds();
    }
    if !Unheld(t, dev) {
      var k :| 0 <= k < ALT_MAX_FD && t.fds[k].dev == Some(dev) && t.fds[k].Holds();
      assert u.fds[k] == t.fds[k] && k <= u.maxFd;
    }
  }

  lemma FreeIsAboveTwo(t: Table)
    requires Shape(t)
    ensures FirstFree(t.fds, 0) > 2
  {
  }

  // ---------------------------------------------------------------- open

  predicate OpenGranted(t: Table, target: Option<Node>, answer: int)
    requires Sized(t)
  {
    && target.Some? && FirstFree(t.fds, 0) < ALT_MAX_FD
    && (target.value.Device? ==> Unheld(t, target.value)) && answer >= 0
  }

  predicate OpenUndone(t: Table, u: Table, target: Option<Node>)
    requires Sized(t)
  {
    var i := FirstFree(t.fds, 0);
    && t.maxFd <= u.maxFd
    && (u.fds == t.fds <==> target.None? || i == ALT_MAX_FD || t.fds[i].flags == 0)
    && (u.fds == t.fds || u.fds == t.fds[i := FREE])
  }

  /** `open` succeeds exactly if the name is known, a descriptor is free, nobody holds the device and
      the driver agrees; it then returns the lowest free descriptor. A failed `open` leaves all
      descriptors in use as they were, and all others too unless the one it tried had stale flags. */
  lemma OpenOutcome(t: Table, target: Option<Node>, flags: bv32, answer: int)
    requires Inv(t)
    ensures var (u, r) := DoOpen(t, target, flags, answer);
      && Sized(u) && r.Result? && (r.value >= 0 <==> OpenGranted(t, target, answer))
      && (r.value >= 0 ==> r.value == FirstFree(t.fds, 0) > 2 && u == Claim(t, r.value, target.value, flags))
      && (r.value < 0 ==> r.value == -1 && r.errno.Some? && OpenUndone(t, u, target))
      && (r.value < 0 && target.Some? && FirstFree(t.fds, 0) < ALT_MAX_FD ==>
            target.value.Device? && !Unheld(t, target.value) ==> r.errno == Some(EACCES))
  {
    hide Entry.Holds, Entry.IsDev, OpenFlags, HeldByOther, Unheld, Guarded, OneSharer;
    if target.Some? && FirstFree(t.fds, 0) < ALT_MAX_FD {
      FreeIsAboveTwo(t);
      var i := FirstFree(t.fds, 0);
      ScanIsComplete(t, i, target.value, flags);
      FreedAgain(t, i, target.value, flags);
    }
  }

  lemma FreedAgain(t: Table, i: nat, dev: Node, flags: bv32)
    requires Sized(t) && 2 < i < ALT_MAX_FD && t.fds[i].dev.None?
    ensures Release(Claim(t, i, dev, flags), i).fds == t.fds[i := FREE]
    ensures t.fds[i := FREE] == t.fds <==> t.fds[i].flags == 0
  {
    if t.fds[i].flags == 0 {
      assert t.fds[i] == FREE;
    } else {
      assert t.fds[i := FREE][i] != t.fds[i];
    }
  }

  // ---------------------------------------------------------------- every call keeps the invariant

  lemma HigherMarkKeeps(t: Table, mark: int)
    requires Inv(t) && t.maxFd <= mark < ALT_MAX_FD
    ensures Inv(t.(maxFd := mark))
  {
    var u := t.(maxFd := mark);
    hide Entry.Holds, Entry.IsDev;
    forall i | 0 <= i < ALT_MAX_FD
      ensures CleanEntry(u, u.fds[i])
    {
      assert CleanEntry(t, t.fds[i]);
    }
    forall h, i | 0 <= h < ALT_MAX_FD && 0 <= i < ALT_MAX_FD && Shares(u, h, i)
      ensures h < i && !u.fds[i].Holds()
    {
      assert Shares(t, h, i);
    }
    forall h, i, j | 0 <= h < ALT_MAX_FD && 0 <= i < ALT_MAX_FD && 0 <= j < ALT_MAX_FD &&
      Shares(u, h, i) && Shares(u, h, j)
      ensures i == j
    {
      assert Shares(t, h, i) && Shares(t, h, j);
    }
  }

  /** Changing one entry keeps the invariant if the entry is clean, keeps its device or frees it, and
      does not become a holder. */
  lemma EntryKeeps(t: Table, fd: nat, e: Entry)
    requires Inv(t) && fd < ALT_MAX_FD && CleanEntry(t, e)
    requires e.dev == t.fds[fd].dev || (e.dev.None? && fd > 2)
    requires e.Holds() ==> t.fds[fd].Holds() && e.dev == t.fds[fd].dev
    ensures Inv(SetEntry(t, fd, e))
  {
    hide Entry.Holds, Entry.IsDev, CleanEntry;
    var u := SetEntry(t, fd, e);
    assert Shape(u) && Clean(u) by { CleanAfter(t, fd, e); }
    forall h, i | 0 <= h < ALT_MAX_FD && 0 <= i < ALT_MAX_FD && Shares(u, h, i)
      ensures Shares(t, h, i) && h < i && !u.fds[i].Holds()
    {
      SharesBefore(t, fd, e, h, i);
    }
    forall h, i, j | 0 <= h < ALT_MAX_FD && 0 <= i < ALT_MAX_FD && 0 <= j < ALT_MAX_FD &&
      Shares(u, h, i) && Shares(u, h, j)
      ensures i == j
    {
      assert Shares(t, h, i) && Shares(t, h, j);
    }
  }

  lemma CleanAfter(t: Table, fd: nat, e: Entry)
    requires Inv(t) && fd < ALT_MAX_FD && CleanEntry(t, e)
    ensures Clean(SetEntry(t, fd, e))
  {
    hide Entry.Holds, Entry.IsDev, Guarded, OneSharer;
    var u := SetEntry(t, fd, e);
    forall i | 0 <= i < ALT_MAX_FD
      ensures CleanEntry(u, u.fds[i])
    {
      assert CleanEntry(t, t.fds[i]);
    }
  }

  lemma SharesBefore(t: Table, fd: nat, e: Entry, h: nat, i: nat)
    requires Inv(t) && fd < ALT_MAX_FD && h < ALT_MAX_FD && i < ALT_MAX_FD && CleanEntry(t, e)
    requires e.dev == t.fds[fd].dev || (e.dev.None? && fd > 2)
    requires e.Holds() ==> t.fds[fd].Holds() && e.dev == t.fds[fd].dev
    requires Shares(SetEntry(t, fd, e), h, i)
    ensures Shares(t, h, i) && h < i && !SetEntry(t, fd, e).fds[i].Holds()
  {
    hide Entry.Holds, Entry.IsDev, OneSharer;
    assert CleanEntry(t, t.fds[h]) && CleanEntry(t, t.fds[i]);
    assert Shares(t, h, i);
  }

  lemma ClaimKeeps(t: Table, dev: Node, flags: bv32)
    requires Inv(t) && FirstFree(t.fds, 0) < ALT_MAX_FD && (dev.Device? ==> Unheld(t, dev))
    ensures Inv(Claim(t, FirstFree(t.fds, 0), dev, flags))
  {
    var i := FirstFree(t.fds, 0);
    FreeIsAboveTwo(t);
    OpenBits(dev, flags);
    var u := Claim(t, i, dev, flags);
    assert !u.fds[i].Holds() && (u.fds[i].IsDev() <==> dev.Device?);
    hide Entry.Holds, Entry.IsDev, OpenFlags;
    forall k | 0 <= k < ALT_MAX_FD
      ensures CleanEntry(u, u.fds[k])
    {
      assert CleanEntry(t, t.fds[k]);
    }
    forall h, k | 0 <= h < ALT_MAX_FD && 0 <= k < ALT_MAX_FD && Shares(u, h, k)
      ensures Shares(t, h, k) && h < k && !u.fds[k].Holds()
    {
      assert h != i && u.fds[h] == t.fds[h];
      assert CleanEntry(t, t.fds[h]);
      assert Shares(t, h, k);
    }
    forall h, k, j | 0 <= h < ALT_MAX_FD && 0 <= k < ALT_MAX_FD && 0 <= j < ALT_MAX_FD &&
      Shares(u, h, k) && Shares(u, h, j)
      ensures k == j
    {
      assert Shares(t, h, k) && Shares(t, h, j);
    }
  }

  /** A descriptor that is granted the lock can only share the device with the highest one. */
  lemma LockKeeps(t: Table, fd: nat)
    requires Inv(t) && fd < ALT_MAX_FD && t.fds[fd].IsDev()
    ensures Inv(Lock(t, fd).0)
  {
    var e := t.fds[fd].(flags := t.fds[fd].flags | EXCL);
    if !OpenBelow(t, fd) {
      FlagBits(t.fds[fd].flags, 0);
      assert e.Holds() && e.IsDev();
      assert CleanEntry(t, t.fds[fd]);
      CleanAfter(t, fd, e);
      HolderKeeps(t, fd, e);
    }
  }

  lemma HolderKeeps(t: Table, fd: nat, e: Entry)
    requires Inv(t) && fd < ALT_MAX_FD && t.fds[fd].IsDev() && !OpenBelow(t, fd)
    requires e.dev == t.fds[fd].dev && e.Holds() && Clean(SetEntry(t, fd, e))
    ensures Inv(SetEntry(t, fd, e))
  {
    var u := SetEntry(t, fd, e);
    assert Shape(u);
    hide Entry.Holds, Entry.IsDev, CleanEntry, OpenBelow, Clean, Shape;
    forall h, i | 0 <= h < ALT_MAX_FD && 0 <= i < ALT_MAX_FD && Shares(u, h, i)
      ensures h < i && !u.fds[i].Holds() && (h == fd ==> i == t.maxFd) && (h != fd ==> i != fd && Shares(t, h, i))
    {
      NewSharer(t, fd, e, h, i);
    }
    hide Shares;
  }

  lemma OthersAtTop(t: Table, fd: nat, i: nat)
    requires Inv(t) && fd < ALT_MAX_FD && i < ALT_MAX_FD && t.fds[fd].IsDev() && !OpenBelow(t, fd)
    requires i != fd && t.fds[i].dev == t.fds[fd].dev
    ensures i == t.maxFd > fd
  {
    hide Entry.Holds, Entry.IsDev, Guarded, OneSharer;
    assert CleanEntry(t, t.fds[fd]);
  }

  lemma NewSharer(t: Table, fd: nat, e: Entry, h: nat, i: nat)
    requires Inv(t) && fd < ALT_MAX_FD && h < ALT_MAX_FD && i < ALT_MAX_FD && t.fds[fd].IsDev() && !OpenBelow(t, fd)
    requires e.dev == t.fds[fd].dev && e.Holds() && Shares(SetEntry(t, fd, e), h, i)
    ensures h < i && !SetEntry(t, fd, e).fds[i].Holds()
    ensures (h == fd ==> i == t.maxFd) && (h != fd ==> i != fd && Shares(t, h, i))
  {
    hide Entry.Holds, Entry.IsDev, OpenBelow, OneSharer;
    assert Shares(t, h, i) ==> h < i && !t.fds[i].Holds();
    assert Shares(t, i, h) ==> i < h && !t.fds[h].Holds();
    if h == fd {
      OthersAtTop(t, fd, i);
    } else if i == fd {
      OthersAtTop(t, fd, h);
    } else {
      assert Shares(t, h, i);
    }
  }

  lemma CallKeepsInv(t: Table, c: Call)
    requires Inv(t) && Legal(t, c)
    ensures Inv(Perform(t, c).0)
  {
    match c {
      case Open(target, flags, answer) => OpenKeeps(t, target, flags, answer);
      case Close(fd, answer) => CloseKeeps(t, fd, answer);
      case Ioctl(fd, req, driver) => IoctlKeeps(t, fd, req, driver);
      case Fcntl(fd, cmd) => FcntlKeeps(t, fd, cmd);
    }
  }

  lemma OpenKeeps(t: Table, target: Option<Node>, flags: bv32, answer: int)
    requires Inv(t)
    ensures Inv(DoOpen(t, target, flags, answer).0)
  {
    FreeIsAboveTwo(t);
    hide Inv, Claim, Unheld, Shape;
    OpenOutcome(t, target, flags, answer);
    var (u, r) := DoOpen(t, target, flags, answer);
    if r.value >= 0 {
      ClaimKeeps(t, target.value, flags);
    } else {
      FailedOpenKeeps(t, u);
    }
  }

  lemma FailedOpenKeeps(t: Table, u: Table)
    requires Inv(t) && Sized(u) && t.maxFd <= u.maxFd
    requires u.fds == t.fds || (2 < FirstFree(t.fds, 0) < ALT_MAX_FD && u.fds == t.fds[FirstFree(t.fds, 0) := FREE])
    ensures Inv(u)
  {
    HigherMarkKeeps(t, u.maxFd);
    var v := t.(maxFd := u.maxFd);
    if u.fds == t.fds {
      assert u == v;
    } else {
      assert !FREE.Holds() && !FREE.IsDev();
      EntryKeeps(v, FirstFree(t.fds, 0), FREE);
      assert u == SetEntry(v, FirstFree(t.fds, 0), FREE);
    }
  }

  lemma CloseKeeps(t: Table, fd: int, answer: int)
    requires Inv(t) && fd < ALT_MAX_FD
    ensures Inv(DoClose(t, fd, answer).0)
  {
    if fd > 2 {
      assert !FREE.Holds() && !FREE.IsDev();
      EntryKeeps(t, fd, FREE);
    }
  }

  lemma IoctlKeeps(t: Table, fd: int, req: Request, driver: Option<int>)
    requires Inv(t) && fd < ALT_MAX_FD
    ensures Inv(DoIoctl(t, fd, req, driver).0)
  {
    assert Sized(t);
    hide Inv, Lock, Unlock;
    if fd >= 0 && t.fds[fd].IsDev() {
      LockKeeps(t, fd);
      UnlockKeeps(t, fd);
    }
  }

  lemma UnlockKeeps(t: Table, fd: nat)
    requires Inv(t) && fd < ALT_MAX_FD
    ensures Inv(Unlock(t, fd))
  {
    var e := t.fds[fd].(flags := t.fds[fd].flags & !EXCL);
    assert CleanEntry(t, e) && !e.Holds() by {
      assert CleanEntry(t, t.fds[fd]);
      FlagBits(t.fds[fd].flags, 0);
    }
    hide Inv, CleanEntry, Entry.Holds;
    EntryKeeps(t, fd, e);
  }

  lemma FcntlKeeps(t: Table, fd: int, cmd: Command)
    requires Inv(t) && fd < ALT_MAX_FD
    ensures Inv(DoFcntl(t, fd, cmd).0)
  {
    if fd >= 0 && cmd.SetFlags? {
      var e := t.fds[fd].(flags := UpdatedFlags(t.fds[fd].flags, cmd.arg));
      assert CleanEntry(t, e) && (e.Holds() <==> t.fds[fd].Holds()) by {
        assert CleanEntry(t, t.fds[fd]);
        FlagBits(t.fds[fd].flags, cmd.arg);
      }
      hide Inv, CleanEntry, Entry.Holds, UpdatedFlags;
      EntryKeeps(t, fd, e);
    }
  }

  // ---------------------------------------------------------------- start-up

  /** The three standard streams start out on the null device. */
  function Pristine(): Table {
    Table(seq(ALT_MAX_FD, i => if i <= 2 then Entry(Some(Device(0)), 0) else FREE), -1)
  }

  /** `alt_open_fd`: opens a name and moves the descriptor into the slot of a standard stream. */
  function Redirect(t: Table, slot: nat, target: Option<Node>, flags: bv32, answer: int): Table
    requires Sized(t) && slot <= 2
  {
    var (u, r) := DoOpen(t, target, flags, answer);
    if r.value < 0 then u else Release(SetEntry(u, slot, u.fds[r.value]), r.value)
  }

  predicate Quiet(t: Table) {
    Inv(t) && forall i :: 0 <= i < ALT_MAX_FD ==> !t.fds[i].Holds()
  }

  lemma PristineIsQuiet()
    ensures Quiet(Pristine())
  {
    var t := Pristine();
    forall i | 0 <= i < ALT_MAX_FD
      ensures CleanEntry(t, t.fds[i]) && !t.fds[i].Holds()
    {
      assert t.fds[i].flags == 0;
    }
  }

  lemma WithoutHolders(t: Table)
    requires Shape(t) && Clean(t) && forall i :: 0 <= i < ALT_MAX_FD ==> !t.fds[i].Holds()
    ensures Quiet(t)
  {
    hide Entry.Holds, Clean, Shape;
  }

  /** Redirecting a standard stream establishes what the calls rely on. */
  lemma RedirectKeepsQuiet(t: Table, slot: nat, target: Option<Node>, flags: bv32, answer: int)
    requires Quiet(t) && slot <= 2
    ensures Quiet(Redirect(t, slot, target, flags, answer))
  {
    OpenOutcome(t, target, flags, answer);
    OpenKeeps(t, target, flags, answer);
    var (u, r) := DoOpen(t, target, flags, answer);
    assert !FREE.Holds() && !FREE.IsDev();
    if r.value >= 0 {
      OpenBits(target.value, flags);
      assert !u.fds[r.value].Holds();
      var v := Redirect(t, slot, target, flags, answer);
      hide Entry.Holds, Entry.IsDev, DoOpen, Guarded, OneSharer, OpenGranted, OpenUndone, OpenFlags;
      forall i | 0 <= i < ALT_MAX_FD
        ensures CleanEntry(v, v.fds[i]) && !v.fds[i].Holds()
      {
        assert CleanEntry(u, u.fds[i]) && CleanEntry(u, u.fds[r.value]);
      }
      WithoutHolders(v);
    } else {
      hide Entry.Holds, DoOpen, OpenGranted;
      WithoutHolders(u);
    }
  }

  // ---------------------------------------------------------------- every run

  lemma {:induction false} RunKeepsInv(t: Table, calls: seq<Call>)
    requires Inv(t) && LegalRun(t, calls)
    ensures Inv(After(t, calls))
    decreases |calls|
  {
    if calls != [] {
      CallKeepsInv(t, calls[0]);
      RunKeepsInv(Perform(t, calls[0]).0, calls[1..]);
    }
  }

  /** In every run no two descriptors hold the same device, and a held device is open at most once
      more, on a later descriptor; in-use descriptors above 2 are within the high-water mark. */
  lemma OneHolder(t: Table, calls: seq<Call>, h: nat, i: nat)
    requires Inv(t) && LegalRun(t, calls) && h < i < ALT_MAX_FD
    ensures var u := After(t, calls);
      && Sized(u)
      && (u.fds[h].Holds() && u.fds[i].Holds() ==> u.fds[h].dev != u.fds[i].dev)
      && (u.fds[i].Holds() ==> u.fds[h].dev != u.fds[i].dev)
      && (i > 2 && u.fds[i].dev.Some? ==> i <= u.maxFd)
  {
    RunKeepsInv(t, calls);
    var u := After(t, calls);
    hide Entry.Holds, After;
    assert Shares(u, i, h) ==> i < h;
  }

  /** The calls that end the hold of descriptor `h`. */
  predicate Ends(c: Call, h: nat) {
    (c.Close? && c.fd == h && h > 2) || (c.Ioctl? && c.fd == h && c.req == Shared)
  }

  predicate HoldsDevice(t: Table, h: nat, dev: Node) {
    Sized(t) && h < ALT_MAX_FD && t.fds[h].Holds() && t.fds[h].dev == Some(dev)
  }

  /** Every `open` of the device in the run fails, with `EACCES` unless the table is full. */
  predicate AllRefused(t: Table, calls: seq<Call>, dev: Node)
    requires LegalRun(t, calls)
    decreases |calls|
  {
    calls == [] || (
      var (u, r) := Perform(t, calls[0]);
      && (calls[0].Open? && calls[0].target == Some(dev) ==>
          r == Result(-1, Some(if FirstFree(t.fds, 0) == ALT_MAX_FD then EMFILE else EACCES)))
      && AllRefused(u, calls[1..], dev))
  }

  lemma OpenRefused(t: Table, h: nat, dev: Node, flags: bv32, answer: int)
    requires Inv(t) && HoldsDevice(t, h, dev)
    ensures DoOpen(t, Some(dev), flags, answer).1
         == Result(-1, Some(if FirstFree(t.fds, 0) == ALT_MAX_FD then EMFILE else EACCES))
  {
    assert CleanEntry(t, t.fds[h]);
    assert !Unheld(t, dev);
    OpenOutcome(t, Some(dev), flags, answer);
  }

  lemma HoldStays(t: Table, c: Call, h: nat, dev: Node)
    requires Inv(t) && HoldsDevice(t, h, dev) && Legal(t, c) && !Ends(c, h)
    ensures HoldsDevice(Perform(t, c).0, h, dev)
  {
    hide Guarded, OneSharer, Clean;
    match c {
      case Open(target, flags, answer) =>
        EntryStays(t, target, flags, answer, h);
      case Close(fd, answer) =>
      case Ioctl(fd, req, driver) =>
        if fd >= 0 {
          FlagBits(t.fds[fd].flags, 0);
        }
      case Fcntl(fd, cmd) =>
        if fd >= 0 && cmd.SetFlags? {
          FlagBits(t.fds[fd].flags, cmd.arg);
          hide UpdatedFlags;
        }
    }
  }

  lemma EntryStays(t: Table, target: Option<Node>, flags: bv32, answer: int, h: nat)
    requires Sized(t) && h < ALT_MAX_FD && t.fds[h].dev.Some?
    ensures var u := DoOpen(t, target, flags, answer).0; Sized(u) && u.fds[h] == t.fds[h]
  {
    hide HeldByOther;
  }

  /** Once a descriptor holds a device, every `open` of it fails until the descriptor unlocks it or,
      unless it is a standard stream, is closed. */
  lemma {:induction false} HeldUntilReleased(t: Table, calls: seq<Call>, h: nat, dev: Node)
    requires Inv(t) && HoldsDevice(t, h, dev) && LegalRun(t, calls)
    requires forall i :: 0 <= i < |calls| ==> !Ends(calls[i], h)
    ensures AllRefused(t, calls, dev) && HoldsDevice(After(t, calls), h, dev)
    decreases |calls|
  {
    if calls != [] {
      var c := calls[0];
      CallKeepsInv(t, c);
      HoldStays(t, c, h, dev);
      if c.Open? && c.target == Some(dev) {
        OpenRefused(t, h, dev, c.flags, c.answer);
      }
      hide Inv, HoldsDevice;
      HeldUntilReleased(Perform(t, c).0, calls[1..], h, dev);
    }
  }

  /** Ending the hold leaves the device free for everybody. */
  lemma EndReleases(t: Table, c: Call, h: nat, dev: Node)
    requires Inv(t) && HoldsDevice(t, h, dev) && Legal(t, c) && Ends(c, h)
    ensures Unheld(Perform(t, c).0, dev)
  {
    assert CleanEntry(t, t.fds[h]);
    FlagBits(t.fds[h].flags, 0);
    var u := Perform(t, c).0;
    assert u.fds == t.fds[h := u.fds[h]] && !HoldsDevice(u, h, dev);
    hide Entry.Holds, Entry.IsDev, Perform;
    forall i | 0 <= i < ALT_MAX_FD && u.fds[i].dev == Some(dev)
      ensures !u.fds[i].Holds()
    {
      assert Shares(t, h, i) ==> !t.fds[i].Holds();
    }
  }

  // ---------------------------------------------------------------- the scan of lock

  /** No other descriptor is open on the device. */
  predicate Alone(t: Table, fd: nat)
    requires Sized(t) && fd < ALT_MAX_FD
  {
    forall i :: 0 <= i < ALT_MAX_FD && i != fd ==> t.fds[i].dev != t.fds[fd].dev
  }

  /** The lock is granted to a lone descriptor and refused to others, except when the only other
      descriptor on the device is the highest one allocated so far: the scan stops before it. */
  lemma LockIsRightIff(t: Table, fd: nat)
    requires Inv(t) && fd < ALT_MAX_FD && t.fds[fd].IsDev()
    ensures 0 <= t.maxFd < ALT_MAX_FD
    ensures (Lock(t, fd).1 == 0 <==> Alone(t, fd)) <==>
            (t.maxFd == fd || t.fds[t.maxFd].dev != t.fds[fd].dev || OpenBelow(t, fd))
  {
    assert CleanEntry(t, t.fds[fd]);
    hide Entry.IsDev, Entry.Holds, Guarded, OneSharer;
    if OpenBelow(t, fd) {
      var i :| 0 <= i < t.maxFd && i != fd && t.fds[i].dev == t.fds[fd].dev;
      assert !Alone(t, fd);
    } else if t.maxFd != fd && t.fds[t.maxFd].dev == t.fds[fd].dev {
      assert !Alone(t, fd);
    } else {
      forall i | 0 <= i < ALT_MAX_FD && i != fd
        ensures t.fds[i].dev != t.fds[fd].dev
      {
        assert t.fds[i].dev == t.fds[fd].dev ==> i <= t.maxFd;
      }
    }
  }

  lemma FirstFreeIs(fds: seq<Entry>, i: nat)
    requires i < |fds| && fds[i].dev.None? && forall k :: 0 <= k < i ==> fds[k].dev.Some?
    ensures FirstFree(fds, 0) == i
  {
    var j := FirstFree(fds, 0);
    assert j == i || j > i;
  }

  /** Two opens of one device, then a lock on the first: it is granted. */
  lemma LockWhileShared(dev: Node)
    requires dev.Device? && dev != Device(0)
    ensures var (t, r) := DoOpen(Pristine(), Some(dev), 0, 0); var (u, q) := DoOpen(t, Some(dev), 0, 0);
      && r.value == 3 && q.value == 4 && u.fds[3].dev == u.fds[4].dev == Some(dev)
      && Lock(u, 3).1 == 0 && !Alone(u, 3)
  {
    FirstFreeIs(Pristine().fds, 3);
    PristineIsQuiet();
    OpenOutcome(Pristine(), Some(dev), 0, 0);
    OpenKeeps(Pristine(), Some(dev), 0, 0);
    var t := DoOpen(Pristine(), Some(dev), 0, 0).0;
    FirstFreeIs(t.fds, 4);
    OpenBits(dev, 0);
    OpenOutcome(t, Some(dev), 0, 0);
    var u := DoOpen(t, Some(dev), 0, 0).0;
    hide Inv, OpenFlags, OpenGranted, OpenUndone;
    assert u.fds[3].dev == u.fds[4].dev;
  }

  // ---------------------------------------------------------------- stale flags

  predicate Tidy(t: Table)
    requires Sized(t)
  {
    forall i :: 0 <= i < ALT_MAX_FD && t.fds[i].dev.None? ==> t.fds[i].flags == 0
  }

  /** Free descriptors keep zero flags, so that a failed `open` changes no descriptor at all, as long
      as `fcntl` is only used on open descriptors, which it does not check. */
  lemma CallKeepsTidy(t: Table, c: Call)
    requires Inv(t) && Tidy(t) && Legal(t, c)
    ensures Tidy(Perform(t, c).0) <==>
            !(c.Fcntl? && c.fd >= 0 && c.cmd.SetFlags? && t.fds[c.fd].dev.None? && c.cmd.arg & FCNTL_MASK != 0)
    ensures Tidy(Perform(t, c).0) && c.Open? && Perform(t, c).1.value < 0 ==> Perform(t, c).0.fds == t.fds
  {
    hide Entry.Holds, Entry.IsDev, Guarded, OneSharer, Clean;
    match c {
      case Open(target, flags, answer) => OpenOutcome(t, target, flags, answer);
      case Close(fd, answer) =>
      case Ioctl(fd, req, driver) =>
      case Fcntl(fd, cmd) =>
        if fd >= 0 && cmd.SetFlags? && t.fds[fd].dev.None? {
          var u := Perform(t, c).0;
          assert t.fds[fd].flags == 0 && u.fds[fd].flags == UpdatedFlags(0, cmd.arg) == cmd.arg & FCNTL_MASK;
          assert u.fds[fd].dev.None?;
        }
    }
  }

  /** Flags set on a free descriptor, and then an open that the driver refuses: it changes the table. */
  lemma StaleFlagsAreCleared()
    ensures var t := DoFcntl(Pristine(), 3, SetFlags(FCNTL_MASK)).0;
      var (u, r) := DoOpen(t, Some(Device(1)), 0, -ENODEV);
      && t.fds[3] == Entry(None, FCNTL_MASK) && r == Result(-1, Some(ENODEV))
      && u.fds[3] == FREE && u.fds != t.fds
  {
    var t := DoFcntl(Pristine(), 3, SetFlags(FCNTL_MASK)).0;
    assert t.fds[3] == Entry(None, FCNTL_MASK);
    FirstFreeIs(t.fds, 3);
    var u := Claim(t, 3, Device(1), 0);
    assert !HeldByOther(u, 3) by {
      assert forall k :: 0 <= k <= u.maxFd && k != 3 ==> u.fds[k].dev == Some(Device(0));
    }
    FreedAgain(t, 3, Device(1), 0);
  }

  // ---------------------------------------------------------------- the calls in place

  /** The table itself; a call returns its value together with the error number it stores. */
  class Descriptors {
    const list: array<Entry>
    var maxFd: int

    ghost function View(): Table
      reads this, list
    {
      Table(list[..], maxFd)
    }

    constructor ()
      ensures fresh(list) && View() == Pristine()
    {
      maxFd := -1;
      list := new Entry[ALT_MAX_FD](i => if 0 <= i <= 2 then Entry(Some(Device(0)), 0) else FREE);
      new;
      assert list[..] == Pristine().fds;
    }

    method Store(fd: nat, e: Entry)
      requires Sized(View()) && fd < ALT_MAX_FD
      modifies list
      ensures View() == SetEntry(old(View()), fd, e)
    {
      list[fd] := e;
    }

    /** Claims the first free descriptor; its flags are set by the caller. */
    method GetFd(dev: Node) returns (rc: int)
      requires Sized(View())
      modifies this, list
      ensures var i := FirstFree(old(View()).fds, 0);
        if i == ALT_MAX_FD then rc == -EMFILE && View() == old(View())
        else rc == i && View() == Table(old(View()).fds[i := old(View()).fds[i].(dev := Some(dev))], Max(i, old(maxFd)))
    {
      rc := -EMFILE;
      var i := 0;
      while i < ALT_MAX_FD
        invariant 0 <= i <= ALT_MAX_FD && View() == old(View()) && rc == -EMFILE
        invariant FirstFree(list[..], i) == FirstFree(list[..], 0)
      {
        if list[i].dev.None? {
          Store(i, list[i].(dev := Some(dev)));
          if i > maxFd {
            maxFd := i;
          }
          rc := i;
          return;
        }
        i := i + 1;
      }
    }

    method ReleaseFd(fd: int)
      requires Sized(View()) && fd < ALT_MAX_FD
      modifies list
      ensures View() == Release(old(View()), fd)
    {
      if fd > 2 {
        Store(fd, FREE);
      }
    }

    /** Marks the descriptor as a device's, and looks for one that holds the device. */
    method FileLocked(fd: nat) returns (rc: int)
      requires Sized(View()) && fd <= maxFd
      modifies list
      ensures var e := old(View()).fds[fd]; View() == SetEntry(old(View()), fd, e.(flags := e.flags | DEV))
      ensures rc == if HeldByOther(View(), fd) then -EACCES else 0
    {
      Store(fd, list[fd].(flags := list[fd].flags | DEV));
      hide Entry.Holds;
      ghost var u := View();
      var i := 0;
      while i <= maxFd
        invariant 0 <= i <= maxFd + 1 && View() == u
        invariant forall k :: 0 <= k < i && k != fd && list[k].dev == list[fd].dev ==> !list[k].Holds()
      {
        if list[i].dev == list[fd].dev && list[i].flags & EXCL != 0 && i != fd {
          assert View().fds[i].Holds() by { HoldsIf(list[i]); }
          return -EACCES;
        }
        HoldsIf(list[i]);
        i := i + 1;
      }
      return 0;
    }

    /** Sets up a claimed descriptor, and asks the driver unless the device is held. */
    method Admit(index: nat, dev: Node, flags: bv32, answer: int) returns (status: int)
      requires Sized(View()) && index <= maxFd && list[index].dev == Some(dev)
      modifies list
      ensures View() == SetEntry(old(View()), index, Entry(Some(dev), OpenFlags(dev, flags)))
      ensures status == if dev.Device? && HeldByOther(View(), index) then -EACCES else answer
    {
      hide HeldByOther, Entry.Holds;
      Store(index, list[index].(flags := flags & !FLAGS_MASK));
      status := 0;
      if dev.Device? {
        status := FileLocked(index);
      }
      if status >= 0 {
        status := answer;
      }
    }

    method OpenFile(target: Option<Node>, flags: bv32, answer: int) returns (r: Result)
      requires Shape(View())
      modifies this, list
      ensures (View(), r) == DoOpen(old(View()), target, flags, answer)
    {
      if target.None? {
        return Result(-1, Some(ENODEV));
      }
      FreeIsAboveTwo(View());
      assert Sized(View());
      hide HeldByOther, OpenFlags, Shape;
      var index := GetFd(target.value);
      if index < 0 {
        return Result(-1, Some(EMFILE));
      }
      var status := Admit(index, target.value, flags, answer);
      assert View() == Claim(old(View()), index, target.value, flags);
      if status < 0 {
        ReleaseFd(index);
        return Result(-1, Some(-status));
      }
      return Result(index, None);
    }

    method CloseFile(fd: int, answer: int) returns (r: Result)
      requires Legal(View(), Close(fd, answer))
      modifies list
      ensures (View(), r) == DoClose(old(View()), fd, answer)
    {
      if fd < 0 {
        return Result(-1, Some(EBADFD));
      }
      ReleaseFd(fd);
      r := if answer < 0 then Result(-1, Some(-answer)) else Result(0, None);
    }

    /** Grants the lock unless the scan below the high-water mark meets the device again. */
    method FdLock(fd: nat) returns (rc: int)
      requires Sized(View()) && fd < ALT_MAX_FD
      modifies list
      ensures (View(), rc) == Lock(old(View()), fd)
    {
      var i := 0;
      while i < maxFd
        invariant 0 <= i && (i <= maxFd || i == 0) && View() == old(View())
        invariant forall k :: 0 <= k < i && k != fd ==> list[k].dev != list[fd].dev
      {
        if i != fd && list[i].dev == list[fd].dev {
          assert OpenBelow(View(), fd);
          return -EACCES;
        }
        i := i + 1;
      }
      assert !OpenBelow(View(), fd);
      Store(fd, list[fd].(flags := list[fd].flags | EXCL));
      return 0;
    }

    method IoctlFile(fd: int, req: Request, driver: Option<int>) returns (r: Result)
      requires Legal(View(), Ioctl(fd, req, driver))
      modifies list
      ensures (View(), r) == DoIoctl(old(View()), fd, req, driver)
    {
      hide Lock;
      var rc: int;
      if fd >= 0 {
        if list[fd].flags & DEV != 0 && req == Exclusive {
          rc := FdLock(fd);
        } else if list[fd].flags & DEV != 0 && req == Shared {
          Store(fd, list[fd].(flags := list[fd].flags & !EXCL));
          rc := 0;
        } else if driver.Some? {
          rc := driver.value;
        } else {
          rc := -ENOTTY;
        }
      } else {
        rc := -EBADFD;
      }
      r := Result(rc, if rc < 0 then Some(-rc) else None);
    }

    method FcntlFile(fd: int, cmd: Command) returns (r: Result)
      requires Legal(View(), Fcntl(fd, cmd))
      modifies list
      ensures (View(), r) == DoFcntl(old(View()), fd, cmd)
    {
      hide UpdatedFlags;
      if fd < 0 {
        return Result(-1, Some(EBADFD));
      }
      match cmd {
        case GetFlags =>
          r := Flags(list[fd].flags & !FLAGS_MASK);
        case SetFlags(arg) =>
          var updated := Update(list[fd].flags, arg);
          Store(fd, list[fd].(flags := updated));
          r := Result(0, None);
        case Unknown =>
          r := Result(-1, Some(EINVAL));
      }
    }
  }

  /** The flag update of `F_SETFL` */
  method Update(flags: bv32, arg: bv32) returns (r: bv32)
    ensures r == UpdatedFlags(flags, arg)
  {
    r := flags & !FCNTL_MASK;
    r := r | (arg & FCNTL_MASK);
  }

  lemma HoldsIf(e: Entry)
    ensures e.Holds() <==> e.flags & EXCL != 0
  {
  }
}
