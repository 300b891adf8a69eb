/**
 What the calls on descriptors mean for their callers: what a lock keeps out, and what one call leaves
 for the next to read.
 */
module FdCalls {
  import opened Errno
  import opened FdTable
  import opened Wrappers

  /** No other descriptor below the high-water mark is open on the device of `fd`. */
  predicate NoneBelow(t: Table, fd: nat)
    requires Sized(t) && fd < ALT_MAX_FD
  {
    forall i :: 0 <= i < t.maxFd && i != fd ==> t.fds[i].dev != t.fds[fd].dev
  }

  /** Apart from `fd` the two tables agree. */
  predicate OthersSame(t: Table, u: Table, fd: nat) {
    && Sized(t) && Sized(u) && u.maxFd == t.maxFd
    && forall i :: 0 <= i < ALT_MAX_FD && i != fd ==> u.fds[i] == t.fds[i]
  }

  predicate DeviceFd(t: Table, fd: int) {
    Sized(t) && 0 <= fd < ALT_MAX_FD && t.fds[fd].dev.Some? && t.fds[fd].IsDev()
  }

  // ---------------------------------------------------------------- locking

  /** The request for exclusive access to a device that the descriptor does not hold: it is answered
      with 0 if and only if the descriptor holds the device afterwards, and if and only if no other one
      below the high-water mark is open on it; otherwise the answer is -EACCES and nothing changes. */
  lemma ExclusiveIff(t: Table, fd: nat, driver: Option<int>)
    requires DeviceFd(t, fd) && !t.fds[fd].Holds()
    ensures var (u, r) := Perform(t, Ioctl(fd, Exclusive, driver));
      && (r == Result(0, None) <==> HoldsDevice(u, fd, t.fds[fd].dev.value))
      && (r == Result(0, None) <==> NoneBelow(t, fd))
      && (r != Result(0, None) ==> r == Result(-EACCES, Some(EACCES)) && u == t)
      && OthersSame(t, u, fd) && u.fds[fd].dev == t.fds[fd].dev
  {
    FlagBits(t.fds[fd].flags, 0);
  }

  /** Once the request has been granted every open of the device fails, in every run of calls, until the
      descriptor unlocks it or, above 2, is closed. */
  lemma ExclusiveKeepsOut(t: Table, fd: nat, driver: Option<int>, calls: seq<Call>)
    requires Inv(t) && DeviceFd(t, fd) && Perform(t, Ioctl(fd, Exclusive, driver)).1 == Result(0, None)
    requires LegalRun(Perform(t, Ioctl(fd, Exclusive, driver)).0, calls)
    requires forall i :: 0 <= i < |calls| ==> !Ends(calls[i], fd)
    ensures AllRefused(Perform(t, Ioctl(fd, Exclusive, driver)).0, calls, t.fds[fd].dev.value)
  {
    var c := Ioctl(fd, Exclusive, driver);
    FlagBits(t.fds[fd].flags, 0);
    CallKeepsInv(t, c);
    assert HoldsDevice(Perform(t, c).0, fd, t.fds[fd].dev.value);
    hide Perform, Inv, HoldsDevice;
    HeldUntilReleased(Perform(t, c).0, calls, fd, t.fds[fd].dev.value);
  }

  /** Giving up exclusive access always succeeds; the other flags stay. */
  lemma SharedReleases(t: Table, fd: nat, driver: Option<int>)
    requires DeviceFd(t, fd)
    ensures var (u, r) := Perform(t, Ioctl(fd, Shared, driver));
      && r == Result(0, None) && !u.fds[fd].Holds() && u.fds[fd].dev == t.fds[fd].dev
      && u.fds[fd].flags == t.fds[fd].flags & 0x7FFF_FFFF && OthersSame(t, u, fd)
  {
    FlagBits(t.fds[fd].flags, 0);
  }

  /** Every other request, and every request of a file, is the driver's; it is -ENOTTY without one. No
      request of a negative descriptor reaches a driver, and no descriptor changes. */
  lemma OtherRequests(t: Table, fd: int, req: Request, driver: Option<int>)
    requires Legal(t, Ioctl(fd, req, driver)) && (DeviceFd(t, fd) ==> req == Other)
    ensures var (u, r) := Perform(t, Ioctl(fd, req, driver));
      var rc := if fd < 0 then -EBADFD else if driver.Some? then driver.value else -ENOTTY;
      u == t && r.Result? && r.value == rc && (if rc < 0 then r.errno == Some(-rc) else r.errno == None)
  {
  }

  // ---------------------------------------------------------------- flags

  /** What `F_GETFL` reads. */
  predicate Reads(t: Table, fd: nat, flags: bv32)
    requires Sized(t) && fd < ALT_MAX_FD
  {
    Perform(t, Fcntl(fd, GetFlags)) == (t, Flags(flags))
  }

  /** An `open` that fails returns -1 and says why: the first of an unknown name, a full table, a device
      that somebody holds, and the driver's own error. */
  lemma OpenErrors(t: Table, target: Option<Node>, flags: bv32, answer: int)
    requires Inv(t) && Perform(t, Open(target, flags, answer)).1.value < 0
    ensures var r := Perform(t, Open(target, flags, answer)).1;
      r == Result(-1, Some(
        if target.None? then ENODEV
        else if forall i :: 0 <= i < ALT_MAX_FD ==> t.fds[i].dev.Some? then EMFILE
        else if target.value.Device? && !Unheld(t, target.value) then EACCES
        else -answer))
  {
    FreeIsAboveTwo(t);
    hide HeldByOther, OpenFlags, Unheld, Entry.Holds, Entry.IsDev, Guarded, OneSharer, Clean;
    OpenOutcome(t, target, flags, answer);
    if target.Some? && FirstFree(t.fds, 0) < ALT_MAX_FD {
      ScanIsComplete(t, FirstFree(t.fds, 0), target.value, flags);
    }
  }

  /** After an `open` that succeeds the flags read are those asked for, without the two bits that the
      table keeps for itself; the descriptor is a device's exactly if the name is, and holds nothing. */
  lemma OpenedFlags(t: Table, target: Option<Node>, flags: bv32, answer: int)
    requires Inv(t) && Perform(t, Open(target, flags, answer)).1.value >= 0
    ensures var (u, r) := Perform(t, Open(target, flags, answer));
      && r.errno == None && target.Some? && 2 < r.value < ALT_MAX_FD && Sized(u)
      && u.fds[r.value].dev == target && t.fds[r.value].dev.None?
      && Reads(u, r.value, flags & 0x3FFF_FFFF)
      && (u.fds[r.value].IsDev() <==> target.value.Device?) && !u.fds[r.value].Holds()
      && (forall i :: 0 <= i < ALT_MAX_FD && i != r.value ==> u.fds[i] == t.fds[i])
  {
    assert Sized(t);
    hide Inv, Unheld, Entry.IsDev, Entry.Holds, OpenFlags, OpenUndone, HeldByOther, Reads;
    OpenOutcome(t, target, flags, answer);
    var (u, r) := Perform(t, Open(target, flags, answer));
    hide Perform, DoOpen;
    assert u.fds[r.value] == Entry(target, OpenFlags(target.value, flags));
    OpenedEntry(target.value, flags);
    ReadsOf(u, r.value, target.value, flags);
  }

  lemma OpenedEntry(dev: Node, flags: bv32)
    ensures var e := Entry(Some(dev), OpenFlags(dev, flags)); (e.IsDev() <==> dev.Device?) && !e.Holds()
  {
    OpenBits(dev, flags);
    IsHolds(OpenFlags(dev, flags), Some(dev));
    hide OpenFlags, Entry.IsDev, Entry.Holds;
  }

  lemma ReadsOf(u: Table, fd: nat, dev: Node, flags: bv32)
    requires Sized(u) && fd < ALT_MAX_FD && u.fds[fd].flags == OpenFlags(dev, flags)
    ensures Reads(u, fd, flags & 0x3FFF_FFFF)
  {
    ReadableFlags(dev, flags);
    hide OpenFlags;
  }

  lemma IsHolds(flags: bv32, dev: Option<Node>)
    ensures Entry(dev, flags).IsDev() <==> flags & DEV != 0
    ensures Entry(dev, flags).Holds() <==> flags & EXCL != 0
  {
  }

  lemma ReadableFlags(dev: Node, flags: bv32)
    ensures OpenFlags(dev, flags) & !FLAGS_MASK == flags & 0x3FFF_FFFF
  {
  }

  /** `F_SETFL` sets exactly the two flags that may be set: they then read as the argument has them, all
      others as before, and the lock does not change. */
  lemma FlagsReadBack(t: Table, fd: nat, was: bv32, arg: bv32)
    requires Sized(t) && fd < ALT_MAX_FD && Reads(t, fd, was)
    ensures var (u, r) := Perform(t, Fcntl(fd, SetFlags(arg)));
      && r == Result(0, None) && OthersSame(t, u, fd) && u.fds[fd].dev == t.fds[fd].dev
      && Reads(u, fd, (was & 0xFFFF_BFF7) | (arg & 0x4008))
      && (u.fds[fd].Holds() <==> t.fds[fd].Holds()) && (u.fds[fd].IsDev() <==> t.fds[fd].IsDev())
  {
    FlagBits(t.fds[fd].flags, arg);
    UpdateReads(t.fds[fd].flags, arg);
  }

  lemma UpdateReads(flags: bv32, arg: bv32)
    ensures UpdatedFlags(flags, arg) & !FLAGS_MASK == (flags & !FLAGS_MASK & 0xFFFF_BFF7) | (arg & 0x4008)
  {
  }

  /** Unknown commands and negative descriptors are refused, and change nothing. */
  lemma RefusedCommands(t: Table, fd: int, cmd: Command)
    requires Legal(t, Fcntl(fd, cmd)) && (fd < 0 || cmd == Unknown)
    ensures Perform(t, Fcntl(fd, cmd)) == (t, Result(-1, Some(if fd < 0 then EBADFD else EINVAL)))
  {
  }

  // ---------------------------------------------------------------- closing

  /** A descriptor above 2 is free after `close`, whatever the driver says; a standard stream stays as
      it was. The driver's error is reported. */
  lemma CloseFrees(t: Table, fd: nat, answer: int)
    requires Legal(t, Close(fd, answer))
    ensures var (u, r) := Perform(t, Close(fd, answer));
      && OthersSame(t, u, fd) && u.fds[fd] == (if fd > 2 then Entry(None, 0) else t.fds[fd])
      && r == (if answer < 0 then Result(-1, Some(-answer)) else Result(0, None))
      && (fd > 2 ==> FirstFree(u.fds, 0) <= fd)
  {
  }

  lemma CloseOfNothing(t: Table, fd: int, answer: int)
    requires Sized(t) && fd < 0
    ensures Perform(t, Close(fd, answer)) == (t, Result(-1, Some(EBADFD)))
  {
  }

  // ---------------------------------------------------------------- start-up

  /** Redirecting a standard stream moves what `open` has set up into its slot, and gives the descriptor
      back; it changes no descriptor in use if `open` fails. */
  lemma RedirectMoves(t: Table, slot: nat, target: Option<Node>, flags: bv32, answer: int)
    requires Inv(t) && slot <= 2
    ensures var u := Redirect(t, slot, target, flags, answer);
      && Sized(u)
      && (OpenGranted(t, target, answer) ==>
          && u.fds[slot].dev == target && Reads(u, slot, flags & 0x3FFF_FFFF)
          && u.fds[FirstFree(t.fds, 0)] == Entry(None, 0))
      && (!OpenGranted(t, target, answer) ==> u.fds[slot] == t.fds[slot])
      && (forall i :: 0 <= i < ALT_MAX_FD && i != slot && t.fds[i].dev.Some? ==> u.fds[i] == t.fds[i])
  {
    assert Sized(t) && t.fds[slot].dev.Some?;
    hide Inv, Unheld, OpenFlags, HeldByOther;
    OpenOutcome(t, target, flags, answer);
    if target.Some? {
      ReadableFlags(target.value, flags);
    }
    hide DoOpen;
  }
}
