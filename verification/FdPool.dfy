/** The file descriptor pool: alt_get_fd.c, alt_open.c, alt_close.c, alt_release_fd.c, alt_fd_lock.c, alt_fd_unlock.c. */
module FdPool {
  const ALT_MAX_FD: int := 32
  const ALT_FD_EXCL: bv32 := 0x80000000
  const ALT_FD_DEV: bv32 := 0x40000000
  const ALT_FD_FLAGS_MASK: bv32 := 0xC0000000

  const EACCES: int := 13
  const ENODEV: int := 19
  const EMFILE: int := 24
  const EBADFD: int := 81

  /** A slot of the pool; device 0 is the null pointer of a free slot. */
  datatype Fd = Fd(dev: nat, flags: bv32)

  predicate Exclusive(fd: Fd) { fd.flags & ALT_FD_EXCL != 0 }

  /** What the name of a file turns out to be, in the device list first, then among the file systems. */
  datatype Found = Device(dev: nat) | FileSystem(dev: nat) | Nothing

  /** Some descriptor holds the device for itself. */
  ghost predicate Locked(fds: seq<Fd>, dev: nat) {
    exists i :: 0 <= i < |fds| && fds[i].dev == dev && Exclusive(fds[i])
  }

  /** Some descriptor but this one does. */
  ghost predicate HeldElsewhere(fds: seq<Fd>, fd: nat, dev: nat) {
    exists i :: 0 <= i < |fds| && i != fd && fds[i].dev == dev && Exclusive(fds[i])
  }

  /** The lock is granted: no other descriptor of the device below the high-water mark. */
  ghost predicate Granted(fds: seq<Fd>, maxFd: int, fd: nat)
    requires fd < |fds| && maxFd <= |fds|
  {
    forall i :: 0 <= i < maxFd && i != fd ==> fds[i].dev != fds[fd].dev
  }

  ghost predicate SoleOwner(fds: seq<Fd>, fd: nat)
    requires fd < |fds|
  {
    forall i :: 0 <= i < |fds| && i != fd ==> fds[i].dev != fds[fd].dev
  }

  /** The high-water mark covers every allocated descriptor above the standard ones. */
  ghost predicate Covered(fds: seq<Fd>, maxFd: int) {
    && |fds| == ALT_MAX_FD && -1 <= maxFd < ALT_MAX_FD
    && forall i :: 2 < i < ALT_MAX_FD && fds[i].dev != 0 ==> i <= maxFd
  }

  /**
   * A granted lock means sole ownership exactly when the descriptors that the search leaves out, the one at
   * the high-water mark and standard ones above it, belong to other devices.
   */
  lemma SoleOwnerExactly(fds: seq<Fd>, maxFd: int, fd: nat)
    requires Covered(fds, maxFd) && fd < ALT_MAX_FD && fds[fd].dev != 0 && Granted(fds, maxFd, fd)
    ensures SoleOwner(fds, fd)
            <==> forall i :: 0 <= i < ALT_MAX_FD && maxFd <= i && (i == maxFd || i <= 2) && i != fd ==>
                   fds[i].dev != fds[fd].dev
  {
    if forall i :: 0 <= i < ALT_MAX_FD && maxFd <= i && (i == maxFd || i <= 2) && i != fd ==> fds[i].dev != fds[fd].dev {
      forall i | 0 <= i < |fds| && i != fd
        ensures fds[i].dev != fds[fd].dev
      {
        if i > 2 && i > maxFd {
          assert fds[i].dev == 0;
        }
      }
    }
  }

  /** With a descriptor above the standard ones allocated, only the one at the high-water mark is left out. */
  lemma SoleOwnerAtTheMark(fds: seq<Fd>, maxFd: int, fd: nat)
    requires Covered(fds, maxFd) && fd < ALT_MAX_FD && fds[fd].dev != 0 && Granted(fds, maxFd, fd) && maxFd > 2
    ensures SoleOwner(fds, fd) <==> maxFd == fd || fds[maxFd].dev != fds[fd].dev
  {
    SoleOwnerExactly(fds, maxFd, fd);
  }

  /** The first free slot, or the size of the pool. */
  function LeastFree(fds: seq<Fd>): (i: nat)
    ensures i <= |fds| && (i < |fds| ==> fds[i].dev == 0)
    ensures forall j :: 0 <= j < i ==> fds[j].dev != 0
  {
    if fds == [] || fds[0].dev == 0 then 0 else 1 + LeastFree(fds[1..])
  }

  lemma LeastFreeIs(fds: seq<Fd>, i: nat)
    requires i <= |fds| && (i < |fds| ==> fds[i].dev == 0) && forall j :: 0 <= j < i ==> fds[j].dev != 0
    ensures LeastFree(fds) == i
  {
    var k: nat := LeastFree(fds);
    assert k < |fds| ==> fds[k].dev == 0;
  }

  /** The high-water mark after slot i has been claimed; it is never lowered again. */
  function Raised(maxFd: int, i: nat): int {
    if maxFd < i < ALT_MAX_FD then i else maxFd
  }

  /** The flags of an opened descriptor: those asked for, but for the two the pool keeps to itself. */
  function OpenFlags(flags: bv32, device: bool): bv32 {
    (flags & !ALT_FD_FLAGS_MASK) | (if device then ALT_FD_DEV else 0)
  }

  function Claim(flags: bv32): bv32 { flags | ALT_FD_EXCL }

  function Yield(flags: bv32): bv32 { flags & !ALT_FD_EXCL }

  lemma OpenIsShared(flags: bv32, device: bool, dev: nat)
    ensures !Exclusive(Fd(dev, OpenFlags(flags, device)))
  {
  }

  lemma FlagBits(flags: bv32)
    ensures (flags | ALT_FD_EXCL) & ALT_FD_EXCL != 0
    ensures (flags & !ALT_FD_EXCL) & ALT_FD_EXCL == 0
    ensures 0 as bv32 & ALT_FD_EXCL == 0
  {
  }

  /** The pool as a value. */
  datatype Table = Table(fds: seq<Fd>, maxFd: int)

  class Pool {
    const fds: array<Fd>
    var maxFd: int

    /**
     * The standard descriptors are never free, a free slot has no flags, and the high-water mark covers
     * every allocated descriptor above the standard ones.
     */
    ghost predicate Valid()
      reads this, fds
    {
      && fds.Length == ALT_MAX_FD && -1 <= maxFd < ALT_MAX_FD
      && (forall i :: 0 <= i <= 2 ==> fds[i].dev != 0)
      && (forall i :: 0 <= i < ALT_MAX_FD && fds[i].dev == 0 ==> fds[i].flags == 0)
      && (forall i :: 2 < i < ALT_MAX_FD && fds[i].dev != 0 ==> i <= maxFd)
    }

    ghost function Now(): Table
      reads this, fds
    {
      Table(fds[..], maxFd)
    }

    constructor (console: nat)
      requires console != 0
      ensures Valid() && fresh(fds) && maxFd == -1
      ensures forall i :: 0 <= i < ALT_MAX_FD ==> fds[i] == Fd(if i <= 2 then console else 0, 0)
    {
      fds := new Fd[ALT_MAX_FD](i => Fd(if i <= 2 then console else 0, 0));
      maxFd := -1;
    }

    /** Claims the least free slot for the device. */
    method GetFd(dev: nat) returns (rc: int)
      requires Valid() && dev != 0
      modifies this`maxFd, fds
      ensures Valid()
      ensures var i := LeastFree(old(fds[..]));
              if i < ALT_MAX_FD then
                rc == i && fds[..] == old(fds[..])[i := Fd(dev, 0)]
              else rc == -EMFILE && fds[..] == old(fds[..])
      ensures maxFd == Raised(old(maxFd), LeastFree(old(fds[..])))
    {
      rc := -EMFILE;
      var i := 0;
      while i < ALT_MAX_FD
        invariant 0 <= i <= ALT_MAX_FD && rc == -EMFILE
        invariant fds[..] == old(fds[..]) && maxFd == old(maxFd)
        invariant forall j :: 0 <= j < i ==> fds[j].dev != 0
      {
        if fds[i].dev == 0 {
          LeastFreeIs(fds[..], i);
          fds[i] := fds[i].(dev := dev);
          if i > maxFd {
            maxFd := i;
          }
          rc := i;
          return;
        }
        i := i + 1;
      }
      LeastFreeIs(fds[..], i);
    }

    /** The standard descriptors are never given back. */
    method ReleaseFd(fd: int)
      requires Valid() && fd < ALT_MAX_FD
      modifies fds
      ensures Valid()
      ensures fds[..] == if fd > 2 then old(fds[..])[fd := Fd(0, 0)] else old(fds[..])
    {
      if fd > 2 {
        fds[fd] := Fd(0, 0);
      }
    }

    /** Marks the descriptor as a device's, and looks for another one that holds that device. */
    method FileLocked(fd: int) returns (rc: int)
      requires Valid() && 2 < fd <= maxFd && fds[fd].dev != 0
      modifies fds
      ensures Valid()
      ensures fds[..] == old(fds[..])[fd := old(fds[fd]).(flags := old(fds[fd]).flags | ALT_FD_DEV)]
      ensures rc == if HeldElsewhere(old(fds[..]), fd, old(fds[fd]).dev) then -EACCES else 0
    {
      ghost var was := fds[..];
      fds[fd] := fds[fd].(flags := fds[fd].flags | ALT_FD_DEV);
      NoFlags();
      var i := 0;
      while i <= maxFd
        invariant 0 <= i <= maxFd + 1
        invariant forall j :: 0 <= j < i && j != fd && was[j].dev == was[fd].dev ==> !Exclusive(was[j])
      {
        if fds[i].dev == fds[fd].dev && fds[i].flags & ALT_FD_EXCL != 0 && i != fd {
          assert was[i].dev == was[fd].dev && Exclusive(was[i]);
          return -EACCES;
        }
        i := i + 1;
      }
      rc := 0;
    }

    /** Sets up a claimed descriptor: its flags, the check for a device held elsewhere, the device's own open. */
    method Attach(fd: int, device: bool, flags: bv32, callback: int) returns (status: int)
      requires Valid() && 2 < fd <= maxFd && fds[fd].dev != 0
      modifies fds
      ensures Valid()
      ensures fds[..] == old(fds[..])[fd := Fd(old(fds[fd]).dev, OpenFlags(flags, device))]
      ensures status == if device && HeldElsewhere(old(fds[..]), fd, old(fds[fd]).dev) then -EACCES else callback
    {
      ghost var was := fds[..];
      FlagsInSteps(flags);
      fds[fd] := fds[fd].(flags := flags & !ALT_FD_FLAGS_MASK);
      status := 0;
      if device {
        OthersSame(was, fds[..], fd, was[fd].dev);
        status := FileLocked(fd);
      }
      if status >= 0 {
        status := callback;
      }
    }

    /**
     * Opens by name; `callback` is the answer of the device's own open function, if it has one. A device that
     * some descriptor holds for itself cannot be opened; an open that fails leaves the pool as it was.
     */
    method Open(found: Found, flags: bv32, callback: int) returns (rc: int, status: int)
      requires Valid() && (found.Nothing? || found.dev != 0)
      modifies this`maxFd, fds
      ensures Valid()
      ensures maxFd == if found.Nothing? then old(maxFd) else Raised(old(maxFd), LeastFree(old(fds[..])))
      ensures var i, was := LeastFree(old(fds[..])), old(fds[..]);
              if found.Nothing? then rc == -1 && status == -ENODEV && fds[..] == was
              else if i == ALT_MAX_FD then rc == -1 && status == -EMFILE && fds[..] == was
              else if found.Device? && Locked(was, found.dev) then rc == -1 && status == -EACCES && fds[..] == was
              else if callback < 0 then rc == -1 && status == callback && fds[..] == was
              else rc == i && fds[..] == was[i := Fd(found.dev, OpenFlags(flags, found.Device?))]
    {
      hide Locked, HeldElsewhere, OpenFlags;
      rc, status := -1, -ENODEV;
      ghost var was := fds[..];
      if !found.Nothing? {
        rc := GetFd(found.dev);
        if rc < 0 {
          status := rc;
        } else {
          LockedElsewhere(was, fds[..], rc, found.dev);
          status := Attach(rc, found.Device?, flags, callback);
        }
      }
      if status < 0 {
        ReleaseFd(rc);
        rc := -1;
        assert fds[..] == was;
      }
    }

    /** Releases the descriptor, whatever the device's own close function answers. */
    method Close(fildes: int, callback: int) returns (rc: int, status: int)
      requires Valid() && fildes < ALT_MAX_FD && (fildes >= 0 ==> fds[fildes].dev != 0)
      modifies fds
      ensures Valid()
      ensures fds[..] == if fildes > 2 then old(fds[..])[fildes := Fd(0, 0)] else old(fds[..])
      ensures if fildes < 0 then rc == -1 && status == -EBADFD
              else status == callback && rc == if callback < 0 then -1 else 0
    {
      if fildes >= 0 {
        status := callback;
        ReleaseFd(fildes);
        rc := if status < 0 then -1 else 0;
      } else {
        rc, status := -1, -EBADFD;
      }
    }

    /** Grants the lock unless it sees another descriptor of the device; it looks below the high-water mark only. */
    method Lock(fd: int) returns (rc: int)
      requires Valid() && 0 <= fd < ALT_MAX_FD && fds[fd].dev != 0
      modifies fds
      ensures Valid()
      ensures rc == if Granted(old(fds[..]), maxFd, fd) then 0 else -EACCES
      ensures if rc == 0 then fds[..] == old(fds[..])[fd := old(fds[fd]).(flags := Claim(old(fds[fd]).flags))]
              else fds[..] == old(fds[..])
      ensures rc == 0 ==> Locked(fds[..], fds[fd].dev)
    {
      hide Locked, Exclusive;
      ghost var was := fds[..];
      rc := 0;
      var i := 0;
      while i < maxFd
        invariant 0 <= i < ALT_MAX_FD && rc == 0 && fds[..] == was
        invariant forall j :: 0 <= j < i && j != fd ==> was[j].dev != was[fd].dev
      {
        if i != fd && fds[i].dev == fds[fd].dev {
          assert was[i].dev == was[fd].dev;
          return -EACCES;
        }
        i := i + 1;
      }
      assert Granted(was, maxFd, fd);
      fds[fd] := fds[fd].(flags := fds[fd].flags | ALT_FD_EXCL);
      NowLocked(fds[..], fd, was[fd].flags);
    }

    method Unlock(fd: int) returns (rc: int)
      requires Valid() && 0 <= fd < ALT_MAX_FD && fds[fd].dev != 0
      modifies fds
      ensures Valid() && rc == 0
      ensures fds[..] == old(fds[..])[fd := old(fds[fd]).(flags := Yield(old(fds[fd]).flags))]
      ensures !Exclusive(fds[fd])
    {
      FlagBits(fds[fd].flags);
      fds[fd] := fds[fd].(flags := fds[fd].flags & !ALT_FD_EXCL);
      rc := 0;
    }
  }

  lemma NoFlags()
    ensures 0 as bv32 & ALT_FD_EXCL == 0
  {
  }

  lemma NowLocked(fds: seq<Fd>, fd: nat, flags: bv32)
    requires fd < |fds| && fds[fd].flags == Claim(flags)
    ensures Locked(fds, fds[fd].dev)
  {
    FlagBits(flags);
    assert Exclusive(fds[fd]);
  }

  lemma FlagsInSteps(flags: bv32)
    ensures OpenFlags(flags, true) == (flags & !ALT_FD_FLAGS_MASK) | ALT_FD_DEV
    ensures OpenFlags(flags, false) == flags & !ALT_FD_FLAGS_MASK
  {
  }

  lemma OthersSame(a: seq<Fd>, b: seq<Fd>, fd: nat, dev: nat)
    requires |a| == |b| && forall i :: 0 <= i < |a| && i != fd ==> a[i] == b[i]
    ensures HeldElsewhere(a, fd, dev) == HeldElsewhere(b, fd, dev)
  {
  }

  /** The slot just claimed holds nothing, so whoever holds the device held it before. */
  lemma LockedElsewhere(was: seq<Fd>, now: seq<Fd>, fd: nat, dev: nat)
    requires fd < |was| && was[fd].dev == 0 && dev != 0 && now == was[fd := Fd(dev, 0)]
    ensures Locked(was, dev) <==> HeldElsewhere(now, fd, dev)
  {
    if Locked(was, dev) {
      var i :| 0 <= i < |was| && was[i].dev == dev && Exclusive(was[i]);
      assert now[i] == was[i] && i != fd;
    }
    if HeldElsewhere(now, fd, dev) {
      var i :| 0 <= i < |now| && i != fd && now[i].dev == dev && Exclusive(now[i]);
      assert was[i] == now[i];
    }
  }

  // ----- runs -----

  datatype Op =
    | Opening(found: Found, flags: bv32, callback: int)
    | Closing(fd: int, callback: int)
    | Locking(fd: int)
    | Unlocking(fd: int)

  /** The caller may do this: a close, lock or unlock names an allocated descriptor. */
  predicate Proper(op: Op, fds: seq<Fd>) {
    match op
    case Opening(found, _, _) => found.Nothing? || found.dev != 0
    case Closing(fd, _) => fd < |fds| && (fd >= 0 ==> fds[fd].dev != 0)
    case Locking(fd) => 0 <= fd < |fds| && fds[fd].dev != 0
    case Unlocking(fd) => 0 <= fd < |fds| && fds[fd].dev != 0
  }

  /** This gives up the hold of the descriptor. */
  predicate LetsGo(op: Op, holder: nat) {
    (op.Closing? || op.Unlocking?) && op.fd == holder
  }

  /** Someone holds the device of this descriptor. */
  ghost predicate Holds(fds: seq<Fd>, holder: nat, dev: nat) {
    holder < |fds| && fds[holder].dev == dev && dev != 0 && Exclusive(fds[holder])
  }

  ghost predicate Shaped(t: Table) {
    |t.fds| == ALT_MAX_FD && -1 <= t.maxFd < ALT_MAX_FD
  }

  /** The open succeeds: there is a free slot, nobody holds the device, and the device agrees. */
  ghost predicate Opens(t: Table, found: Found, callback: int) {
    && !found.Nothing? && LeastFree(t.fds) < |t.fds|
    && !(found.Device? && Locked(t.fds, found.dev)) && callback >= 0
  }

  /** The pool after one operation; one the caller may not do is left out. */
  ghost function Then(t: Table, op: Op): (r: Table)
    requires Shaped(t)
    ensures Shaped(r)
  {
    if !Proper(op, t.fds) then
      t
    else
      match op
      case Opening(found, flags, callback) =>
        var i := LeastFree(t.fds);
        var slots := if Opens(t, found, callback) then t.fds[i := Fd(found.dev, OpenFlags(flags, found.Device?))] else t.fds;
        Table(slots, if found.Nothing? then t.maxFd else Raised(t.maxFd, i))
      case Closing(fd, _) =>
        if fd > 2 then t.(fds := t.fds[fd := Fd(0, 0)]) else t
      case Locking(fd) =>
        if Granted(t.fds, t.maxFd, fd) then t.(fds := t.fds[fd := t.fds[fd].(flags := Claim(t.fds[fd].flags))]) else t
      case Unlocking(fd) =>
        t.(fds := t.fds[fd := t.fds[fd].(flags := Yield(t.fds[fd].flags))])
  }

  /** What the operation answers. */
  ghost function Answer(t: Table, op: Op): int
    requires Shaped(t)
  {
    if !Proper(op, t.fds) then
      -1
    else
      match op
      case Opening(found, _, callback) => if Opens(t, found, callback) then LeastFree(t.fds) else -1
      case Closing(fd, callback) => if fd < 0 || callback < 0 then -1 else 0
      case Locking(fd) => if Granted(t.fds, t.maxFd, fd) then 0 else -EACCES
      case Unlocking(_) => 0
  }

  ghost function After(t: Table, ops: seq<Op>): (r: Table)
    requires Shaped(t)
    ensures Shaped(r)
    decreases |ops|
  {
    if ops == [] then t else Then(After(t, ops[..|ops| - 1]), ops[|ops| - 1])
  }

  lemma OneMore(t: Table, ops: seq<Op>, op: Op)
    requires Shaped(t)
    ensures After(t, ops + [op]) == Then(After(t, ops), op)
  {
    assert (ops + [op])[..|ops|] == ops;
  }

  /** The flags in numbers: an open keeps the caller's thirty low bits and marks a device by bit 30... */
  lemma OpenedFlags(t: Table, found: Found, flags: bv32, callback: int)
    requires Shaped(t) && !found.Nothing? && found.dev != 0 && Opens(t, found, callback)
    ensures var fd := Then(t, Opening(found, flags, callback)).fds[LeastFree(t.fds)];
            && fd.dev == found.dev && fd.flags & 0x3FFFFFFF == flags & 0x3FFFFFFF
            && fd.flags & 0x80000000 == 0 && (fd.flags & 0x40000000 != 0 <==> found.Device?)
  {
    hide OpenFlags, Locked;
    OpenMask(flags, found.Device?);
  }

  /** The low thirty-one bits are as they were, and bit 31 tells whether the device is held. */
  predicate Marked(now: bv32, was: bv32, held: bool) {
    now & 0x7FFFFFFF == was & 0x7FFFFFFF && (now & 0x80000000 != 0 <==> held)
  }

  /** ... a lock sets bit 31, an unlock clears it, and a lock refused answers -13. */
  lemma LockFlags(t: Table, fd: nat)
    requires Shaped(t) && fd < ALT_MAX_FD && t.fds[fd].dev != 0
    ensures Answer(t, Locking(fd)) == if Granted(t.fds, t.maxFd, fd) then 0 else -13
    ensures Granted(t.fds, t.maxFd, fd) ==> Marked(Then(t, Locking(fd)).fds[fd].flags, t.fds[fd].flags, true)
    ensures Marked(Then(t, Unlocking(fd)).fds[fd].flags, t.fds[fd].flags, false)
  {
    hide Granted, Claim, Yield, Marked;
    HolderMask(t.fds[fd].flags);
  }

  lemma OpenMask(flags: bv32, device: bool)
    ensures OpenFlags(flags, device) & 0x3FFFFFFF == flags & 0x3FFFFFFF
    ensures OpenFlags(flags, device) & 0x80000000 == 0 && (OpenFlags(flags, device) & 0x40000000 != 0 <==> device)
  {
  }

  lemma HolderMask(flags: bv32)
    ensures Marked(Claim(flags), flags, true) && Marked(Yield(flags), flags, false)
  {
  }

  // ----- who holds a device, over a run -----

  lemma OpenKeepsHolder(t: Table, op: Op, holder: nat, dev: nat)
    requires Shaped(t) && Holds(t.fds, holder, dev) && op.Opening?
    ensures Holds(Then(t, op).fds, holder, dev)
    ensures op.found == Device(dev) ==> Answer(t, op) == -1
  {
    hide Exclusive, OpenFlags, Locked;
    HolderLocks(t.fds, holder);
  }

  lemma LockKeepsHolder(t: Table, op: Op, holder: nat, dev: nat)
    requires Shaped(t) && Holds(t.fds, holder, dev) && op.Locking?
    ensures Holds(Then(t, op).fds, holder, dev)
  {
    hide Exclusive, Granted, Claim;
    if Proper(op, t.fds) {
      StillExclusive(Then(t, op).fds[holder], t.fds[holder]);
    }
  }

  lemma StepKeepsHolder(t: Table, op: Op, holder: nat, dev: nat)
    requires Shaped(t) && Holds(t.fds, holder, dev) && !LetsGo(op, holder)
    ensures Holds(Then(t, op).fds, holder, dev)
    ensures op.Opening? && op.found == Device(dev) ==> Answer(t, op) == -1
  {
    hide Exclusive, Opens, Granted, Claim, Yield;
    match op
    case Opening(_, _, _) => OpenKeepsHolder(t, op, holder, dev);
    case Locking(_) => LockKeepsHolder(t, op, holder, dev);
    case Closing(_, _) =>
    case Unlocking(_) =>
  }

  /**
   * In any run in which the holder of a device neither closes nor unlocks, it keeps the device, and no open of
   * the device succeeds.
   */
  lemma {:induction false} HolderKeeps(t: Table, ops: seq<Op>, holder: nat, dev: nat)
    requires Shaped(t) && Holds(t.fds, holder, dev) && forall k :: 0 <= k < |ops| ==> !LetsGo(ops[k], holder)
    ensures Holds(After(t, ops).fds, holder, dev)
    ensures forall k :: 0 <= k < |ops| && ops[k].Opening? && ops[k].found == Device(dev) ==>
              Answer(After(t, ops[..k]), ops[k]) == -1
    decreases |ops|
  {
    hide Then, Answer, Holds, LetsGo;
    if ops != [] {
      var n := |ops| - 1;
      HolderKeeps(t, ops[..n], holder, dev);
      StepKeepsHolder(After(t, ops[..n]), ops[n], holder, dev);
      forall k | 0 <= k < n
        ensures ops[..n][..k] == ops[..k] && ops[..n][k] == ops[k]
      {
      }
    }
  }

  lemma HolderLocks(fds: seq<Fd>, holder: nat)
    requires holder < |fds| && Exclusive(fds[holder])
    ensures Locked(fds, fds[holder].dev)
  {
  }

  method Do(pool: Pool, op: Op) returns (r: int)
    requires pool.Valid()
    modifies pool`maxFd, pool.fds
    ensures pool.Valid() && pool.Now() == Then(old(pool.Now()), op) && r == Answer(old(pool.Now()), op)
  {
    hide Exclusive, Locked, OpenFlags, Claim, Yield, LeastFree;
    r := -1;
    if Proper(op, pool.fds[..]) {
      var status;
      match op {
        case Opening(found, flags, callback) =>
          r, status := pool.Open(found, flags, callback);
        case Closing(fd, callback) =>
          r, status := pool.Close(fd, callback);
        case Locking(fd) =>
          r := pool.Lock(fd);
        case Unlocking(fd) =>
          r := pool.Unlock(fd);
      }
    }
  }

  /** Any run of operations: the pool and the answers are those of the operations one after the other. */
  method Run(pool: Pool, ops: seq<Op>, ghost holder: nat) returns (results: seq<int>)
    requires pool.Valid() && holder < ALT_MAX_FD
    modifies pool`maxFd, pool.fds
    ensures pool.Valid() && pool.Now() == After(old(pool.Now()), ops) && |results| == |ops|
    ensures forall k :: 0 <= k < |ops| ==> results[k] == Answer(After(old(pool.Now()), ops[..k]), ops[k])
    ensures var dev := old(pool.fds[holder]).dev;
            Holds(old(pool.fds[..]), holder, dev) && (forall k :: 0 <= k < |ops| ==> !LetsGo(ops[k], holder)) ==>
              && Holds(pool.fds[..], holder, dev)
              && forall k :: 0 <= k < |ops| && ops[k].Opening? && ops[k].found == Device(dev) ==> results[k] == -1
  {
    hide Exclusive, LetsGo, Holds, Then, Answer;
    ghost var was := pool.Now();
    results := [];
    for k := 0 to |ops|
      invariant pool.Valid() && |results| == k && pool.Now() == After(was, ops[..k])
      invariant forall j :: 0 <= j < k ==> results[j] == Answer(After(was, ops[..j]), ops[j])
    {
      assert ops[..k + 1] == ops[..k] + [ops[k]];
      OneMore(was, ops[..k], ops[k]);
      var r := Do(pool, ops[k]);
      results := results + [r];
    }
    assert ops[..|ops|] == ops;
    ghost var dev := was.fds[holder].dev;
    if Holds(was.fds, holder, dev) && forall k :: 0 <= k < |ops| ==> !LetsGo(ops[k], holder) {
      HolderKeeps(was, ops, holder, dev);
    }
  }

  lemma NobodyHolds(fds: seq<Fd>, dev: nat)
    requires forall i :: 0 <= i < |fds| && fds[i].dev == dev ==> !Exclusive(fds[i])
    ensures !Locked(fds, dev)
  {
  }

  /**
   * The documentation's promise of sole ownership fails: a device other than the console's is opened twice, and
   * the first descriptor is granted the lock.
   */
  method GrantedButShared(console: nat, dev: nat, flags: bv32) returns (pool: Pool, first: int, second: int, rc: int)
    requires console != 0 && dev != 0 && dev != console
    ensures pool.Valid() && 0 <= first < second < ALT_MAX_FD
    ensures pool.fds[first].dev == pool.fds[second].dev == dev
    ensures rc == 0 && Exclusive(pool.fds[first]) && !SoleOwner(pool.fds[..], first)
  {
    hide OpenFlags, Exclusive, Claim, LeastFree;
    pool := new Pool(console);
    NoFlags();
    NobodyHolds(pool.fds[..], dev);
    LeastFreeIs(pool.fds[..], 3);
    var status;
    first, status := pool.Open(Device(dev), flags, 0);
    OpenIsShared(flags, true, dev);
    NobodyHolds(pool.fds[..], dev);
    LeastFreeIs(pool.fds[..], 4);
    second, status := pool.Open(Device(dev), flags, 0);
    assert pool.fds[..][4].dev == pool.fds[..][3].dev;
    rc := pool.Lock(first);
    FlagBits(OpenFlags(flags, true));
  }

  lemma StillExclusive(now: Fd, was: Fd)
    requires Exclusive(was) && (now == was || now.flags == Claim(was.flags))
    ensures Exclusive(now)
  {
    FlagBits(was.flags);
  }
}
