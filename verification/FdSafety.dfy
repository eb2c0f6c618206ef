/** What every run of the file descriptor calls keeps, and what a lock is worth. */
module FdSafety {
  import opened Errno
  import opened FdTable

  // ---------------------------------------------------------------- runs

  datatype Event =
    | OpenCall(dev: Handle, flags: bv32, driver: Driver)
    | CloseCall(fd: int, driver: Driver)
    | IoctlCall(fd: int, req: int, driver: Driver)
    | FcntlCall(fd: int, cmd: int, arg: bv32)
    | RedirectCall(slot: nat, dev: Handle, flags: bv32, driver: Driver)

  /** A descriptor the caller may name: one in use, or a negative number, which the calls
      take for the result of a failed open. */
  predicate MayName(t: Table, fd: int) {
    fd < |t.fds| && (0 <= fd ==> t.fds[fd].dev != Null)
  }

  predicate Enabled(t: Table, e: Event) {
    match e
    case OpenCall(_, _, _) => true
    case CloseCall(fd, _) => MayName(t, fd)
    case IoctlCall(fd, _, _) => MayName(t, fd)
    case FcntlCall(fd, _, _) => MayName(t, fd)
    case RedirectCall(slot, _, _, _) => slot <= 2
  }

  function Step(t: Table, e: Event): Table
    requires InTable(t) && Enabled(t, e)
  {
    match e
    case OpenCall(dev, flags, driver) => Open(t, dev, flags, driver).0
    case CloseCall(fd, driver) => Close(t, fd, driver).0
    case IoctlCall(fd, req, driver) => Ioctl(t, fd, req, driver).0
    case FcntlCall(fd, cmd, arg) => Fcntl(t, fd, cmd, arg).0
    case RedirectCall(slot, dev, flags, driver) => OpenFd(t, slot, dev, flags, driver)
  }

  /** `t` comes to `u` by some run of calls. */
  ghost predicate Reaches(t: Table, run: seq<Event>, u: Table)
    decreases |run|
  {
    if run == [] then t == u
    else InTable(t) && Enabled(t, run[0]) && Reaches(Step(t, run[0]), run[1..], u)
  }

  lemma {:induction false} Append(t: Table, run: seq<Event>, u: Table, e: Event)
    requires Reaches(t, run, u) && InTable(u) && Enabled(u, e)
    ensures Reaches(t, run + [e], Step(u, e))
    decreases |run|
  {
    if run != [] {
      Append(Step(t, run[0]), run[1..], u, e);
      assert (run + [e])[1..] == run[1..] + [e];
    }
  }

  // ---------------------------------------------------------------- the invariant

  predicate HasOther(t: Table, i: nat, j: nat)
    requires i < |t.fds| && j < |t.fds|
  {
    i != j && t.fds[j].dev == t.fds[i].dev
  }

  /** The descriptors that share the device of a locked one all come after it: this is
      what makes the short scan of `alt_fd_lock` good enough. */
  ghost predicate LockOrder(t: Table) {
    forall i, j :: 0 <= i < |t.fds| && 0 <= j < |t.fds| && Locked(t.fds[i]) && HasOther(t, i, j) ==> i < j
  }

  ghost predicate Sane(t: Table, i: nat)
    requires i < |t.fds|
  {
    var fd := t.fds[i];
    && (i <= 2 ==> fd.dev != Null)
    && (2 < i && fd.dev != Null ==> i <= t.maxFd)
    && (fd.dev == Null ==> fd.flags == 0)
    && (Locked(fd) ==> OfDevice(fd))
    && (OfDevice(fd) ==> fd.dev.Device? && 2 < t.maxFd)
    && (2 < i && fd.dev.Device? ==> OfDevice(fd))
  }

  ghost predicate Inv(t: Table) {
    InTable(t) && (forall i :: 0 <= i < MAX_FD ==> Sane(t, i)) && LockOrder(t) && (t.maxFd == -1 || 2 < t.maxFd)
  }

  lemma InitialInv()
    ensures Inv(Initial())
  {
  }

  lemma NoBits()
    ensures !ExclBit(0) && !DevBit(0)
  {
  }

  /** The lock and device bits of the flag words that `open` computes. */
  lemma OpenBits(f: bv32)
    ensures !ExclBit(Visible(f)) && !DevBit(Visible(f))
    ensures ExclBit(WithDev(f)) == ExclBit(f) && DevBit(WithDev(f))
  {
  }

  /** The lock and device bits when the lock is taken and given back. */
  lemma LockBits(f: bv32)
    ensures DevBit(WithExcl(f)) == DevBit(f) && ExclBit(WithExcl(f))
    ensures DevBit(WithoutExcl(f)) == DevBit(f) && !ExclBit(WithoutExcl(f))
  {
  }

  lemma FcntlBits(f: bv32, arg: bv32)
    ensures ExclBit(Updated(f, arg)) == ExclBit(f) && DevBit(Updated(f, arg)) == DevBit(f)
  {
  }

  // ---------------------------------------------------------------- open

  /** The device is locked through some descriptor of the whole table. */
  ghost predicate DeviceLocked(t: Table, dev: Handle) {
    exists j :: 0 <= j < |t.fds| && t.fds[j].dev == dev && Locked(t.fds[j])
  }

  function Raised(t: Table, i: int): Table {
    t.(maxFd := if t.maxFd < i then i else t.maxFd)
  }

  function Opened(dev: Handle, flags: bv32): Fd {
    Fd(dev, if dev.FileSystem? then Visible(flags) else WithDev(Visible(flags)))
  }

  /** What `open` makes of the free descriptor `i` of a table. */
  lemma OpenAtOutcome(t: Table, i: nat, dev: Handle, flags: bv32, driver: Driver)
    requires Inv(t) && dev != Null && i < MAX_FD && t.fds[i].dev == Null
    ensures OpenAt(GetAt(t, i, dev), i, flags, driver) ==
            (Raised(t, i).(fds := t.fds[i := Opened(dev, flags)]),
             if dev.Device? && DeviceLocked(t, dev) then -EACCES else Callback(driver, 0))
  {
    hide ExclBit, DevBit, Visible, WithDev, WithExcl, WithoutExcl, Updated;
    OpenBits(flags);
    OpenBits(Visible(flags));
    assert Sane(t, i);
    var u := OpenAt(GetAt(t, i, dev), i, flags, driver).0;
    assert u.fds == t.fds[i := Opened(dev, flags)];
    if dev.Device? {
      assert forall j :: 0 <= j < MAX_FD && j != i ==> u.fds[j] == t.fds[j] && Sane(t, j);
      assert LockedByOther(u, i) <==> DeviceLocked(t, dev);
    }
  }

  lemma FirstFree(fds: seq<Fd>, i: nat)
    requires i < |fds| && fds[i].dev == Null && forall j :: 0 <= j < i ==> fds[j].dev != Null
    ensures LeastFree(fds, 0) == i
  {
  }

  /** The outcome of every `open`. */
  lemma OpenOutcome(t: Table, dev: Handle, flags: bv32, driver: Driver)
    requires Inv(t)
    ensures var i := LeastFree(t.fds, 0);
            var rc := Callback(driver, 0);
            Open(t, dev, flags, driver) ==
            if dev == Null then (t, Reply(-1, ENODEV))
            else if i == MAX_FD then (t, Reply(-1, EMFILE))
            else if dev.Device? && DeviceLocked(t, dev) then (Raised(t, i), Reply(-1, EACCES))
            else if rc < 0 then (Raised(t, i), Reply(-1, -rc))
            else (Raised(t, i).(fds := t.fds[i := Opened(dev, flags)]), Reply(i, 0))
  {
    var i := LeastFree(t.fds, 0);
    if dev != Null && i < MAX_FD {
      hide ExclBit, DevBit, Visible, WithDev, OpenAt;
      assert Sane(t, i) && t.fds[i] == FREE;
      assert t.fds[i := Opened(dev, flags)][i := FREE] == t.fds;
      OpenAtOutcome(t, i, dev, flags, driver);
    }
  }

  /** A failed `open` leaves every descriptor as it was. */
  lemma FailedOpenFrames(t: Table, dev: Handle, flags: bv32, driver: Driver)
    requires Inv(t) && Open(t, dev, flags, driver).1.value < 0
    ensures Open(t, dev, flags, driver).0.fds == t.fds
    ensures t.maxFd <= Open(t, dev, flags, driver).0.maxFd
  {
    OpenOutcome(t, dev, flags, driver);
  }

  /** While a device is locked, no `open` of it succeeds. */
  lemma LockedDeviceStaysShut(t: Table, h: nat, flags: bv32, driver: Driver)
    requires Inv(t) && h < MAX_FD && Locked(t.fds[h])
    ensures Open(t, t.fds[h].dev, flags, driver).0.fds == t.fds
    ensures Open(t, t.fds[h].dev, flags, driver).1 in {Reply(-1, EACCES), Reply(-1, EMFILE)}
  {
    assert Sane(t, h) && DeviceLocked(t, t.fds[h].dev);
    OpenOutcome(t, t.fds[h].dev, flags, driver);
  }

  /** A successful `open` gets the least free descriptor, never one of the reserved ones. */
  lemma OpenGetsLeast(t: Table, dev: Handle, flags: bv32, driver: Driver)
    requires Inv(t) && 0 <= Open(t, dev, flags, driver).1.value
    ensures var i := Open(t, dev, flags, driver).1.value;
            && 2 < i < MAX_FD && t.fds[i] == FREE
            && forall j :: 0 <= j < i ==> t.fds[j].dev != Null
  {
    OpenOutcome(t, dev, flags, driver);
    var i := LeastFree(t.fds, 0);
    assert i < MAX_FD ==> Sane(t, i);
  }

  /** The outcome of every redirection: the slot refers to the new device or to what it
      did before, and no other descriptor changes. */
  lemma OpenFdOutcome(t: Table, slot: nat, dev: Handle, flags: bv32, driver: Driver)
    requires Inv(t) && slot <= 2
    ensures var (u, reply) := Open(t, dev, flags, driver);
            OpenFd(t, slot, dev, flags, driver) ==
            u.(fds := if reply.value < 0 then t.fds else t.fds[slot := Opened(dev, flags)])
  {
    OpenOutcome(t, dev, flags, driver);
    var (u, reply) := Open(t, dev, flags, driver);
    var i := reply.value;
    if 0 <= i {
      OpenGetsLeast(t, dev, flags, driver);
      var moved := u.fds[slot := u.fds[i]];
      assert moved[i := FREE] == t.fds[slot := Opened(dev, flags)];
    }
  }

  // ---------------------------------------------------------------- redirection

  /** The device can be opened, when the descriptors in `slots` have been redirected. */
  ghost predicate CanOpen(t: Table, slots: set<nat>, dev: Handle, driver: Driver) {
    && dev != Null && LeastFree(t.fds, 0) < |t.fds| && 0 <= Callback(driver, 0)
    && (dev.Device? ==>
          !exists j: nat :: j < |t.fds| && j !in slots && t.fds[j].dev == dev && Locked(t.fds[j]))
  }

  /** `u` is `t` with `slots` redirected. */
  ghost predicate Differs(t: Table, u: Table, slots: set<nat>) {
    && InTable(t) && InTable(u)
    && forall j: nat :: j < MAX_FD ==>
         if j in slots then t.fds[j].dev != Null && u.fds[j].dev != Null && !Locked(u.fds[j])
         else u.fds[j] == t.fds[j]
  }

  ghost function Freed(t: Table, slots: set<nat>, slot: nat, dev: Handle, driver: Driver): set<nat> {
    if CanOpen(t, slots, dev, driver) then slots + {slot} else slots
  }

  lemma SameChance(t: Table, u: Table, slots: set<nat>, dev: Handle, driver: Driver)
    requires Differs(t, u, slots)
    ensures LeastFree(u.fds, 0) == LeastFree(t.fds, 0)
    ensures CanOpen(u, {}, dev, driver) <==> CanOpen(t, slots, dev, driver)
  {
    hide ExclBit, DevBit;
    var i := LeastFree(t.fds, 0);
    if i < MAX_FD {
      FirstFree(u.fds, i);
    }
    assert forall j: nat :: j < MAX_FD && j !in slots ==> u.fds[j] == t.fds[j];
  }

  /** One redirection: the slot has the new device if and only if it can be opened. */
  lemma RedirectOne(t: Table, u: Table, slots: set<nat>, slot: nat, dev: Handle, flags: bv32, driver: Driver)
    requires Inv(u) && Differs(t, u, slots) && slot <= 2 && t.fds[slot].dev != Null
    ensures var v := OpenFd(u, slot, dev, flags, driver);
            && v.fds == (if CanOpen(t, slots, dev, driver) then u.fds[slot := Opened(dev, flags)] else u.fds)
            && v.maxFd == (if dev != Null && LeastFree(t.fds, 0) < MAX_FD then Raised(u, LeastFree(t.fds, 0)).maxFd
                           else u.maxFd)
            && Inv(v) && Differs(t, v, Freed(t, slots, slot, dev, driver))
  {
    hide ExclBit, DevBit, Visible, WithDev, OpenFd, Open;
    OpenBits(flags);
    OpenBits(Visible(flags));
    SameChance(t, u, slots, dev, driver);
    OpenFdOutcome(u, slot, dev, flags, driver);
    OpenOutcome(u, dev, flags, driver);
    OpenFdKeeps(u, slot, dev, flags, driver);
  }

  /** All three: each standard descriptor has the new device if it can be opened, and is as
      it was otherwise; a lock that a descriptor redirected before had counts no more. */
  lemma RedirectOutcome(t: Table, outDev: Handle, inDev: Handle, errDev: Handle,
                        outDriver: Driver, inDriver: Driver, errDriver: Driver)
    requires Inv(t)
    ensures var u := OpenFd(t, 1, outDev, O_WRONLY, outDriver);
            var v := OpenFd(u, 0, inDev, O_RDONLY, inDriver);
            Redirected(t, OpenFd(v, 2, errDev, O_WRONLY, errDriver),
                       outDev, inDev, errDev, outDriver, inDriver, errDriver)
  {
    hide Inv, Differs, CanOpen, Freed, OpenFd, Opened, LeastFree;
    Standard(t);
    RedirectOne(t, t, {}, 1, outDev, O_WRONLY, outDriver);
    var u, one := OpenFd(t, 1, outDev, O_WRONLY, outDriver), Freed(t, {}, 1, outDev, outDriver);
    RedirectOne(t, u, one, 0, inDev, O_RDONLY, inDriver);
    var v, two := OpenFd(u, 0, inDev, O_RDONLY, inDriver), Freed(t, one, 0, inDev, inDriver);
    RedirectOne(t, v, two, 2, errDev, O_WRONLY, errDriver);
  }

  lemma Standard(t: Table)
    requires Inv(t)
    ensures InTable(t) && Differs(t, t, {}) && t.fds[0].dev != Null && t.fds[1].dev != Null && t.fds[2].dev != Null
  {
    assert Sane(t, 0) && Sane(t, 1) && Sane(t, 2);
  }

  ghost predicate Redirected(t: Table, u: Table, outDev: Handle, inDev: Handle, errDev: Handle,
                             outDriver: Driver, inDriver: Driver, errDriver: Driver)
    requires |t.fds| == MAX_FD
  {
    var one := Freed(t, {}, 1, outDev, outDriver);
    var two := Freed(t, one, 0, inDev, inDriver);
    && |u.fds| == MAX_FD && u.fds[3..] == t.fds[3..]
    && u.fds[1] == (if CanOpen(t, {}, outDev, outDriver) then Opened(outDev, O_WRONLY) else t.fds[1])
    && u.fds[0] == (if CanOpen(t, one, inDev, inDriver) then Opened(inDev, O_RDONLY) else t.fds[0])
    && u.fds[2] == (if CanOpen(t, two, errDev, errDriver) then Opened(errDev, O_WRONLY) else t.fds[2])
    && u.maxFd == if LeastFree(t.fds, 0) < MAX_FD && !(outDev == Null && inDev == Null && errDev == Null)
                  then Raised(t, LeastFree(t.fds, 0)).maxFd else t.maxFd
  }

  // ---------------------------------------------------------------- the invariant is kept

  /** A new descriptor for a device that is not locked may go anywhere. */
  lemma PutKeeps(t: Table, k: nat, dev: Handle, flags: bv32, maxFd: int)
    requires Inv(t) && dev != Null && !(dev.Device? && DeviceLocked(t, dev))
    requires k < MAX_FD && t.maxFd <= maxFd < MAX_FD && k <= maxFd && 2 < maxFd
    ensures Inv(Table(t.fds[k := Opened(dev, flags)], maxFd))
  {
    hide ExclBit, DevBit, Visible, WithDev, WithExcl, WithoutExcl, Updated;
    OpenBits(flags);
    OpenBits(Visible(flags));
    var u := Table(t.fds[k := Opened(dev, flags)], maxFd);
    forall i | 0 <= i < MAX_FD ensures Sane(u, i) {
      assert Sane(t, i);
    }
    forall i, j | 0 <= i < MAX_FD && 0 <= j < MAX_FD && Locked(u.fds[i]) && HasOther(u, i, j)
      ensures i < j
    {
      assert i != k && Sane(t, i);
      assert j != k ==> HasOther(t, i, j);
    }
  }

  lemma RaisedKeeps(t: Table, i: int)
    requires Inv(t) && 2 < i < MAX_FD
    ensures Inv(Raised(t, i))
  {
    hide ExclBit, DevBit, Visible, WithDev, WithExcl, WithoutExcl, Updated;
    forall j | 0 <= j < MAX_FD ensures Sane(Raised(t, i), j) {
      assert Sane(t, j);
    }
    forall k, j | 0 <= k < MAX_FD && 0 <= j < MAX_FD && Locked(t.fds[k]) && HasOther(Raised(t, i), k, j) ensures k < j {
      assert HasOther(t, k, j);
    }
  }

  lemma OpenKeeps(t: Table, dev: Handle, flags: bv32, driver: Driver)
    requires Inv(t)
    ensures Inv(Open(t, dev, flags, driver).0)
  {
    hide ExclBit, DevBit, Opened, Visible, WithDev;
    OpenOutcome(t, dev, flags, driver);
    var i := LeastFree(t.fds, 0);
    if dev != Null && i < MAX_FD {
      assert Sane(t, i) && 2 < i;
      RaisedKeeps(t, i);
      if 0 <= Open(t, dev, flags, driver).1.value {
        PutKeeps(t, i, dev, flags, Raised(t, i).maxFd);
      }
    }
  }

  lemma OpenFdKeeps(t: Table, slot: nat, dev: Handle, flags: bv32, driver: Driver)
    requires Inv(t) && slot <= 2
    ensures Inv(OpenFd(t, slot, dev, flags, driver))
  {
    hide ExclBit, DevBit, Opened, Visible, WithDev;
    OpenFdOutcome(t, slot, dev, flags, driver);
    OpenOutcome(t, dev, flags, driver);
    var i := LeastFree(t.fds, 0);
    if dev != Null && i < MAX_FD {
      assert Sane(t, i) && 2 < i;
      RaisedKeeps(t, i);
      if 0 <= Open(t, dev, flags, driver).1.value {
        PutKeeps(t, slot, dev, flags, Raised(t, i).maxFd);
      }
    }
  }

  lemma ReleaseKeeps(t: Table, fd: int)
    requires Inv(t) && fd < MAX_FD
    ensures Inv(ReleaseFd(t, fd))
  {
    hide ExclBit, DevBit, Visible, WithDev, WithExcl, WithoutExcl, Updated;
    NoBits();
    var u := ReleaseFd(t, fd);
    forall i | 0 <= i < MAX_FD ensures Sane(u, i) {
      assert Sane(t, i);
    }
    forall i, j | 0 <= i < MAX_FD && 0 <= j < MAX_FD && Locked(u.fds[i]) && HasOther(u, i, j) ensures i < j {
      assert Sane(t, i) && HasOther(t, i, j);
    }
  }

  /** Setting other flags changes nothing that matters here. */
  lemma FlagsKeep(t: Table, fd: nat, flags: bv32)
    requires Inv(t) && fd < MAX_FD && t.fds[fd].dev != Null
    requires DevBit(flags) == DevBit(t.fds[fd].flags) && (ExclBit(flags) ==> ExclBit(t.fds[fd].flags))
    ensures Inv(SetFlags(t, fd, flags))
  {
    hide ExclBit, DevBit, Visible, WithDev, WithExcl, WithoutExcl, Updated;
    var u := SetFlags(t, fd, flags);
    forall i | 0 <= i < MAX_FD ensures Sane(u, i) {
      assert Sane(t, i);
    }
    forall i, j | 0 <= i < MAX_FD && 0 <= j < MAX_FD && Locked(u.fds[i]) && HasOther(u, i, j) ensures i < j {
      assert Locked(t.fds[i]) && HasOther(t, i, j);
    }
  }

  /** The lock is granted to the first descriptor of its device at most. */
  lemma LockKeeps(t: Table, fd: nat)
    requires Inv(t) && fd < MAX_FD && OfDevice(t.fds[fd])
    ensures Inv(FdLock(t, fd).0)
  {
    if !SharedBelow(t, fd) {
      hide ExclBit, DevBit, Visible, WithDev, WithExcl, WithoutExcl, Updated;
      LockBits(t.fds[fd].flags);
      var u := FdLock(t, fd).0;
      forall i | 0 <= i < MAX_FD ensures Sane(u, i) {
        assert Sane(t, i) && Sane(t, fd);
      }
      forall i, j | 0 <= i < MAX_FD && 0 <= j < MAX_FD && Locked(u.fds[i]) && HasOther(u, i, j) ensures i < j {
        assert Sane(t, i) && Sane(t, j) && HasOther(t, i, j);
      }
    }
  }

  lemma UnlockKeeps(t: Table, fd: nat)
    requires Inv(t) && fd < MAX_FD && t.fds[fd].dev != Null
    ensures Inv(FdUnlock(t, fd))
  {
    hide ExclBit, DevBit, WithoutExcl;
    LockBits(t.fds[fd].flags);
    FlagsKeep(t, fd, WithoutExcl(t.fds[fd].flags));
  }

  lemma IoctlKeeps(t: Table, fd: int, req: int, driver: Driver)
    requires Inv(t) && MayName(t, fd)
    ensures Inv(Ioctl(t, fd, req, driver).0)
  {
    hide ExclBit, DevBit, FdLock, FdUnlock;
    if 0 <= fd && DevBit(t.fds[fd].flags) {
      LockKeeps(t, fd);
      UnlockKeeps(t, fd);
    }
  }

  lemma FcntlKeeps(t: Table, fd: int, cmd: int, arg: bv32)
    requires Inv(t) && MayName(t, fd)
    ensures Inv(Fcntl(t, fd, cmd, arg).0)
  {
    hide ExclBit, DevBit, Visible, Updated;
    if 0 <= fd {
      FcntlBits(t.fds[fd].flags, arg);
      FlagsKeep(t, fd, Updated(t.fds[fd].flags, arg));
    }
  }

  lemma StepKeeps(t: Table, e: Event)
    requires Inv(t) && Enabled(t, e)
    ensures Inv(Step(t, e))
  {
    match e
    case OpenCall(dev, flags, driver) => OpenKeeps(t, dev, flags, driver);
    case CloseCall(fd, driver) => ReleaseKeeps(t, fd);
    case IoctlCall(fd, req, driver) => IoctlKeeps(t, fd, req, driver);
    case FcntlCall(fd, cmd, arg) => FcntlKeeps(t, fd, cmd, arg);
    case RedirectCall(slot, dev, flags, driver) => OpenFdKeeps(t, slot, dev, flags, driver);
  }

  lemma {:induction false} RunKeeps(t: Table, run: seq<Event>, u: Table)
    requires Inv(t) && Reaches(t, run, u)
    ensures Inv(u)
    decreases |run|
  {
    if run != [] {
      StepKeeps(t, run[0]);
      RunKeeps(Step(t, run[0]), run[1..], u);
    }
  }

  // ---------------------------------------------------------------- what locks are worth

  /** In every run there is at most one holder of the lock on a device. */
  lemma AtMostOneHolder(run: seq<Event>, t: Table, i: nat, j: nat)
    requires Reaches(Initial(), run, t)
    requires i < |t.fds| && j < |t.fds| && Locked(t.fds[i]) && Locked(t.fds[j]) && t.fds[i].dev == t.fds[j].dev
    ensures i == j
  {
    InitialInv();
    RunKeeps(Initial(), run, t);
    assert i != j ==> HasOther(t, i, j) && HasOther(t, j, i);
  }

  /** Once a descriptor has been allocated, looking up to the high-water mark finds the
      same locks as looking through the whole table. */
  lemma ShortScanIsFullScan(t: Table, i: nat)
    requires Inv(t) && 0 <= t.maxFd && i < MAX_FD && t.fds[i].dev != Null
    ensures LockedByOther(t, i) <==> exists j :: 0 <= j < MAX_FD && HasOther(t, i, j) && Locked(t.fds[j])
  {
    if j :| 0 <= j < MAX_FD && HasOther(t, i, j) && Locked(t.fds[j]) {
      assert Sane(t, j);
    }
    if LockedByOther(t, i) {
      var j :| 0 <= j <= t.maxFd && t.fds[j].dev == t.fds[i].dev && Locked(t.fds[j]) && j != i;
      assert HasOther(t, i, j);
    }
  }

  ghost predicate SoleUser(t: Table, i: nat)
    requires i < |t.fds|
  {
    forall j :: 0 <= j < |t.fds| && j != i ==> t.fds[j].dev != t.fds[i].dev
  }

  /** A sole user is always granted the lock; and exactly when the descriptor at the
      high-water mark is not another one for the device, only a sole user is. */
  lemma LockGrant(t: Table, i: nat)
    requires Inv(t) && i < MAX_FD && OfDevice(t.fds[i])
    ensures 0 <= i <= t.maxFd && (SoleUser(t, i) ==> FdLock(t, i).1 == 0)
    ensures FdLock(t, i).1 == 0 ==> (SoleUser(t, i) <==> t.fds[t.maxFd].dev != t.fds[i].dev || t.maxFd == i)
  {
    hide ExclBit, DevBit, Visible, WithDev, WithExcl, WithoutExcl, Updated;
    assert Sane(t, i);
    if FdLock(t, i).1 == 0 && (t.fds[t.maxFd].dev != t.fds[i].dev || t.maxFd == i) {
      forall j | 0 <= j < MAX_FD && j != i ensures t.fds[j].dev != t.fds[i].dev {
        assert Sane(t, j);
      }
    }
  }

  lemma OpenNext(run: seq<Event>, t: Table, i: nat, dev: Handle) returns (u: Table)
    requires Reaches(Initial(), run, t) && Inv(t) && i < MAX_FD && t.maxFd < i
    requires t.fds[i].dev == Null && forall j :: 0 <= j < i ==> t.fds[j].dev != Null
    requires dev.Device? && !DeviceLocked(t, dev)
    ensures u == Table(t.fds[i := Opened(dev, 0)], i) && Inv(u)
    ensures Reaches(Initial(), run + [OpenCall(dev, 0, NoCallback)], u)
  {
    hide ExclBit, DevBit, Visible, WithDev;
    FirstFree(t.fds, i);
    OpenOutcome(t, dev, 0, NoCallback);
    OpenKeeps(t, dev, 0, NoCallback);
    u := Open(t, dev, 0, NoCallback).0;
    Append(Initial(), run, t, OpenCall(dev, 0, NoCallback));
  }

  /** The lock may be granted although another descriptor for the device is open. */
  lemma GrantIsNotSoleUse() returns (run: seq<Event>, t: Table)
    ensures Reaches(Initial(), run, t) && |t.fds| == MAX_FD
    ensures Locked(t.fds[3]) && t.fds[4].dev == t.fds[3].dev
  {
    InitialInv();
    var dev, fd, lock := Device(1), Opened(Device(1), 0), IoctlCall(3, TIOCEXCL, NoCallback);
    var one := OpenNext([], Initial(), 3, dev);
    assert !Locked(fd) && OfDevice(fd);
    var two := OpenNext([OpenCall(dev, 0, NoCallback)], one, 4, dev);
    run := [OpenCall(dev, 0, NoCallback)] + [OpenCall(dev, 0, NoCallback)];
    t := FdLock(two, 3).0;
    Append(Initial(), run, two, lock);
    run := run + [lock];
  }

  /** The call gives up, or may give up, the lock that `h` holds. */
  predicate Releases(e: Event, h: nat) {
    match e
    case OpenCall(_, _, _) => false
    case CloseCall(fd, _) => fd == h && 2 < h
    case IoctlCall(fd, req, _) => fd == h && req == TIOCNXCL
    case FcntlCall(_, _, _) => false
    case RedirectCall(slot, _, _, _) => slot == h
  }

  /** `h` still has the lock in `u`, and nobody else has come to use the device. */
  ghost predicate StillHolds(t: Table, u: Table, h: nat)
    requires h < |t.fds|
  {
    && |u.fds| == |t.fds| && Locked(u.fds[h]) && u.fds[h].dev == t.fds[h].dev
    && forall j :: 0 <= j < |u.fds| && u.fds[j].dev == t.fds[h].dev ==> t.fds[j].dev == t.fds[h].dev
  }

  lemma LockHoldsIoctl(t: Table, fd: int, req: int, driver: Driver, h: nat)
    requires Inv(t) && MayName(t, fd) && h < MAX_FD && Locked(t.fds[h]) && !(fd == h && req == TIOCNXCL)
    ensures StillHolds(t, Ioctl(t, fd, req, driver).0, h)
  {
    if 0 <= fd < MAX_FD {
      hide ExclBit, DevBit, Visible, WithDev, WithExcl, WithoutExcl, Updated;
      LockBits(t.fds[fd].flags);
    }
  }

  lemma LockHoldsFcntl(t: Table, fd: int, cmd: int, arg: bv32, h: nat)
    requires Inv(t) && MayName(t, fd) && h < MAX_FD && Locked(t.fds[h])
    ensures StillHolds(t, Fcntl(t, fd, cmd, arg).0, h)
  {
    if 0 <= fd < MAX_FD {
      hide ExclBit, DevBit, Visible, WithDev, WithExcl, WithoutExcl, Updated;
      FcntlBits(t.fds[fd].flags, arg);
    }
  }

  lemma LockHoldsOpen(t: Table, slot: nat, dev: Handle, flags: bv32, driver: Driver, h: nat)
    requires Inv(t) && h < MAX_FD && Locked(t.fds[h]) && slot <= 2
    ensures StillHolds(t, Open(t, dev, flags, driver).0, h)
    ensures slot != h ==> StillHolds(t, OpenFd(t, slot, dev, flags, driver), h)
  {
    hide ExclBit, DevBit, Visible, WithDev, Open, OpenFd;
    assert Sane(t, h) && DeviceLocked(t, t.fds[h].dev);
    OpenOutcome(t, dev, flags, driver);
    OpenFdOutcome(t, slot, dev, flags, driver);
  }

  lemma LockHolds(t: Table, e: Event, h: nat)
    requires Inv(t) && Enabled(t, e) && h < MAX_FD && Locked(t.fds[h]) && !Releases(e, h)
    ensures StillHolds(t, Step(t, e), h)
  {
    match e
    case OpenCall(dev, flags, driver) => LockHoldsOpen(t, 0, dev, flags, driver, h);
    case CloseCall(fd, driver) =>
      assert Sane(t, h) && (0 <= fd < MAX_FD ==> Sane(t, fd));
    case IoctlCall(fd, req, driver) => LockHoldsIoctl(t, fd, req, driver, h);
    case FcntlCall(fd, cmd, arg) => LockHoldsFcntl(t, fd, cmd, arg, h);
    case RedirectCall(slot, dev, flags, driver) => LockHoldsOpen(t, slot, dev, flags, driver, h);
  }

  /** Through any run that does not release it, a lock is held, and shuts out newcomers. */
  lemma {:induction false} LockHoldsThroughRun(t: Table, run: seq<Event>, u: Table, h: nat)
    requires Inv(t) && h < MAX_FD && Locked(t.fds[h]) && Reaches(t, run, u)
    requires forall e :: e in run ==> !Releases(e, h)
    ensures StillHolds(t, u, h)
    decreases |run|
  {
    if run != [] {
      var v := Step(t, run[0]);
      StepKeeps(t, run[0]);
      LockHolds(t, run[0], h);
      LockHoldsThroughRun(v, run[1..], u, h);
    }
  }

  /** Closing the holder gives up the lock, except that the standard descriptors keep
      it. */
  lemma CloseUnlocks(t: Table, h: nat, driver: Driver)
    requires Inv(t) && h < MAX_FD && Locked(t.fds[h])
    ensures DeviceLocked(Close(t, h, driver).0, t.fds[h].dev) <==> h <= 2
  {
    hide ExclBit, DevBit, Visible, WithDev, WithExcl, WithoutExcl, Updated;
    NoBits();
    assert Sane(t, h);
    forall j | 0 <= j < MAX_FD && HasOther(t, h, j) ensures !Locked(t.fds[j]) {
      assert HasOther(t, j, h);
    }
    var u := Close(t, h, driver).0;
    assert forall j :: 0 <= j < MAX_FD && u.fds[j].dev == t.fds[h].dev && Locked(u.fds[j]) && j != h ==> HasOther(t, h, j);
    assert h <= 2 ==> u.fds[h] == t.fds[h];
  }

  /** A run after which descriptor 1 still holds the lock on its device, although the last
      call has closed it. */
  lemma CloseMayKeepLock() returns (run: seq<Event>, t: Table)
    ensures Reaches(Initial(), run, t) && |t.fds| == MAX_FD
    ensures run != [] && run[|run| - 1] == CloseCall(1, NoCallback)
    ensures t.fds[1].dev == Device(1) && Locked(t.fds[1])
  {
    InitialInv();
    var redirect, lock := RedirectCall(1, Device(1), 0, NoCallback), IoctlCall(1, TIOCEXCL, NoCallback);
    var close := CloseCall(1, NoCallback);
    OpenFdOutcome(Initial(), 1, Device(1), 0, NoCallback);
    OpenOutcome(Initial(), Device(1), 0, NoCallback);
    FirstFree(Initial().fds, 3);
    var one := Step(Initial(), redirect);
    assert one.fds[1] == Opened(Device(1), 0) && OfDevice(one.fds[1]);
    var two := Step(one, lock);
    t := Step(two, close);
    run := [redirect, lock, close];
    assert run[1..] == [lock, close] && run[1..][1..] == [close] && run[1..][1..][1..] == [];
    assert Reaches(two, [close], t);
    assert Reaches(one, run[1..], t);
  }

  /** What F_SETFL sets F_GETFL gets, and no other bit changes. */
  lemma FcntlRoundTrip(t: Table, fd: nat, arg: bv32)
    requires InTable(t) && fd < MAX_FD
    ensures var u := Fcntl(t, fd, F_SETFL, arg).0;
            var before, after := Fcntl(t, fd, F_GETFL, 0).1, Fcntl(u, fd, F_GETFL, 0).1;
            && before.Flags? && after.Flags?
            && after.flags & FCNTL_MASK == arg & FCNTL_MASK
            && after.flags & !FCNTL_MASK == before.flags & !FCNTL_MASK
            && u.fds[fd].flags & FLAGS_MASK == t.fds[fd].flags & FLAGS_MASK
  {
  }
}
