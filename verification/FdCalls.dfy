/** What the calls on descriptors do, told in the bits of the flag words and the request
    and error numbers themselves. */
module FdCalls {
  import opened FdSafety
  import opened FdTable

  // ---------------------------------------------------------------- flag words

  /** The flag word says that the descriptor is one of a device. */
  predicate Marked(f: bv32) {
    f & 0x4000_0000 != 0
  }

  /** The flag word says that the descriptor has the lock. */
  predicate Holding(f: bv32) {
    f & 0x8000_0000 != 0
  }

  /** `g` is `f` but for the lock. */
  predicate LockSet(f: bv32, g: bv32, locked: bool) {
    (g & 0x8000_0000 != 0 <==> locked) && g & 0x7FFF_FFFF == f & 0x7FFF_FFFF
  }

  /** `g` is `f` but for O_APPEND and O_NONBLOCK, which are those of `arg`. */
  predicate ModeSet(f: bv32, g: bv32, arg: bv32) {
    g & 0x4008 == arg & 0x4008 && g & 0xFFFF_BFF7 == f & 0xFFFF_BFF7
  }

  /** The flags without the lock and device bits. */
  function UserFlags(f: bv32): bv32 {
    f & 0x3FFF_FFFF
  }

  function MarkedIf(f: bv32, device: bool): bv32 {
    if device then f | 0x4000_0000 else f
  }

  lemma TestedBits(f: bv32)
    ensures DevBit(f) == Marked(f) && ExclBit(f) == Holding(f)
  {
  }

  lemma LockedBits(f: bv32)
    ensures LockSet(f, WithExcl(f), true)
  {
  }

  lemma UnlockedBits(f: bv32)
    ensures LockSet(f, WithoutExcl(f), false)
  {
  }

  lemma LockSetBits(f: bv32, g: bv32, locked: bool)
    requires LockSet(f, g, locked)
    ensures Holding(g) == locked
  {
  }

  lemma VisibleBits(f: bv32)
    ensures Visible(f) == UserFlags(f)
  {
  }

  lemma UpdatedBits(f: bv32, arg: bv32)
    ensures ModeSet(f, Updated(f, arg), arg)
  {
  }

  lemma MarkedBits(f: bv32)
    ensures WithDev(f) == MarkedIf(f, true) && MarkedIf(f, false) == f
  {
  }

  lemma UserBits(f: bv32)
    ensures UserFlags(UserFlags(f)) == UserFlags(f)
  {
  }

  lemma UserOfMarked(f: bv32, device: bool)
    ensures UserFlags(MarkedIf(f, device)) == UserFlags(f)
  {
    assert (f | 0x4000_0000) & 0x3FFF_FFFF == f & 0x3FFF_FFFF;
  }

  // ---------------------------------------------------------------- the calls

  /** The tables differ in the flags of descriptor `fd` alone. */
  ghost predicate SameButFlags(t: Table, u: Table, fd: nat) {
    && |u.fds| == |t.fds| && fd < |t.fds| && u.maxFd == t.maxFd && u.fds[fd].dev == t.fds[fd].dev
    && forall j :: 0 <= j < |t.fds| && j != fd ==> u.fds[j] == t.fds[j]
  }

  /** Another descriptor below the mark refers to the same. */
  ghost predicate InUse(t: Table, fd: nat)
    requires fd < |t.fds|
  {
    exists j :: 0 <= j < |t.fds| && j < t.maxFd && j != fd && t.fds[j].dev == t.fds[fd].dev
  }

  /** TIOCEXCL asks for the lock and TIOCNXCL gives it up, on the descriptors of devices;
      everything else is for the driver. */
  ghost predicate IoctlDoes(t: Table, u: Table, fd: int, req: int, driver: Driver, reply: Reply)
    requires fd < |t.fds|
  {
    if fd < 0 then u == t && reply == Reply(-81, 81)
    else if Marked(t.fds[fd].flags) && req == 0x740d && InUse(t, fd) then
      u == t && reply == Reply(-13, 13)
    else if Marked(t.fds[fd].flags) && (req == 0x740d || req == 0x740e) then
      && reply == Reply(0, 0) && SameButFlags(t, u, fd)
      && LockSet(t.fds[fd].flags, u.fds[fd].flags, req == 0x740d)
    else
      var rc := if driver.Returns? then driver.rc else -25;
      u == t && reply == Reply(rc, if rc < 0 then -rc else 0)
  }

  lemma IoctlOutcome(t: Table, fd: int, req: int, driver: Driver)
    requires InTable(t) && MayName(t, fd)
    ensures var (u, reply) := Ioctl(t, fd, req, driver);
            IoctlDoes(t, u, fd, req, driver, reply)
  {
    hide ExclBit, DevBit, WithExcl, WithoutExcl, Marked, LockSet;
    if 0 <= fd {
      TestedBits(t.fds[fd].flags);
      LockedBits(t.fds[fd].flags);
      UnlockedBits(t.fds[fd].flags);
      assert SharedBelow(t, fd) <==> InUse(t, fd);
    }
  }

  /** After the holder has given up its lock by TIOCNXCL nobody has one on the device, and
      an `open` of it that gets a descriptor and has a willing driver succeeds. */
  lemma UnlockAdmits(t: Table, h: nat, driver: Driver, i: nat, flags: bv32, willing: Driver)
    requires Inv(t) && h < MAX_FD && Holding(t.fds[h].flags)
    requires i < MAX_FD && t.fds[i].dev == Null && forall j :: 0 <= j < i ==> t.fds[j].dev != Null
    requires willing.Returns? ==> 0 <= willing.rc
    ensures var (u, dev) := (Ioctl(t, h, 0x740e, driver).0, t.fds[h].dev);
            && (forall fd <- u.fds :: fd.dev == dev ==> !Holding(fd.flags))
            && Inv(u) && Open(u, dev, flags, willing).1 == Reply(i, 0)
  {
    hide ExclBit, DevBit, Holding, Marked, LockSet, Ioctl, Open, Opened;
    TestedBits(t.fds[h].flags);
    assert Sane(t, h);
    IoctlOutcome(t, h, 0x740e, driver);
    IoctlKeeps(t, h, 0x740e, driver);
    var (u, dev) := (Ioctl(t, h, 0x740e, driver).0, t.fds[h].dev);
    LockSetBits(t.fds[h].flags, u.fds[h].flags, false);
    forall j | 0 <= j < MAX_FD && u.fds[j].dev == dev
      ensures !Locked(u.fds[j]) && !Holding(u.fds[j].flags)
    {
      TestedBits(u.fds[j].flags);
      assert j != h ==> HasOther(t, h, j) && HasOther(t, j, h);
    }
    FirstFree(u.fds, i);
    OpenOutcome(u, dev, flags, willing);
  }

  /** `close` clears a descriptor above 2, even if the driver fails, and no other. */
  lemma CloseOutcome(t: Table, fd: int, driver: Driver)
    requires InTable(t) && MayName(t, fd)
    ensures var (u, reply) := Close(t, fd, driver);
            && u == (if 2 < fd then Table(t.fds[fd := Fd(Null, 0)], t.maxFd) else t)
            && reply == if fd < 0 then Reply(-1, 81)
                        else if driver.Returns? && driver.rc < 0 then Reply(-1, -driver.rc) else Reply(0, 0)
  {
  }

  /** F_GETFL hides the lock and device bits, F_SETFL sets two flags, and nothing else is
      done. */
  ghost predicate FcntlDoes(t: Table, u: Table, fd: int, cmd: int, arg: bv32, reply: FcntlReply)
    requires fd < |t.fds|
  {
    if fd < 0 then u == t && reply == Failed(81)
    else if cmd == 3 then u == t && reply == Flags(UserFlags(t.fds[fd].flags))
    else if cmd == 4 then
      reply == Done && SameButFlags(t, u, fd) && ModeSet(t.fds[fd].flags, u.fds[fd].flags, arg)
    else u == t && reply == Failed(22)
  }

  lemma FcntlOutcome(t: Table, fd: int, cmd: int, arg: bv32)
    requires InTable(t) && MayName(t, fd)
    ensures var (u, reply) := Fcntl(t, fd, cmd, arg);
            FcntlDoes(t, u, fd, cmd, arg, reply)
  {
    hide Visible, Updated, UserFlags, ModeSet;
    if 0 <= fd {
      VisibleBits(t.fds[fd].flags);
      UpdatedBits(t.fds[fd].flags, arg);
    }
  }

  /** Another descriptor of the device has the lock. */
  ghost predicate LockedOut(t: Table, dev: Handle) {
    dev.Device? && exists j :: 0 <= j < |t.fds| && t.fds[j].dev == dev && Holding(t.fds[j].flags)
  }

  /** What `open` returns: the first free descriptor, unless the name is unknown, no
      descriptor is free, the device is locked or the driver refuses, in this order. */
  lemma OpenReply(t: Table, dev: Handle, flags: bv32, driver: Driver)
    requires Inv(t)
    ensures var reply := Open(t, dev, flags, driver).1;
            if dev == Null then reply == Reply(-1, 19)
            else if forall fd <- t.fds :: fd.dev != Null then reply == Reply(-1, 24)
            else if LockedOut(t, dev) then reply == Reply(-1, 13)
            else if driver.Returns? && driver.rc < 0 then reply == Reply(-1, -driver.rc)
            else
              && 0 <= reply.value < |t.fds| && reply.errno == 0 && t.fds[reply.value].dev == Null
              && forall j :: 0 <= j < reply.value ==> t.fds[j].dev != Null
  {
    hide ExclBit, Holding, Open, Opened;
    OpenOutcome(t, dev, flags, driver);
    forall j | 0 <= j < |t.fds| ensures Locked(t.fds[j]) == Holding(t.fds[j].flags) {
      TestedBits(t.fds[j].flags);
    }
    assert LockedOut(t, dev) <==> dev.Device? && DeviceLocked(t, dev);
    var i := LeastFree(t.fds, 0);
    assert i < |t.fds| ==> t.fds[i] in t.fds;
  }

  /** A descriptor opened refers to what was asked for, with the flags asked for: these are
      what F_GETFL gets, and the device bit marks a device. */
  lemma OpenThenGet(t: Table, dev: Handle, flags: bv32, driver: Driver)
    requires Inv(t) && 0 <= Open(t, dev, flags, driver).1.value
    ensures var (u, i) := (Open(t, dev, flags, driver).0, Open(t, dev, flags, driver).1.value);
            && i < MAX_FD && u.fds == t.fds[i := Fd(dev, MarkedIf(UserFlags(flags), dev.Device?))]
            && Fcntl(u, i, 3, 0).1 == Flags(UserFlags(flags))
  {
    hide Visible, WithDev, Open, UserFlags, MarkedIf;
    OpenOutcome(t, dev, flags, driver);
    OpenGetsLeast(t, dev, flags, driver);
    VisibleBits(flags);
    VisibleBits(MarkedIf(UserFlags(flags), dev.Device?));
    MarkedBits(UserFlags(flags));
    UserBits(flags);
    UserOfMarked(UserFlags(flags), dev.Device?);
  }
}
