/** The file descriptor table and its exclusive locks, as a state machine on values. */
module FdTable {
  import opened Errno

  const MAX_FD: nat := 32

  const EXCL: bv32 := 0x8000_0000
  const DEV: bv32 := 0x4000_0000
  const FLAGS_MASK: bv32 := EXCL | DEV

  const O_RDONLY: bv32 := 0
  const O_WRONLY: bv32 := 1
  const O_APPEND: bv32 := 0x0008
  const O_NONBLOCK: bv32 := 0x4000
  const FCNTL_MASK: bv32 := O_APPEND | O_NONBLOCK

  const TIOCEXCL: int := 0x740d
  const TIOCNXCL: int := 0x740e
  const F_GETFL: int := 3
  const F_SETFL: int := 4

  predicate ExclBit(flags: bv32) {
    flags & EXCL != 0
  }

  predicate DevBit(flags: bv32) {
    flags & DEV != 0
  }

  /** The flag words that the calls compute. */
  function Visible(flags: bv32): bv32 {
    flags & !FLAGS_MASK
  }

  function WithDev(flags: bv32): bv32 {
    flags | DEV
  }

  function WithExcl(flags: bv32): bv32 {
    flags | EXCL
  }

  function WithoutExcl(flags: bv32): bv32 {
    flags & !EXCL
  }

  function Updated(flags: bv32, arg: bv32): bv32 {
    (flags & !FCNTL_MASK) | (arg & FCNTL_MASK)
  }

  /** What a descriptor refers to: nothing, a device, or a filesystem. */
  datatype Handle = Null | Device(id: nat) | FileSystem(id: nat)

  datatype Fd = Fd(dev: Handle, flags: bv32)

  /** The pool of descriptors, and its high-water mark. */
  datatype Table = Table(fds: seq<Fd>, maxFd: int)

  /** A callback of a driver: there may be none. */
  datatype Driver = NoCallback | Returns(rc: int)

  /** What a call returns, and what it stores in `errno`, or 0 when it leaves that alone. */
  datatype Reply = Reply(value: int, errno: int)

  const DEV_NULL := Device(0)
  const FREE := Fd(Null, 0)

  predicate Locked(fd: Fd) {
    ExclBit(fd.flags)
  }

  predicate OfDevice(fd: Fd) {
    DevBit(fd.flags)
  }

  function Initial(): Table {
    Table(seq(MAX_FD, i => if i <= 2 then Fd(DEV_NULL, 0) else FREE), -1)
  }

  // ---------------------------------------------------------------- the operations

  /** The first free descriptor at or after `i`. */
  function LeastFree(fds: seq<Fd>, i: nat): (r: nat)
    requires i <= |fds|
    ensures i <= r <= |fds| && (r < |fds| ==> fds[r].dev == Null)
    ensures forall j :: i <= j < r ==> fds[j].dev != Null
    decreases |fds| - i
  {
    if i == |fds| || fds[i].dev == Null then i else LeastFree(fds, i + 1)
  }

  /** Descriptor `i` is claimed for `dev`. */
  function GetAt(t: Table, i: nat, dev: Handle): Table
    requires i < |t.fds|
  {
    Table(t.fds[i := t.fds[i].(dev := dev)], if t.maxFd < i then i else t.maxFd)
  }

  /** `alt_get_fd` */
  function GetFd(t: Table, dev: Handle): (Table, int) {
    var i := LeastFree(t.fds, 0);
    if i == |t.fds| then (t, -EMFILE)
    else (GetAt(t, i, dev), i)
  }

  /** `alt_release_fd` */
  function ReleaseFd(t: Table, fd: int): Table
    requires fd < |t.fds|
  {
    if 2 < fd then t.(fds := t.fds[fd := FREE]) else t
  }

  function SetFlags(t: Table, i: nat, flags: bv32): Table
    requires i < |t.fds|
  {
    t.(fds := t.fds[i := t.fds[i].(flags := flags)])
  }

  predicate InTable(t: Table) {
    |t.fds| == MAX_FD && -1 <= t.maxFd < MAX_FD
  }

  /** What the scan of `alt_file_locked` looks for. */
  predicate LockedByOther(t: Table, i: nat)
    requires InTable(t) && i < MAX_FD
  {
    exists j :: 0 <= j <= t.maxFd && t.fds[j].dev == t.fds[i].dev && Locked(t.fds[j]) && j != i
  }

  /** `alt_file_locked` */
  function FileLocked(t: Table, i: nat): (Table, int)
    requires InTable(t) && i < MAX_FD
  {
    var t := SetFlags(t, i, WithDev(t.fds[i].flags));
    (t, if LockedByOther(t, i) then -EACCES else 0)
  }

  function Callback(driver: Driver, otherwise: int): int {
    match driver
    case NoCallback => otherwise
    case Returns(rc) => rc
  }

  /** What `open` does once it has the free descriptor `i`. */
  function OpenAt(t: Table, i: nat, flags: bv32, driver: Driver): (Table, int)
    requires InTable(t) && i < MAX_FD
  {
    var t := SetFlags(t, i, Visible(flags));
    if t.fds[i].dev.FileSystem? then (t, Callback(driver, 0))
    else
      var (t, status) := FileLocked(t, i);
      (t, if status < 0 then status else Callback(driver, 0))
  }

  /** `open`: `dev` is what the name has been found to stand for, and `driver` the open
      callback of that device or filesystem. */
  function Open(t: Table, dev: Handle, flags: bv32, driver: Driver): (r: (Table, Reply))
    requires InTable(t)
    ensures InTable(r.0) && r.1.value < MAX_FD
  {
    if dev == Null then (t, Reply(-1, ENODEV))
    else
      var (t, index) := GetFd(t, dev);
      if index < 0 then (t, Reply(-1, -index))
      else
        var (t, status) := OpenAt(t, index, flags, driver);
        if status < 0 then (ReleaseFd(t, index), Reply(-1, -status))
        else (t, Reply(index, 0))
  }

  /** `close`, which is given the result of the close callback. */
  function Close(t: Table, fd: int, driver: Driver): (Table, Reply)
    requires InTable(t) && fd < MAX_FD
  {
    if fd < 0 then (t, Reply(-1, EBADFD))
    else
      var rc := Callback(driver, 0);
      (ReleaseFd(t, fd), if rc < 0 then Reply(-1, -rc) else Reply(0, 0))
  }

  /** What the scan of `alt_fd_lock` looks for. */
  predicate SharedBelow(t: Table, i: nat)
    requires InTable(t) && i < MAX_FD
  {
    exists j :: 0 <= j < t.maxFd && j != i && t.fds[j].dev == t.fds[i].dev
  }

  /** `alt_fd_lock` */
  function FdLock(t: Table, i: nat): (Table, int)
    requires InTable(t) && i < MAX_FD
  {
    if SharedBelow(t, i) then (t, -EACCES) else (SetFlags(t, i, WithExcl(t.fds[i].flags)), 0)
  }

  /** `alt_fd_unlock` */
  function FdUnlock(t: Table, i: nat): Table
    requires InTable(t) && i < MAX_FD
  {
    SetFlags(t, i, WithoutExcl(t.fds[i].flags))
  }

  /** `ioctl` */
  function Ioctl(t: Table, fd: int, req: int, driver: Driver): (Table, Reply)
    requires InTable(t) && fd < MAX_FD
  {
    if fd < 0 then (t, Reply(-EBADFD, EBADFD))
    else if OfDevice(t.fds[fd]) && req == TIOCEXCL then
      var (t, rc) := FdLock(t, fd);
      (t, Reply(rc, if rc < 0 then -rc else 0))
    else if OfDevice(t.fds[fd]) && req == TIOCNXCL then (FdUnlock(t, fd), Reply(0, 0))
    else
      var rc := Callback(driver, -ENOTTY);
      (t, Reply(rc, if rc < 0 then -rc else 0))
  }

  /** `fcntl`: its result is a word of flags, zero, or -1. */
  datatype FcntlReply = Flags(flags: bv32) | Done | Failed(errno: int)

  function Fcntl(t: Table, fd: int, cmd: int, arg: bv32): (Table, FcntlReply)
    requires InTable(t) && fd < MAX_FD
  {
    if fd < 0 then (t, Failed(EBADFD))
    else
      var flags := t.fds[fd].flags;
      if cmd == F_GETFL then (t, Flags(Visible(flags)))
      else if cmd == F_SETFL then (SetFlags(t, fd, Updated(flags, arg)), Done)
      else (t, Failed(EINVAL))
  }

  /** `alt_open_fd`, which moves a new descriptor into slot `fd`. */
  function OpenFd(t: Table, fd: nat, dev: Handle, flags: bv32, driver: Driver): (r: Table)
    requires InTable(t) && fd <= 2
    ensures InTable(r)
  {
    var (t, reply) := Open(t, dev, flags, driver);
    if reply.value < 0 then t
    else ReleaseFd(t.(fds := t.fds[fd := t.fds[reply.value]]), reply.value)
  }
}
