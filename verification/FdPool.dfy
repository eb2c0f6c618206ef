/** The file descriptor pool and the calls on it, as they work on the table in place. */
module FdPool {
  import opened Errno
  import opened FdCalls
  import opened FdTable
  import opened FdSafety

  class Pool {
    const fds: array<Fd>
    var maxFd: int
    var errno: int

    ghost function State(): Table
      reads this, fds
    {
      Table(fds[..], maxFd)
    }

    ghost predicate Valid()
      reads this, fds
    {
      Inv(State())
    }

    constructor ()
      ensures Valid() && State() == Initial() && fresh(fds)
    {
      fds := new Fd[MAX_FD](i => if i <= 2 then Fd(DEV_NULL, 0) else FREE);
      maxFd := -1;
      new;
      assert fds[..] == Initial().fds;
      InitialInv();
    }

    /** `alt_get_fd` */
    method GetFd(dev: Handle) returns (rc: int)
      requires Valid()
      modifies this`maxFd, fds
      ensures (State(), rc) == FdTable.GetFd(old(State()), dev)
    {
      rc := -EMFILE;
      var i := 0;
      while i < MAX_FD
        invariant 0 <= i <= MAX_FD && unchanged(this) && unchanged(fds) && rc == -EMFILE
        invariant LeastFree(fds[..], i) == LeastFree(fds[..], 0)
      {
        if fds[i].dev == Null {
          fds[i] := fds[i].(dev := dev);
          if maxFd < i {
            maxFd := i;
          }
          rc := i;
          return;
        }
        i := i + 1;
      }
    }

    /** `alt_release_fd` */
    method ReleaseFd(fd: int)
      requires fd < fds.Length
      modifies fds
      ensures State() == FdTable.ReleaseFd(old(State()), fd)
    {
      if 2 < fd {
        fds[fd] := fds[fd].(flags := 0);
        fds[fd] := fds[fd].(dev := Null);
      }
    }

    /** `alt_file_locked`: its loop compares an unsigned index with the high-water mark. */
    method FileLocked(fd: nat) returns (rc: int)
      requires InTable(State()) && fd < MAX_FD && 0 <= maxFd
      modifies fds
      ensures (State(), rc) == FdTable.FileLocked(old(State()), fd)
    {
      fds[fd] := fds[fd].(flags := WithDev(fds[fd].flags));
      var i: nat := 0;
      while i <= maxFd
        invariant i <= maxFd + 1
        invariant forall j :: 0 <= j < i ==> !(fds[j].dev == fds[fd].dev && Locked(fds[j]) && j != fd)
      {
        if fds[i].dev == fds[fd].dev && Locked(fds[i]) && i != fd {
          rc := -EACCES;
          assert LockedByOther(State(), fd);
          return;
        }
        i := i + 1;
      }
      rc := 0;
    }

    /** `open` */
    method Open(dev: Handle, flags: bv32, driver: Driver) returns (value: int)
      requires Valid()
      modifies this, fds
      ensures Valid()
      ensures var (t, reply) := FdTable.Open(old(State()), dev, flags, driver);
              State() == t && value == reply.value && errno == if reply.errno == 0 then old(errno) else reply.errno
    {
      OpenKeeps(State(), dev, flags, driver);
      var index, status := -1, -ENODEV;
      if dev != Null {
        index := GetFd(dev);
        if index < 0 {
          status := index;
        } else {
          fds[index] := fds[index].(flags := Visible(flags));
          if !dev.FileSystem? {
            status := FileLocked(index);
          }
          if dev.FileSystem? || 0 <= status {
            match driver
            case NoCallback => status := 0;
            case Returns(rc) => status := rc;
          }
        }
      }
      if status < 0 {
        ReleaseFd(index);
        errno := -status;
        return -1;
      }
      return index;
    }

    /** `close` */
    method Close(fd: int, driver: Driver) returns (value: int)
      requires Valid() && MayName(State(), fd)
      modifies this`errno, fds
      ensures Valid()
      ensures var (t, reply) := FdTable.Close(old(State()), fd, driver);
              State() == t && value == reply.value && errno == if reply.errno == 0 then old(errno) else reply.errno
    {
      if 0 <= fd {
        ReleaseKeeps(State(), fd);
        var rval := 0;
        if driver.Returns? {
          rval := driver.rc;
        }
        ReleaseFd(fd);
        if rval < 0 {
          errno := -rval;
          return -1;
        }
        return 0;
      } else {
        errno := EBADFD;
        return -1;
      }
    }

    /** `alt_fd_lock` */
    method FdLock(fd: nat) returns (rc: int)
      requires InTable(State()) && fd < MAX_FD
      modifies fds
      ensures (State(), rc) == FdTable.FdLock(old(State()), fd)
    {
      rc := 0;
      var i: int := 0;
      while i < maxFd
        invariant i == 0 || 0 <= i <= maxFd
        invariant forall j :: 0 <= j < i ==> !(j != fd && fds[j].dev == fds[fd].dev)
      {
        if i != fd && fds[i].dev == fds[fd].dev {
          rc := -EACCES;
          assert SharedBelow(State(), fd);
          return;
        }
        i := i + 1;
      }
      fds[fd] := fds[fd].(flags := WithExcl(fds[fd].flags));
    }

    /** `alt_fd_unlock` */
    method FdUnlock(fd: nat) returns (rc: int)
      requires InTable(State()) && fd < MAX_FD
      modifies fds
      ensures rc == 0 && State() == FdTable.FdUnlock(old(State()), fd)
      ensures SameButFlags(old(State()), State(), fd)
      ensures LockSet(old(fds[fd].flags), fds[fd].flags, false)
    {
      hide LockSet, WithoutExcl;
      UnlockedBits(fds[fd].flags);
      fds[fd] := fds[fd].(flags := WithoutExcl(fds[fd].flags));
      rc := 0;
    }

    /** `ioctl` */
    method Ioctl(fd: int, req: int, driver: Driver) returns (rc: int)
      requires Valid() && MayName(State(), fd)
      modifies this`errno, fds
      ensures Valid()
      ensures var (t, reply) := FdTable.Ioctl(old(State()), fd, req, driver);
              State() == t && rc == reply.value && errno == if reply.errno == 0 then old(errno) else reply.errno
      ensures IoctlDoes(old(State()), State(), fd, req, driver, Reply(rc, if rc < 0 then -rc else 0))
    {
      hide IoctlDoes;
      IoctlKeeps(State(), fd, req, driver);
      IoctlOutcome(State(), fd, req, driver);
      if 0 <= fd {
        if OfDevice(fds[fd]) && req == TIOCEXCL {
          rc := FdLock(fd);
        } else if OfDevice(fds[fd]) && req == TIOCNXCL {
          rc := FdUnlock(fd);
        } else {
          match driver
          case Returns(r) => rc := r;
          case NoCallback => rc := -ENOTTY;
        }
      } else {
        rc := -EBADFD;
      }
      if rc < 0 {
        errno := -rc;
      }
    }

    /** `fcntl` */
    method Fcntl(fd: int, cmd: int, arg: bv32) returns (reply: FcntlReply)
      requires Valid() && MayName(State(), fd)
      modifies this`errno, fds
      ensures Valid()
      ensures (State(), reply) == FdTable.Fcntl(old(State()), fd, cmd, arg)
      ensures errno == if reply.Failed? then reply.errno else old(errno)
      ensures FcntlDoes(old(State()), State(), fd, cmd, arg, reply)
    {
      hide FcntlDoes;
      FcntlKeeps(State(), fd, cmd, arg);
      FcntlOutcome(State(), fd, cmd, arg);
      if 0 <= fd {
        if cmd == F_GETFL {
          return Flags(Visible(fds[fd].flags));
        } else if cmd == F_SETFL {
          fds[fd] := fds[fd].(flags := Updated(fds[fd].flags, arg));
          return Done;
        } else {
          errno := EINVAL;
          return Failed(EINVAL);
        }
      }
      errno := EBADFD;
      return Failed(EBADFD);
    }

    /** `alt_open_fd` */
    method OpenFd(slot: nat, dev: Handle, flags: bv32, driver: Driver)
      requires Valid() && slot <= 2
      modifies this, fds
      ensures Valid() && State() == FdTable.OpenFd(old(State()), slot, dev, flags, driver)
    {
      OpenFdKeeps(State(), slot, dev, flags, driver);
      var old' := Open(dev, flags, driver);
      if 0 <= old' {
        fds[slot] := fds[old'];
        ReleaseFd(old');
      }
    }

    /** `alt_io_redirect`: slot 1 first, then 0 and 2; the names of the devices have been
        looked up, and each has its open callback. */
    method IoRedirect(outDev: Handle, inDev: Handle, errDev: Handle,
                      outDriver: Driver, inDriver: Driver, errDriver: Driver)
      requires Valid()
      modifies this, fds
      ensures Valid()
      ensures Redirected(old(State()), State(), outDev, inDev, errDev, outDriver, inDriver, errDriver)
    {
      RedirectOutcome(State(), outDev, inDev, errDev, outDriver, inDriver, errDriver);
      OpenFd(1, outDev, O_WRONLY, outDriver);
      OpenFd(0, inDev, O_RDONLY, inDriver);
      OpenFd(2, errDev, O_WRONLY, errDriver);
    }
  }
}
