/** The error numbers the calls use. */
module Errno {

  const EIO: int := 5
  const EWOULDBLOCK: int := 11
  const EACCES: int := 13
  const ENODEV: int := 19
  const EINVAL: int := 22
  const EMFILE: int := 24
  const ENOTTY: int := 25
  const EBADFD: int := 81
  const ENOSYS: int := 88
  const ENOTSUP: int := 134
}
