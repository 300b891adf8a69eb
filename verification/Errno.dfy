/** The error numbers of the C library that the models report. */
module Errno {
  const EACCES: int := 13
  const ENODEV: int := 19
  const EINVAL: int := 22
  const EMFILE: int := 24
  const ENOTTY: int := 25
  const EBADFD: int := 81
  const ENOSYS: int := 88
  const ENOTSUP: int := 134
}
