/** Error codes, as in include/bits/errno.h; the kernel returns them negated. */
module Errno {
  const EPERM := 1
  const ENOENT := 2
  const EINTR := 4
  const EIO := 5
  const E2BIG := 7
  const EBADF := 9
  const ENOMEM := 12
  const EACCES := 13
  const EFAULT := 14
  const ENOTBLK := 15
  const EBUSY := 16
  const EEXIST := 17
  const ENODEV := 19
  const ENOTDIR := 20
  const EISDIR := 21
  const EINVAL := 22
  const ENFILE := 23
  const EMFILE := 24
  const EROFS := 30
  const ENAMETOOLONG := 36
}
