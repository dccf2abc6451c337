/** Error numbers of system calls. */
module Errno {
  const ENOENT := 2
  const EBADF := 9
  const EAGAIN := 11
  const ENOMEM := 12
  const EFAULT := 14
  const EEXIST := 17
  const EINVAL := 22
  const EAFNOSUPPORT := 97
  const EADDRINUSE := 98
  const EISCONN := 106
  const ECONNREFUSED := 111
}
