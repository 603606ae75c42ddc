// Optional values and the error returns shared by the library's entry points.
module Wrappers {

  datatype Option<+T> = None | Some(value: T)

  datatype Errno = Success | EINVAL | ENOMEM | EPERM | ENXIO | ENOSYS | EBADF | KernelError(code: int)
}
