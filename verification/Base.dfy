// Definitions shared by all modules.
module Base {
  datatype Option<T> = None | Some(value: T)

  const EIO: int := 5
  const ENOMEM: int := 12
  const EACCES: int := 13
  const EINVAL: int := 22
  const ENOTSUPP: int := 524
  const MAX_ERRNO_IO: int := 133 // the largest errno an ioctl or open can set
}
