/** Types shared by the models of the storage components. */
module Types {
  newtype Byte = x: int | 0 <= x < 256

  const TWO_32: int := 0x1_0000_0000
  const TWO_63: int := 0x8000_0000_0000_0000
  const TWO_64: int := 0x1_0000_0000_0000_0000

  /** A `uint64_t`. Arithmetic on it is written out modulo 2^64 where the program computes in 64 bits. */
  type Uint64 = x: int | 0 <= x < TWO_64

  datatype Option<+T> = None | Some(value: T)

  datatype Errno = EPERM | EINVAL | ENOENT | EEXIST | EIO | EFBIG

  datatype Status = OK | Error(code: Errno)
}
