/** Types shared by every model: machine integers, optional values and the
    status codes that the shell handlers and the storage layer return. */
module Basics {
  datatype Option<+T> = None | Some(value: T)

  type byte = b: int | 0 <= b < 0x100
  type uint16 = n: int | 0 <= n < 0x1_0000
  type uint32 = n: int | 0 <= n < 0x1_0000_0000

  const INT32_MAX := 0x7FFF_FFFF
  const UINT32_MAX := 0xFFFF_FFFF

  /** The error numbers the modelled code returns, by name: their numeric
      values depend on the C library. */
  datatype Errno =
    | ENOENT | EINVAL | ENOTSUP | EOVERFLOW | ENOMEM | EPERM | EIO | E2BIG | EBADMSG | ENAMETOOLONG

  datatype Status = Ok | Err(errno: Errno)

  datatype Result<+T> = Success(result: T) | Failure(error: Errno) {
    function Code(): Status {
      match this
      case Success(_) => Ok
      case Failure(e) => Err(e)
    }

    function ToOption(): Option<T> {
      match this
      case Success(value) => Some(value)
      case Failure(_) => None
    }
  }

  /** A C string: a character stands for a byte. */
  predicate IsByteText(s: string) {
    forall i :: 0 <= i < |s| ==> s[i] as int < 0x100
  }

  type Text = s: string | IsByteText(s)

  function Min(a: int, b: int): int {
    if a < b then a else b
  }
}
