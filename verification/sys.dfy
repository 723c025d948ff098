/** Integer widths, the byte type and the error convention shared by every
    wrapper in the POSIX layer of the subprocess library. */
module Sys {

  /** One byte of an `OsStr` (Unix paths and arguments are raw bytes). */
  type byte = b: int | 0 <= b < 0x100

  const I32_MIN: int := -0x8000_0000
  const I32_MAX: int := 0x7FFF_FFFF

  /** C `int`, `pid_t` and Rust `i32`. */
  type i32 = x: int | I32_MIN <= x <= I32_MAX

  /** Rust `u32`, the type of process identifiers and exit codes handed to callers. */
  type u32 = x: int | 0 <= x < 0x1_0000_0000

  const NUL: byte := 0
  const SLASH: byte := 47   // '/'
  const COLON: byte := 58   // ':'

  /** `EINVAL` as defined by Linux; the code reported for a string with an embedded NUL. */
  const EINVAL: int := 22

  /** `std::io::Error` as this layer produces it: always an OS error code. */
  datatype Error = OsError(code: int)

  /** `std::io::Result`. */
  datatype Result<T> = Ok(value: T) | Err(error: Error) {
    predicate IsFailure() { Err? }

    function PropagateFailure<U>(): Result<U>
      requires Err?
    {
      Err(error)
    }

    function Extract(): T
      requires Ok?
    {
      value
    }
  }

  datatype Option<T> = None | Some(value: T)

  /** Rust's `x as u32` on a signed 32-bit value: two's-complement reinterpretation. */
  function AsU32(x: i32): u32 { x % 0x1_0000_0000 }

  /** Rust's `x as u8` on a signed 32-bit value: keeps the low eight bits. */
  function AsU8(x: i32): byte { x % 0x100 }

  /** `check_err`: the raw syscall convention "negative means failure, and the
      reason is in errno".  `errno` stands for the value `Error::last_os_error()`
      reads at that moment. */
  function CheckErr(num: int, errno: int): (r: Result<int>)
    ensures r.Ok? <==> 0 <= num
    ensures r.Ok? ==> r.value == num
    ensures r.Err? ==> r.error == OsError(errno)
  {
    if num < 0 then Err(OsError(errno)) else Ok(num)
  }
}
