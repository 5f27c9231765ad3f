/** Failure-carrying return values shared by the four models, the Linux
    error numbers they report, and the kernel's fixed-width unsigned integers.
    A kernel function that returns `-EINVAL` is modelled as returning
    `Err(EINVAL)`. */
module Wrappers {

  /** `u64`, `u32`, `u16` and `u8` as bounded naturals; wrap-around is written
      out with `%` where the source relies on it. */
  const U64_LIMIT: int := 0x1_0000_0000_0000_0000
  const U32_LIMIT: int := 0x1_0000_0000
  type U64 = x: int | 0 <= x < U64_LIMIT
  type U32 = x: int | 0 <= x < U32_LIMIT
  type U16 = x: int | 0 <= x < 0x1_0000
  type U8 = x: int | 0 <= x < 0x100

  /** A value that may be absent, in place of NULL. */
  datatype Option<+T> = None | Some(value: T)

  /** A kernel return: a value, or the (positive) number of the errno the
      kernel returns negated. */
  datatype Result<+T> = Ok(value: T) | Err(errno: int) {
    predicate IsFailure() { Err? }

    function PropagateFailure<U>(): Result<U>
      requires Err?
    {
      Err(errno)
    }

    function Extract(): T
      requires Ok?
    {
      value
    }
  }

  const ENOENT := 2
  const EINTR := 4
  const EIO := 5
  const EAGAIN := 11
  const ENOMEM := 12
  const EFAULT := 14
  const EBUSY := 16
  const EEXIST := 17
  const EINVAL := 22
  const ENOSPC := 28
  const ECONNRESET := 104
  const ESHUTDOWN := 108
  /** Kernel-internal: an interrupted sleep that the syscall layer restarts. */
  const ERESTARTSYS := 512
}
