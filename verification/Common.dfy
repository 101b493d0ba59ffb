/** Results, options and the machine-word limits shared by every component. */
module Common {

  datatype Option<+T> = None | Some(value: T)

  datatype Result<+T, +E> = Success(value: T) | Failure(error: E)

  const U32_MAX: nat := 0xffff_ffff
  const U64_MAX: nat := 0xffff_ffff_ffff_ffff

  type u32 = x: int | 0 <= x <= U32_MAX
  type u64 = x: int | 0 <= x <= U64_MAX

  function MaxOf(x: int, y: int): int {
    if x >= y then x else y
  }

  function MinOf(x: int, y: int): int {
    if x <= y then x else y
  }
}
