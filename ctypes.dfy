/** Bounded integer types standing for the C++ machine types the header uses. */
module CTypes {

  /** Largest value of a 64-bit size_t. */
  const SIZE_MAX: int := 0xFFFF_FFFF_FFFF_FFFF

  /** Largest value of a 32-bit unsigned int. */
  const UINT_MAX: int := 0xFFFF_FFFF

  /** size_t: a natural number that fits a 64-bit machine word. */
  type SizeT = n: int | 0 <= n <= SIZE_MAX

  /** unsigned int: a natural number that fits a 32-bit machine word. */
  type UInt = n: int | 0 <= n <= UINT_MAX

  function Min(x: int, y: int): int { if x <= y then x else y }

  function Max(x: int, y: int): int { if x <= y then y else x }
}
