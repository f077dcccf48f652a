/** Machine integers and a few definitions shared by the other modules. */
module Basics {
  const TWO16 := 0x1_0000
  const TWO31 := 0x8000_0000
  const TWO32 := 0x1_0000_0000
  const TWO48 := 0x1_0000_0000_0000
  const TWO64 := 0x1_0000_0000_0000_0000

  /** A C `int`. */
  type Int32 = x: int | -TWO31 <= x < TWO31

  /** What a C `int` holds after being assigned x. */
  function S32(x: int): Int32 {
    (x + TWO31) % TWO32 - TWO31
  }

  /** No CPU. */
  const INVALID_CPUID := -1

  datatype Option<T> = None | Some(value: T)

  predicate Distinct<T(==)>(s: seq<T>) {
    forall i, j :: 0 <= i < j < |s| ==> s[i] != s[j]
  }
}
