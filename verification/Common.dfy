/** What several of the models share. */
module Common {

  datatype Option<T> = None | Some(value: T)

  // The end of a C string.
  const NUL: char := '\0'

  type Byte = b: int | 0 <= b < 256

  // The Bound of common.h:373: x cut off below at m and above at M.
  function Bound(x: int, m: int, M: int): int {
    if x < m then m else if x > M then M else x
  }

  lemma Scaled(x: int, y: int, k: nat)
    requires x <= y
    ensures x * k <= y * k && k * x <= k * y
  {}
}
