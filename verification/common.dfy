/** Small value types shared by the whole model: Go's optional/nil values and
    its fixed-width integers. */
module Common {

  /** A Go value that may be nil (a nil reference, slice or interface). */
  datatype Option<T> = None | Some(value: T)

  /** Go's `byte`. */
  type byte = x: int | 0 <= x < 0x100

  /** Go's `uint16`, `uint32` and `uint64`. */
  type uint16 = x: int | 0 <= x < 0x1_0000
  type uint32 = x: int | 0 <= x < 0x1_0000_0000
  type uint64 = x: int | 0 <= x < 0x1_0000_0000_0000_0000

  const TwoTo63: int := 0x8000_0000_0000_0000
  const TwoTo64: int := 0x1_0000_0000_0000_0000

  /** Go's conversion `int64(x)` of a `uint64`: the bits are kept, so values
      from 2^63 upwards come out negative. */
  function ToInt64(x: uint64): (r: int)
    ensures -TwoTo63 <= r < TwoTo63
    ensures r >= 0 <==> x < TwoTo63
    ensures x < TwoTo63 ==> r == x
  {
    if x < TwoTo63 then x else x - TwoTo64
  }

  function Min(a: int, b: int): (r: int)
    ensures r <= a && r <= b && (r == a || r == b)
  {
    if a <= b then a else b
  }
}
