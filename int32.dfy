/** C# `int`: the 32-bit two's-complement range and the wrap-around of unchecked
    arithmetic. */
module CSharpInt {

  const Int32Min: int := -0x8000_0000
  const Int32Max: int := 0x7fff_ffff

  newtype int32 = x: int | -0x8000_0000 <= x < 0x8000_0000

  /** `x` brought into the 32-bit range the way unchecked C# arithmetic wraps it. */
  function Wrap(x: int): (r: int32)
    ensures (r as int - x) % 0x1_0000_0000 == 0
    ensures Int32Min <= x <= Int32Max ==> r as int == x
  {
    ((x + 0x8000_0000) % 0x1_0000_0000 - 0x8000_0000) as int32
  }
}
