/** Machine-level value types shared by the whole model: the wire byte, the
    fixed-width integers of the C++ source, and an optional value. */
module Common {

  /** One octet on the wire (`uint8`). */
  newtype byte = x: int | 0 <= x < 0x100

  /** `int32`: the type of header sizes, byte counts and buffer positions. */
  newtype int32 = x: int | -0x8000_0000 <= x < 0x8000_0000

  /** `int16`: the type of the header's message identifier. */
  newtype int16 = x: int | -0x8000 <= x < 0x8000

  /** A value that may be absent (a null shared pointer in the source). */
  datatype Option<T> = None | Some(value: T)

  /** Two's-complement truncation of an unbounded integer to 32 bits. Signed
      overflow is undefined in C++; this is the value the compiled code yields
      on a two's-complement target. */
  function Wrap32(x: int): (r: int32)
    ensures (r as int - x) % 0x1_0000_0000 == 0
    ensures -0x8000_0000 <= x < 0x8000_0000 ==> r as int == x
  {
    var m := x % 0x1_0000_0000;
    if m < 0x8000_0000 then m as int32 else (m - 0x1_0000_0000) as int32
  }
}
