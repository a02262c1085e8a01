/** Bytes and colours shared by every part of the model. */
module Colors {

  /// An unsigned 8-bit value (uint8_t).
  type byte = x: int | 0 <= x < 256

  /// One pixel or led colour (ColorRgb).
  datatype Color = Color(red: byte, green: byte, blue: byte)

  /// The colours of all leds at one moment.
  type Frame = seq<Color>

  datatype Channel = Red | Green | Blue

  const BLACK := Color(0, 0, 0)

  function Get(c: Color, ch: Channel): byte {
    match ch
    case Red => c.red
    case Green => c.green
    case Blue => c.blue
  }

  function Abs(x: int): nat { if x < 0 then -x else x }
  function Min(a: int, b: int): int { if a <= b then a else b }
  function Max(a: int, b: int): int { if a <= b then b else a }

  function Zeros(n: nat): seq<byte> { seq(n, i => 0) }
}
