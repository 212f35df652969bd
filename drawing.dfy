/** Value types of System.Drawing that the background filter reads and writes. */
module Drawing {

  /** One 8-bit colour channel: Color.A, Color.R, Color.G and Color.B are bytes. */
  type Byte = x: int | 0 <= x < 256

  /** An ARGB colour. The name a .NET Color may carry (a "known colour") is not modelled. */
  datatype Color = Color(a: Byte, r: Byte, g: Byte, b: Byte)

  /** Color.Transparent: alpha 0 over white, ARGB (0, 255, 255, 255). */
  const Transparent: Color := Color(0, 255, 255, 255)

  /** Color.FromArgb(red, green, blue): the three-argument overload makes an opaque colour.
      Its out-of-range exception cannot happen here, since the channels are typed as Byte. */
  function FromRgb(red: Byte, green: Byte, blue: Byte): Color
  {
    Color(255, red, green, blue)
  }

  /** A pixel coordinate. */
  datatype Point = Point(x: int, y: int)
}
