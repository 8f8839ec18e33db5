/** Colour values as four 8-bit channels, in the manner of `System.Drawing.Color`. */
module Colors {

  type byte = x: int | 0 <= x < 256

  const Opaque: byte := 255

  datatype Color = Color(a: byte, r: byte, g: byte, b: byte)

  /** `Color.FromArgb(r, g, b)`: the three-argument form is fully opaque. */
  function FromRgb(r: byte, g: byte, b: byte): Color
  {
    Color(Opaque, r, g, b)
  }

  /** `Color.Empty`, all four channels zero. */
  const Empty: Color := Color(0, 0, 0, 0)
}
