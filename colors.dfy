/** The colour value types shared by every part of the program: an 8-bit
    RGB colour and the pixel layouts the palette quantizer understands. */
module Colors {

  /** An unsigned 8-bit channel value. */
  type byte = x: int | 0 <= x < 256

  /** Three 8-bit channels; equality is channel-wise. */
  datatype Color = Color(r: byte, g: byte, b: byte)

  /** The byte layout of one pixel in a raw image buffer. */
  datatype ColorFormat = Rgb | Rgba | Argb | Bgr | Bgra

  const Black: Color := Color(0, 0, 0)
  const White: Color := Color(255, 255, 255)

  datatype Option<T> = None | Some(value: T)

  datatype Result<T, E> = Ok(value: T) | Err(error: E)
}
