/** Colours as the LED strip stores them. */
module Colors {

  /** The fourth element of a four-element colour: a brightness value that the
      model does not compute with, so it is kept as an opaque tag. */
  datatype Brightness = Brightness(tag: string)

  /** An RGB triple, or an RGB triple with a brightness tag. */
  datatype Color =
    | Rgb(r: int, g: int, b: int)
    | RgbBright(r: int, g: int, b: int, brightness: Brightness)

  /** The colour the strip's pixels hold before anything is written to them. */
  const Off: Color := Rgb(0, 0, 0)
}
