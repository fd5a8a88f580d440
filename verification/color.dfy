/** Colours as the generator passes them around: `[red, green, blue]`
    arrays. */
module Color {
  import opened PhpMath

  datatype Rgb = Rgb(red: int, green: int, blue: int)

  predicate Channel(v: int)
  {
    0 <= v <= 255
  }

  predicate InRange(c: Rgb)
  {
    Channel(c.red) && Channel(c.green) && Channel(c.blue)
  }

  /** Every channel clamped to [0, 255], as the colour builders do. */
  function ClampRgb(red: int, green: int, blue: int): (c: Rgb)
    ensures InRange(c)
    ensures Channel(red) && Channel(green) && Channel(blue) ==> c == Rgb(red, green, blue)
  {
    Rgb(Clamp(red, 0, 255), Clamp(green, 0, 255), Clamp(blue, 0, 255))
  }

  /** Every channel lies in [lo, hi]: the ranges the random colours are drawn
      from. */
  predicate Within(c: Rgb, lo: int, hi: int)
  {
    lo <= c.red <= hi && lo <= c.green <= hi && lo <= c.blue <= hi
  }
}
