/** The configuration of a `CaptchaGenerator` and its copy-on-write builders
    (src/CaptchaGenerator.php:15-151) with the font set
    (src/CaptchaGenerator.php:240-254). Each builder returns a new value; the
    receiver is an immutable value here, so it is trivially left unchanged. */
module Settings {
  import opened Results
  import opened PhpMath
  import opened Color

  datatype ImageType = Png | Jpeg | Gif | Webp

  /** The generator's private fields. The font set is the keys of `$fonts`
      (each key maps to itself) in insertion order. Densities are kept as
      exact reals. */
  datatype Config = Config(
    amplitude: int,
    credits: Option<string>,
    fonts: seq<string>,
    background: Option<Rgb>,
    foreground: Option<Rgb>,
    whiteDensity: real,
    blackDensity: real,
    spaces: bool,
    width: int,
    height: int,
    kind: ImageType,
    quality: int)

  /** No font path appears twice: the font set is keyed by path. */
  predicate Distinct(fonts: seq<string>)
  {
    forall i, j :: 0 <= i < j < |fonts| ==> fonts[i] != fonts[j]
  }

  /** The quality values a type allows after its `as*` builder. */
  predicate QualityFits(kind: ImageType, quality: int)
  {
    match kind
    case Png => 1 <= quality <= 9
    case Jpeg => 1 <= quality <= 100
    case Webp => 1 <= quality <= 100
    case Gif => quality == 0
  }

  /** What the builders maintain. Width and height are not constrained:
      `withSize` stores them as given. */
  predicate Valid(c: Config)
  {
    && c.amplitude >= 0
    && Distinct(c.fonts)
    && (c.background.Some? ==> InRange(c.background.value))
    && (c.foreground.Some? ==> InRange(c.foreground.value))
    && 0.0 <= c.whiteDensity <= 1.0
    && 0.0 <= c.blackDensity <= 1.0
    && QualityFits(c.kind, c.quality)
  }

  // ---------------------------------------------------------------------------
  // The font set

  /** `addFont`: with `unsetOther` the set is emptied first; an already
      present path keeps its place. */
  function AddFont(fonts: seq<string>, font: string, unsetOther: bool := false): (r: seq<string>)
    ensures unsetOther ==> r == [font]
    ensures !unsetOther ==> (forall f :: f in r <==> f in fonts || f == font)
    ensures !unsetOther && font in fonts ==> r == fonts
    ensures Distinct(fonts) ==> Distinct(r)
  {
    if unsetOther then [font]
    else if font in fonts then fonts
    else fonts + [font]
  }

  /** `removeFont`: the path is dropped, the others keep their order. */
  function RemoveFont(fonts: seq<string>, font: string): (r: seq<string>)
    ensures forall f :: f in r <==> f in fonts && f != font
    ensures font !in fonts ==> r == fonts
    ensures Distinct(fonts) ==> Distinct(r)
    decreases |fonts|
  {
    if fonts == [] then []
    else if fonts[0] == font then RemoveFont(fonts[1..], font)
    else
      var rest := RemoveFont(fonts[1..], font);
      assert fonts == [fonts[0]] + fonts[1..];
      assert Distinct(fonts) ==> fonts[0] !in fonts[1..];
      [fonts[0]] + rest
  }

  /** Adding a font twice is adding it once. */
  lemma AddFontIdempotent(fonts: seq<string>, font: string, unsetOther: bool)
    ensures AddFont(AddFont(fonts, font, unsetOther), font, unsetOther) == AddFont(fonts, font, unsetOther)
  {
  }

  /** Removing a font that was just added to a set without it restores the
      set. */
  lemma {:induction false} RemoveUndoesAdd(fonts: seq<string>, font: string)
    requires font !in fonts
    ensures RemoveFont(AddFont(fonts, font, false), font) == fonts
    decreases |fonts|
  {
    if fonts != [] {
      assert (fonts + [font])[1..] == fonts[1..] + [font];
      RemoveUndoesAdd(fonts[1..], font);
    } else {
      assert RemoveFont([font], font) == RemoveFont([], font);
    }
  }

  // ---------------------------------------------------------------------------
  // Construction and builders

  const FontNames: seq<string> := ["palatino_linotype_bold.png", "perpetua_bold.png", "times_bold.png"]

  /** The constructor: three bundled fonts under `fontsDir`, amplitude 8,
      densities 1/6 and 1/30, 160 x 80, png at quality 1, no overrides. */
  function Default(fontsDir: string): (c: Config)
    ensures c.fonts == [fontsDir + FontNames[0], fontsDir + FontNames[1], fontsDir + FontNames[2]]
    ensures Valid(c)
  {
    var f0, f1, f2 := fontsDir + FontNames[0], fontsDir + FontNames[1], fontsDir + FontNames[2];
    assert f0 != f1 by { assert f0[|fontsDir| + 1] != f1[|fontsDir| + 1]; }
    assert f0 != f2 by { assert f0[|fontsDir|] != f2[|fontsDir|]; }
    assert f1 != f2 by { assert f1[|fontsDir|] != f2[|fontsDir|]; }
    var fonts := AddFont(AddFont(AddFont([], f0, false), f1, false), f2, false);
    Config(8, None, fonts, None, None, 1.0 / 6.0, 1.0 / 30.0, false, 160, 80, Png, 1)
  }

  function WithSize(c: Config, width: int, height: int): (r: Config)
    ensures r == c.(width := width, height := height)
    ensures Valid(c) ==> Valid(r)
  {
    c.(width := width, height := height)
  }

  function WithBackgroundColor(c: Config, red: int, green: int, blue: int): (r: Config)
    ensures r == c.(background := r.background)
    ensures r.background.Some? && InRange(r.background.value)
    ensures Channel(red) && Channel(green) && Channel(blue) ==> r.background == Some(Rgb(red, green, blue))
    ensures Valid(c) ==> Valid(r)
  {
    c.(background := Some(ClampRgb(red, green, blue)))
  }

  function WithForegroundColor(c: Config, red: int, green: int, blue: int): (r: Config)
    ensures r == c.(foreground := r.foreground)
    ensures r.foreground.Some? && InRange(r.foreground.value)
    ensures Channel(red) && Channel(green) && Channel(blue) ==> r.foreground == Some(Rgb(red, green, blue))
    ensures Valid(c) ==> Valid(r)
  {
    c.(foreground := Some(ClampRgb(red, green, blue)))
  }

  function WithCredits(c: Config, credits: Option<string>): (r: Config)
    ensures r == c.(credits := credits)
    ensures Valid(c) ==> Valid(r)
  {
    c.(credits := credits)
  }

  function WithSpaces(c: Config, spaces: bool := true): (r: Config)
    ensures r == c.(spaces := spaces)
    ensures Valid(c) ==> Valid(r)
  {
    c.(spaces := spaces)
  }

  function WithFluctuationAmplitude(c: Config, amplitude: int): (r: Config)
    ensures r == c.(amplitude := r.amplitude)
    ensures r.amplitude >= 0 && (amplitude >= 0 ==> r.amplitude == amplitude) && (amplitude < 0 ==> r.amplitude == 0)
    ensures Valid(c) ==> Valid(r)
  {
    c.(amplitude := Max(0, amplitude))
  }

  function WithWhiteNoiseDensity(c: Config, density: real): (r: Config)
    ensures r == c.(whiteDensity := r.whiteDensity)
    ensures r.whiteDensity == ClampReal(density, 0.0, 1.0)
    ensures Valid(c) ==> Valid(r)
  {
    c.(whiteDensity := ClampReal(density, 0.0, 1.0))
  }

  function WithBlackNoiseDensity(c: Config, density: real): (r: Config)
    ensures r == c.(blackDensity := r.blackDensity)
    ensures r.blackDensity == ClampReal(density, 0.0, 1.0)
    ensures Valid(c) ==> Valid(r)
  {
    c.(blackDensity := ClampReal(density, 0.0, 1.0))
  }

  function WithFont(c: Config, font: string, unsetOther: bool := false): (r: Config)
    ensures r == c.(fonts := AddFont(c.fonts, font, unsetOther))
    ensures Valid(c) ==> Valid(r)
  {
    c.(fonts := AddFont(c.fonts, font, unsetOther))
  }

  function WithoutFont(c: Config, font: string): (r: Config)
    ensures r == c.(fonts := RemoveFont(c.fonts, font))
    ensures Valid(c) ==> Valid(r)
  {
    c.(fonts := RemoveFont(c.fonts, font))
  }

  /** `asPng`: quality clamped to [1, 9]. */
  function AsPng(c: Config, quality: int := 9): (r: Config)
    ensures r == c.(kind := Png, quality := r.quality)
    ensures QualityFits(Png, r.quality) && (1 <= quality <= 9 ==> r.quality == quality)
    ensures quality < 1 ==> r.quality == 1
    ensures quality > 9 ==> r.quality == 9
    ensures Valid(c) ==> Valid(r)
  {
    c.(kind := Png, quality := Clamp(quality, 1, 9))
  }

  /** `asJpeg`: quality clamped to [1, 100]. */
  function AsJpeg(c: Config, quality: int := 100): (r: Config)
    ensures r == c.(kind := Jpeg, quality := r.quality)
    ensures QualityFits(Jpeg, r.quality) && (1 <= quality <= 100 ==> r.quality == quality)
    ensures quality < 1 ==> r.quality == 1
    ensures quality > 100 ==> r.quality == 100
    ensures Valid(c) ==> Valid(r)
  {
    c.(kind := Jpeg, quality := Clamp(quality, 1, 100))
  }

  /** `asWebp`: quality clamped to [1, 100]. */
  function AsWebp(c: Config, quality: int := 100): (r: Config)
    ensures r == c.(kind := Webp, quality := r.quality)
    ensures QualityFits(Webp, r.quality) && (1 <= quality <= 100 ==> r.quality == quality)
    ensures quality < 1 ==> r.quality == 1
    ensures quality > 100 ==> r.quality == 100
    ensures Valid(c) ==> Valid(r)
  {
    c.(kind := Webp, quality := Clamp(quality, 1, 100))
  }

  /** `asGif`: quality forced to 0. */
  function AsGif(c: Config): (r: Config)
    ensures r == c.(kind := Gif, quality := 0)
    ensures Valid(c) ==> Valid(r)
  {
    c.(kind := Gif, quality := 0)
  }

  // ---------------------------------------------------------------------------
  // The encoder call

  /** The encoder `generate` calls and the number it passes: png gets the
      compression level 9 - quality, jpeg and webp the quality, gif nothing. */
  datatype Encoding = Encoding(kind: ImageType, parameter: Option<int>)

  function Encoder(c: Config): (e: Encoding)
    ensures e.kind == c.kind
    ensures Valid(c) && c.kind == Png ==> e.parameter.Some? && 0 <= e.parameter.value <= 8
    ensures Valid(c) && (c.kind == Jpeg || c.kind == Webp) ==>
              e.parameter.Some? && 1 <= e.parameter.value <= 100
    ensures e.parameter.None? <==> c.kind == Gif
    ensures c.kind == Jpeg || c.kind == Webp ==> e.parameter == Some(c.quality)
  {
    match c.kind
    case Gif => Encoding(Gif, None)
    case Webp => Encoding(Webp, Some(c.quality))
    case Jpeg => Encoding(Jpeg, Some(c.quality))
    case Png => Encoding(Png, Some(9 - c.quality))
  }

  /** The jpeg quality given to `asJpeg` reaches the encoder unchanged. */
  lemma JpegQualityRoundTrip(c: Config, quality: int)
    requires 1 <= quality <= 100
    ensures Encoder(AsJpeg(c, quality)).parameter == Some(quality)
  {
  }

  /** The webp quality given to `asWebp` reaches the encoder unchanged. */
  lemma WebpQualityRoundTrip(c: Config, quality: int)
    requires 1 <= quality <= 100
    ensures Encoder(AsWebp(c, quality)).parameter == Some(quality)
  {
  }

  /** The png compression level undoes to the quality the builder stored. */
  lemma PngLevelRoundTrip(c: Config, quality: int)
    requires 1 <= quality <= 9
    ensures Encoder(AsPng(c, quality)).parameter == Some(9 - quality)
  {
  }

  /** The builders' default arguments: png at quality 9, which the encoder
      receives as compression level 0; jpeg and webp at 100; spacing on; a
      font added to the set rather than replacing it. */
  lemma BuilderDefaults(c: Config, font: string)
    ensures AsPng(c).quality == 9 && Encoder(AsPng(c)).parameter == Some(0)
    ensures AsJpeg(c).quality == 100 && AsWebp(c).quality == 100
    ensures WithSpaces(c).spaces
    ensures font in WithFont(c, font).fonts && forall f :: f in c.fonts ==> f in WithFont(c, font).fonts
  {
  }
}
