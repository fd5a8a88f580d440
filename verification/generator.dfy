/** `CaptchaGenerator::generate` (src/CaptchaGenerator.php:153-191): input
    validation, then the pipeline from the chosen font to the encoder call.

    Pixel work that GD does (the `imagecopy` blits, the resample kernel, the
    displacement field, encoding) is represented by what the model can state
    about it: the blit list, the mask and canvas sizes, the resample branch,
    the noise buffer and point counts, the colours and the encoder
    parameter. Random draws are parameters in the ranges `mt_rand` and
    `array_rand` draw them from. */
module Generator {
  import opened Results
  import Alphabet
  import FontAtlas
  import Layout
  import Pcre
  import opened Color
  import opened Settings

  /** Why `generate` fails. `UnsupportedCharacters` carries the alphabet
      string, as the exception does; `NoFont` is `array_rand` on an empty font
      set; `InvalidSize` is GD refusing an image with a side below one pixel. */
  datatype GenError = UnsupportedCharacters(alphabet: string) | NoFont | InvalidSize

  // ---------------------------------------------------------------------------
  // Validation

  /** The body `[0-9a-z]+` of the validation pattern; with the `i` modifier
      an upper-case ASCII letter matches too. */
  predicate SymbolRun(t: string)
  {
    |t| > 0 && forall i :: 0 <= i < |t| ==> Alphabet.IsSymbol(Alphabet.LowerChar(t[i]))
  }

  /** The check as written: the lower-cased text must match `^[...]+$`,
      whose `$` also matches before a final newline. */
  function ValidatesAsWritten(text: string): (r: bool)
    ensures Validates(text) ==> r
    ensures r ==> |text| > 0
    ensures r ==> forall i :: 0 <= i < |text| - 1 ==> Alphabet.IsSymbol(Alphabet.LowerChar(text[i]))
  {
    var t := Alphabet.Lower(text);
    assert Validates(text) <==> SymbolRun(t);
    Pcre.AnchoredMatch(SymbolRun, t)
  }

  /** The check `drawText` relies on: the text is non-empty and every
      character lower-cases to an alphabet symbol. */
  predicate Validates(text: string)
  {
    |text| > 0 && forall i :: 0 <= i < |text| ==> Alphabet.IsSymbol(Alphabet.LowerChar(text[i]))
  }

  /** The written check accepts exactly the texts the intended one accepts,
      plus each of those followed by one newline. */
  lemma ValidatesAsWrittenIff(text: string)
    ensures ValidatesAsWritten(text) <==>
              Validates(text) || (Pcre.EndsInNewline(text) && Validates(text[..|text| - 1]))
  {
    var t := Alphabet.Lower(text);
    assert Validates(text) <==> SymbolRun(t);
    if Pcre.EndsInNewline(text) {
      var u := text[..|text| - 1];
      assert t[..|t| - 1] == Alphabet.Lower(u);
      assert Validates(u) <==> SymbolRun(Alphabet.Lower(u));
    }
  }

  /** The written check lets "ab\n" through, though no atlas has a glyph for
      its newline, so `drawText` indexes a missing letter. */
  lemma NewlineSlipsThrough()
    ensures ValidatesAsWritten("ab\n")
    ensures !Validates("ab\n")
    ensures forall a :: !FontAtlas.Covers(a, Alphabet.Lower("ab\n"))
  {
    var t := Alphabet.Lower("ab\n");
    assert t == "ab\n";
    assert t[..2] == "ab";
    assert SymbolRun("ab");
    assert !Alphabet.IsSymbol(t[2]);
  }

  /** Against a complete atlas, the corrected check accepts exactly the
      non-empty texts every lower-cased character of which has a glyph. */
  lemma ValidatedTextIsCovered(text: string, a: FontAtlas.Atlas)
    requires |a.glyphs| == Alphabet.Size
    ensures Validates(text) <==> |text| > 0 && FontAtlas.Covers(a, Alphabet.Lower(text))
  {
  }

  // ---------------------------------------------------------------------------
  // The pipeline

  /** What `getFont` reads from a font file: row 0 (true where transparent)
      and the image height. */
  datatype FontImage = FontImage(row: seq<bool>, height: int)

  function AtlasOf(img: FontImage): FontAtlas.Atlas
  {
    FontAtlas.Decode(img.row, img.height)
  }

  /** Every font of the set is a readable atlas with all 36 glyphs. The code
      has no error for a short atlas: a missing glyph is an undefined index
      in `drawText`, so a complete atlas is the caller's obligation. */
  predicate FontsLoad(c: Config, files: map<string, FontImage>)
  {
    forall f :: f in c.fonts ==> f in files && |AtlasOf(files[f]).glyphs| == Alphabet.Size
  }

  /** The random draws of one call: the `array_rand` index, the sign bit, one
      vertical offset and one shift per character, and the two colours. */
  datatype Draws = Draws(font: nat, oddBit: int, offsets: seq<int>, shifts: seq<int>,
                         foreground: Rgb, background: Rgb)

  /** Each draw lies in the range the source draws it from. */
  predicate DrawsFit(c: Config, text: string, d: Draws)
  {
    && c.amplitude >= 0
    && (|c.fonts| > 0 ==> d.font < |c.fonts|)
    && (d.oddBit == 0 || d.oddBit == 1)
    && |d.offsets| == |text| && |d.shifts| == |text|
    && (forall i :: 0 <= i < |d.offsets| ==>
          -Layout.JitterBound(c.amplitude) <= d.offsets[i] <= Layout.JitterBound(c.amplitude))
    && (c.spaces ==> forall i :: 0 <= i < |d.shifts| ==> -10 <= d.shifts[i] <= -3)
    && Within(d.foreground, 0, 80)
    && Within(d.background, 220, 255)
  }

  /** What one successful call lays out and hands to GD. */
  datatype Plan = Plan(
    font: string,
    atlas: FontAtlas.Atlas,
    steps: seq<Layout.Blit>,
    textWidth: int,
    mask: Layout.Size,
    placement: Layout.Placement,
    noiseWidth: int,
    whiteNoise: nat,
    blackNoise: nat,
    foreground: Rgb,
    background: Rgb,
    canvas: Layout.Size,
    encoding: Encoding)

  /** `generate`: validation first, then `array_rand` on the font set, then
      the text layout and the canvas, each failing in that order. */
  method Generate(c: Config, text: string, files: map<string, FontImage>, d: Draws)
    returns (r: Result<Plan, GenError>)
    requires Valid(c) && FontsLoad(c, files) && DrawsFit(c, text, d)
    ensures r == Err(UnsupportedCharacters(Alphabet.Symbols)) <==> !Validates(text)
    ensures r == Err(NoFont) <==> Validates(text) && c.fonts == []
    ensures r == Err(InvalidSize) <==> Validates(text) && c.fonts != [] && (c.width < 1 || c.height < 1)
    ensures r.Ok? ==>
              var p := r.value;
              var t := Alphabet.Lower(text);
              && p.font == c.fonts[d.font]
              && p.atlas == AtlasOf(files[p.font])
              && FontAtlas.Covers(p.atlas, t)
              && |p.steps| == |text|
              && (forall i :: 0 <= i < |text| ==>
                    && p.steps[i].srcX == FontAtlas.GlyphOf(p.atlas, t[i]).start
                    && p.steps[i].srcW == Layout.GlyphWidth(p.atlas, t[i])
                    && 0 <= p.steps[i].dstX && p.steps[i].dstX + p.steps[i].srcW <= p.textWidth)
              && p.textWidth == Layout.Cursor(t, p.atlas, c.spaces, d.shifts, |t|) >= 1
              && p.mask == Layout.MaskSize(p.textWidth, c.height)
              && p.placement == Layout.Place(p.textWidth, c.width)
              && p.noiseWidth == Layout.NoiseBufferWidth(p.textWidth, c.width)
              && p.whiteNoise == Layout.NoiseCount(c.height, p.noiseWidth, c.whiteDensity)
              && p.blackNoise == Layout.NoiseCount(c.height, p.noiseWidth, c.blackDensity)
              && p.foreground == (if c.foreground.Some? then c.foreground.value else d.foreground)
              && p.background == (if c.background.Some? then c.background.value else d.background)
              && InRange(p.foreground) && InRange(p.background)
              && p.canvas == Layout.Size(c.width, c.height)
              && p.encoding == Encoder(c)
  {
    if !Validates(text) {
      return Err(UnsupportedCharacters(Alphabet.Symbols));
    }
    if c.fonts == [] {
      return Err(NoFont);
    }
    var font := c.fonts[d.font];
    var atlas := AtlasOf(files[font]);
    var t := Alphabet.Lower(text);
    ValidatedTextIsCovered(text, atlas);
    var steps, width := Layout.DrawText(t, atlas, c.amplitude, c.height, c.spaces, d.oddBit, d.offsets, d.shifts);
    if c.width < 1 || c.height < 1 {
      return Err(InvalidSize);
    }
    var noiseWidth := Layout.NoiseBufferWidth(width, c.width);
    var fg := if c.foreground.Some? then c.foreground.value else d.foreground;
    var bg := if c.background.Some? then c.background.value else d.background;
    r := Ok(Plan(font, atlas, steps, width, Layout.MaskSize(width, c.height), Layout.Place(width, c.width),
                 noiseWidth,
                 Layout.NoiseCount(c.height, noiseWidth, c.whiteDensity),
                 Layout.NoiseCount(c.height, noiseWidth, c.blackDensity),
                 fg, bg, Layout.Size(c.width, c.height), Encoder(c)));
  }
}
