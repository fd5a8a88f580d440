/** Text layout of `CaptchaGenerator::drawText` (src/CaptchaGenerator.php:322-412)
    and the noise ranges of `drawNoise` (src/CaptchaGenerator.php:226-238).

    Every `mt_rand` result is a parameter constrained to the range the source
    draws it from. The `imagecopy` / `imagecopyresampled` calls are modelled
    by their rectangles only. */
module Layout {
  import Alphabet
  import FontAtlas
  import opened PhpMath

  // ---------------------------------------------------------------------------
  // Vertical jitter

  /** The sign drawn once per text: `mt_rand(0, 1)` with 0 replaced by -1. */
  function Odd(bit: int): (odd: int)
    requires bit == 0 || bit == 1
    ensures odd == -1 || odd == 1
    ensures (odd == 1) <==> (bit == 1)
  {
    if bit == 0 then -1 else 1
  }

  /** PHP's `round` of a non-negative value: halves go away from zero. */
  function RoundNonNeg(x: real): int
    requires x >= 0.0
  {
    (x + 0.5).Floor
  }

  /** `(int)round(A / 3)`: the bound of the per-glyph vertical offset. */
  function JitterBound(amplitude: nat): (j: int)
    ensures 0 <= j && -1 <= 3 * j - amplitude <= 1
  {
    (amplitude + 1) / 3
  }

  /** JitterBound is PHP's rounding of A / 3. */
  lemma JitterBoundIsRound(amplitude: nat)
    ensures JitterBound(amplitude) == RoundNonNeg(amplitude as real / 3.0)
  {
    var j := JitterBound(amplitude);
    var x := amplitude as real / 3.0 + 0.5;
    assert 3.0 * x == amplitude as real + 1.5;
    assert j as real <= x < (j + 1) as real by {
      assert 3 * j <= amplitude + 1 < 3 * j + 3;
    }
  }

  /** `$jump`: the alternating vertical displacement of glyph i, half the
      amplitude up or down. */
  function Jump(i: nat, amplitude: nat, odd: int): real
  {
    ((i % 2) as real * amplitude as real - amplitude as real / 2.0) * odd as real
  }

  /** Consecutive glyphs jump in opposite directions by half the amplitude, the
      first one against the drawn sign. */
  lemma JumpAlternates(i: nat, amplitude: nat, odd: int)
    requires odd == -1 || odd == 1
    ensures Jump(0, amplitude, odd) == -(odd as real) * amplitude as real / 2.0
    ensures Jump(i + 1, amplitude, odd) == -Jump(i, amplitude, odd)
    ensures Jump(i, amplitude, odd) == amplitude as real / 2.0 || Jump(i, amplitude, odd) == -(amplitude as real / 2.0)
  {
    assert (i + 1) % 2 == 1 - i % 2;
  }

  /** `$y` of glyph i in a mask of height `height`, for glyphs `glyphHeight`
      rows tall. */
  function DstY(i: nat, amplitude: nat, odd: int, offset: int, height: int, glyphHeight: int): int
  {
    Trunc(Jump(i, amplitude, odd) + offset as real + (height - glyphHeight) as real / 2.0)
  }

  /** Each glyph sits within A/2 + round(A/3) rows of the vertically centred
      position, up to one row of truncation. */
  lemma DstYNearCentre(i: nat, amplitude: nat, odd: int, offset: int, height: int, glyphHeight: int)
    requires odd == -1 || odd == 1
    requires -JitterBound(amplitude) <= offset <= JitterBound(amplitude)
    ensures var d := DstY(i, amplitude, odd, offset, height, glyphHeight) as real
                     - (height - glyphHeight) as real / 2.0;
            -(amplitude as real / 2.0 + JitterBound(amplitude) as real) - 1.0 < d
            && d < amplitude as real / 2.0 + JitterBound(amplitude) as real + 1.0
  {
    JumpAlternates(i, amplitude, odd);
  }

  // ---------------------------------------------------------------------------
  // The horizontal cursor

  /** One `imagecopy` of a glyph from the atlas into the text mask. */
  datatype Blit = Blit(dstX: int, dstY: int, srcX: int, srcY: int, srcW: int)

  /** `$shift` of glyph i: 1 without spaces, the drawn value otherwise. */
  function Shift(spaces: bool, shifts: seq<int>, i: nat): int
    requires i < |shifts|
  {
    if spaces then shifts[i] else 1
  }

  /** Width of the atlas glyph for character c. */
  function GlyphWidth(atlas: FontAtlas.Atlas, c: char): int
    requires Alphabet.IsSymbol(c) && Alphabet.IndexOf(c) < |atlas.glyphs|
  {
    FontAtlas.GlyphOf(atlas, c).end - FontAtlas.GlyphOf(atlas, c).start
  }

  /** The text and the draws `drawText` works with: every character has a
      closed glyph, one vertical offset and one shift per character, each in
      the range it is drawn from. */
  predicate LayoutInput(text: string, atlas: FontAtlas.Atlas, amplitude: nat, spaces: bool,
                        offsets: seq<int>, shifts: seq<int>)
  {
    && FontAtlas.Covers(atlas, text)
    && (forall k :: 0 <= k < |atlas.glyphs| ==> atlas.glyphs[k].start < atlas.glyphs[k].end)
    && |offsets| == |text| && |shifts| == |text|
    && (forall i :: 0 <= i < |offsets| ==> -JitterBound(amplitude) <= offsets[i] <= JitterBound(amplitude))
    && (spaces ==> forall i :: 0 <= i < |shifts| ==> -10 <= shifts[i] <= -3)
  }

  /** The `$width` cursor before glyph k: it starts at 1 and moves by the glyph
      width minus the shift. */
  function Cursor(text: string, atlas: FontAtlas.Atlas, spaces: bool, shifts: seq<int>, k: nat): int
    requires FontAtlas.Covers(atlas, text) && |shifts| == |text| && k <= |text|
  {
    if k == 0 then 1
    else Cursor(text, atlas, spaces, shifts, k - 1) + GlyphWidth(atlas, text[k - 1]) - Shift(spaces, shifts, k - 1)
  }

  /** The cursor never moves left, since every glyph is at least one column
      wide and a shift is at most 1. */
  lemma {:induction false} CursorGrows(text: string, atlas: FontAtlas.Atlas, amplitude: nat, spaces: bool,
                                      offsets: seq<int>, shifts: seq<int>, j: nat, k: nat)
    requires LayoutInput(text, atlas, amplitude, spaces, offsets, shifts)
    requires j <= k <= |text|
    ensures 1 <= Cursor(text, atlas, spaces, shifts, j) <= Cursor(text, atlas, spaces, shifts, k)
    decreases k
  {
    if k > 0 {
      if j < k {
        CursorGrows(text, atlas, amplitude, spaces, offsets, shifts, j, k - 1);
      } else {
        CursorGrows(text, atlas, amplitude, spaces, offsets, shifts, k - 1, k - 1);
      }
      assert Alphabet.IndexOf(text[k - 1]) < |atlas.glyphs|;
    }
  }

  /** The copy `drawText` records for glyph k. */
  function StepAt(text: string, atlas: FontAtlas.Atlas, amplitude: nat, height: int, spaces: bool,
                  odd: int, offsets: seq<int>, shifts: seq<int>, k: nat): Blit
    requires FontAtlas.Covers(atlas, text) && |offsets| == |text| && |shifts| == |text| && k < |text|
  {
    Blit(Cursor(text, atlas, spaces, shifts, k) - Shift(spaces, shifts, k),
         DstY(k, amplitude, odd, offsets[k], height, atlas.glyphHeight),
         FontAtlas.GlyphOf(atlas, text[k]).start, 1, GlyphWidth(atlas, text[k]))
  }

  /** The step list and final cursor of `drawText`'s loop
      (src/CaptchaGenerator.php:327-354). */
  method DrawText(text: string, atlas: FontAtlas.Atlas, amplitude: nat, height: int, spaces: bool,
                  oddBit: int, offsets: seq<int>, shifts: seq<int>)
    returns (steps: seq<Blit>, width: int)
    requires oddBit == 0 || oddBit == 1
    requires LayoutInput(text, atlas, amplitude, spaces, offsets, shifts)
    ensures |steps| == |text|
    ensures forall i :: 0 <= i < |text| ==>
              && steps[i].srcX == FontAtlas.GlyphOf(atlas, text[i]).start
              && steps[i].srcY == 1
              && steps[i].srcW == GlyphWidth(atlas, text[i])
              && steps[i].dstY == DstY(i, amplitude, Odd(oddBit), offsets[i], height, atlas.glyphHeight)
    ensures |text| > 0 ==> steps[0].dstX == 1 - Shift(spaces, shifts, 0)
    ensures forall i :: 0 <= i < |text| - 1 ==>
              steps[i + 1].dstX == steps[i].dstX + steps[i].srcW - Shift(spaces, shifts, i + 1)
    ensures width == Cursor(text, atlas, spaces, shifts, |text|) && width >= 1
    ensures |text| > 0 ==> width == steps[|text| - 1].dstX + steps[|text| - 1].srcW
    ensures forall i :: 0 <= i < |text| ==> 0 <= steps[i].dstX && steps[i].dstX + steps[i].srcW <= width
    ensures forall i :: 0 <= i < |text| - 1 ==>
              var gap := steps[i + 1].dstX - (steps[i].dstX + steps[i].srcW);
              (!spaces ==> gap == -1) && (spaces ==> 3 <= gap <= 10)
  {
    var odd := Odd(oddBit);
    width := 1;
    steps := [];
    var i := 0;
    while i < |text|
      invariant 0 <= i <= |text|
      invariant |steps| == i
      invariant width == Cursor(text, atlas, spaces, shifts, i)
      invariant forall k :: 0 <= k < i ==>
                  steps[k] == StepAt(text, atlas, amplitude, height, spaces, odd, offsets, shifts, k)
    {
      var glyph := FontAtlas.GlyphOf(atlas, text[i]);
      var y := DstY(i, amplitude, odd, offsets[i], height, atlas.glyphHeight);
      var shift := if spaces then shifts[i] else 1;
      var step := Blit(width - shift, y, glyph.start, 1, glyph.end - glyph.start);
      assert step == StepAt(text, atlas, amplitude, height, spaces, odd, offsets, shifts, i);
      steps := steps + [step];
      width := width + (glyph.end - glyph.start) - shift;
      i := i + 1;
    }
    StepFields(text, atlas, amplitude, height, spaces, odd, offsets, shifts, steps);
    StepsLaidOut(text, atlas, amplitude, height, spaces, odd, offsets, shifts, steps);
    GapsBounded(spaces, shifts, steps);
  }

  /** The source rectangle and row of each recorded copy. */
  lemma StepFields(text: string, atlas: FontAtlas.Atlas, amplitude: nat, height: int, spaces: bool,
                   odd: int, offsets: seq<int>, shifts: seq<int>, steps: seq<Blit>)
    requires FontAtlas.Covers(atlas, text) && |offsets| == |text| && |shifts| == |text|
    requires |steps| == |text|
    requires forall k :: 0 <= k < |text| ==>
               steps[k] == StepAt(text, atlas, amplitude, height, spaces, odd, offsets, shifts, k)
    ensures forall i :: 0 <= i < |text| ==>
              && steps[i].srcX == FontAtlas.GlyphOf(atlas, text[i]).start
              && steps[i].srcY == 1
              && steps[i].srcW == GlyphWidth(atlas, text[i])
              && steps[i].dstY == DstY(i, amplitude, odd, offsets[i], height, atlas.glyphHeight)
  {
  }

  /** The space between consecutive copies is the negated shift: one column
      of overlap without spaces, three to ten columns with them. */
  lemma GapsBounded(spaces: bool, shifts: seq<int>, steps: seq<Blit>)
    requires |steps| == |shifts|
    requires spaces ==> forall i :: 0 <= i < |shifts| ==> -10 <= shifts[i] <= -3
    requires forall i :: 0 <= i < |steps| - 1 ==>
               steps[i + 1].dstX == steps[i].dstX + steps[i].srcW - Shift(spaces, shifts, i + 1)
    ensures forall i :: 0 <= i < |steps| - 1 ==>
              var gap := steps[i + 1].dstX - (steps[i].dstX + steps[i].srcW);
              (!spaces ==> gap == -1) && (spaces ==> 3 <= gap <= 10)
  {
  }

  /** The recorded copies, read as positions: each glyph starts where the
      previous one ended, moved left by the shift, and all of them lie inside
      [0, final cursor]. */
  lemma StepsLaidOut(text: string, atlas: FontAtlas.Atlas, amplitude: nat, height: int, spaces: bool,
                     odd: int, offsets: seq<int>, shifts: seq<int>, steps: seq<Blit>)
    requires LayoutInput(text, atlas, amplitude, spaces, offsets, shifts)
    requires |steps| == |text|
    requires forall k :: 0 <= k < |text| ==>
               steps[k] == StepAt(text, atlas, amplitude, height, spaces, odd, offsets, shifts, k)
    ensures |text| > 0 ==> steps[0].dstX == 1 - Shift(spaces, shifts, 0)
    ensures forall i :: 0 <= i < |text| - 1 ==>
              steps[i + 1].dstX == steps[i].dstX + steps[i].srcW - Shift(spaces, shifts, i + 1)
    ensures Cursor(text, atlas, spaces, shifts, |text|) >= 1
    ensures |text| > 0 ==> Cursor(text, atlas, spaces, shifts, |text|) == steps[|text| - 1].dstX + steps[|text| - 1].srcW
    ensures forall i :: 0 <= i < |text| ==>
              0 <= steps[i].dstX && steps[i].dstX + steps[i].srcW <= Cursor(text, atlas, spaces, shifts, |text|)
  {
    var width := Cursor(text, atlas, spaces, shifts, |text|);
    CursorGrows(text, atlas, amplitude, spaces, offsets, shifts, |text|, |text|);
    forall k | 0 <= k < |text|
      ensures 0 <= steps[k].dstX && steps[k].dstX + steps[k].srcW <= width
    {
      CursorGrows(text, atlas, amplitude, spaces, offsets, shifts, k, k);
      CursorGrows(text, atlas, amplitude, spaces, offsets, shifts, k + 1, |text|);
    }
  }

  /** The text mask `imagecreatetruecolor($width + 1, $this->height + 1)`. */
  datatype Size = Size(w: int, h: int)

  function MaskSize(width: int, height: int): (s: Size)
    ensures s.w == width + 1 && s.h == height + 1
  {
    Size(width + 1, height + 1)
  }

  // ---------------------------------------------------------------------------
  // Resampling and noise

  /** How the mask reaches the W x H canvas: copied unscaled and centred, or
      stretched to the canvas width. */
  datatype Placement = Centered(dstX: int) | Stretched

  /** The branch at src/CaptchaGenerator.php:379-408. A mask no wider than the
      canvas is centred, with the left margin equal to the right one or one
      column narrower; a wider one is stretched. */
  function Place(width: int, canvasWidth: int): (p: Placement)
    ensures p.Centered? <==> width <= canvasWidth
    ensures p.Centered? ==>
              && 0 <= p.dstX && p.dstX + width <= canvasWidth
              && 0 <= (canvasWidth - p.dstX - width) - p.dstX <= 1
  {
    if width <= canvasWidth then Centered((canvasWidth - width) / 2) else Stretched
  }

  /** Width of the image `drawNoise` is applied to: the unscaled mask
      (`imagesx` of a mask made for cursor `width`), before centring, or the
      resized canvas, after stretching. */
  function NoiseBufferWidth(width: int, canvasWidth: int): (w: int)
    ensures Place(width, canvasWidth).Centered? ==> w == MaskSize(width, 0).w
    ensures Place(width, canvasWidth).Stretched? ==> w == canvasWidth + 1
  {
    if width <= canvasWidth then width + 1 else canvasWidth + 1
  }

  /** Number of points of one noise colour: the loop `for ($i = 0; $i < v; $i++)`
      with v = (H - 30) * bufferWidth * density runs once for every natural
      number below v. */
  function NoiseCount(height: int, bufferWidth: int, density: real): (n: nat)
    ensures n as real >= (height - 30) as real * bufferWidth as real * density
    ensures n == 0 || (n - 1) as real < (height - 30) as real * bufferWidth as real * density
  {
    var v := (height - 30) as real * bufferWidth as real * density;
    if v <= 0.0 then 0
    else if v.Floor as real == v then v.Floor
    else v.Floor + 1
  }

  /** A noise point `(mt_rand(0, x - 1), mt_rand(10, H - 15))`. */
  datatype Point = Point(x: int, y: int)

  predicate InNoiseRange(p: Point, bufferWidth: int, height: int)
  {
    0 <= p.x <= bufferWidth - 1 && 10 <= p.y <= height - 15
  }

  /** Whenever the loop draws at least one point, both `mt_rand` ranges are
      non-empty, so the draws are defined. */
  lemma NoiseRangesNonEmpty(height: int, bufferWidth: int, density: real)
    requires bufferWidth >= 1 && 0.0 <= density
    requires NoiseCount(height, bufferWidth, density) > 0
    ensures 0 <= bufferWidth - 1 && 10 <= height - 15
  {
    var b := bufferWidth as real * density;
    assert (height - 30) as real * bufferWidth as real * density == (height - 30) as real * b;
    PositiveFactor((height - 30) as real, b);
  }

  lemma PositiveFactor(a: real, b: real)
    requires a * b > 0.0 && b >= 0.0
    ensures a > 0.0
  {
  }

  /** A noise pixel: white or black. */
  datatype Dot = Dot(at: Point, white: bool)

  /** `drawNoise`: the white points, then the black ones, each drawn inside
      the buffer, so `imagesetpixel` never clips one. */
  method DrawNoise(bufferWidth: int, height: int, whiteDensity: real, blackDensity: real,
                   whiteDraws: seq<Point>, blackDraws: seq<Point>)
    returns (dots: seq<Dot>)
    requires |whiteDraws| == NoiseCount(height, bufferWidth, whiteDensity)
    requires |blackDraws| == NoiseCount(height, bufferWidth, blackDensity)
    requires forall i :: 0 <= i < |whiteDraws| ==> InNoiseRange(whiteDraws[i], bufferWidth, height)
    requires forall i :: 0 <= i < |blackDraws| ==> InNoiseRange(blackDraws[i], bufferWidth, height)
    ensures |dots| == |whiteDraws| + |blackDraws|
    ensures forall i :: 0 <= i < |whiteDraws| ==> dots[i] == Dot(whiteDraws[i], true)
    ensures forall i :: 0 <= i < |blackDraws| ==> dots[|whiteDraws| + i] == Dot(blackDraws[i], false)
    ensures forall i :: 0 <= i < |dots| ==>
              0 <= dots[i].at.x < bufferWidth && 0 <= dots[i].at.y < height + 1
  {
    dots := [];
    var i := 0;
    while i < |whiteDraws|
      invariant 0 <= i <= |whiteDraws| && |dots| == i
      invariant forall k :: 0 <= k < i ==> dots[k] == Dot(whiteDraws[k], true)
    {
      dots := dots + [Dot(whiteDraws[i], true)];
      i := i + 1;
    }
    i := 0;
    while i < |blackDraws|
      invariant 0 <= i <= |blackDraws| && |dots| == |whiteDraws| + i
      invariant forall k :: 0 <= k < |whiteDraws| ==> dots[k] == Dot(whiteDraws[k], true)
      invariant forall k :: 0 <= k < i ==> dots[|whiteDraws| + k] == Dot(blackDraws[k], false)
    {
      dots := dots + [Dot(blackDraws[i], false)];
      i := i + 1;
    }
    forall k | 0 <= k < |dots|
      ensures 0 <= dots[k].at.x < bufferWidth && 0 <= dots[k].at.y < height + 1
    {
      if k < |whiteDraws| {
        assert InNoiseRange(whiteDraws[k], bufferWidth, height);
      } else {
        assert InNoiseRange(blackDraws[k - |whiteDraws|], bufferWidth, height);
      }
    }
  }
}
