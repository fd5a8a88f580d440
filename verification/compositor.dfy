/** The per-pixel rules of `CaptchaGenerator::apply` and `defineColor`
    (src/CaptchaGenerator.php:421-492): every canvas pixel (x, y) reads the
    mask at a displaced position (sx, sy) and is left at the background,
    painted in the foreground, or painted in a blend of the two.

    The mask is the resized text image, (W + 1) x (H + 1), indexed [y][x];
    its value at a pixel is the blue channel (`imagecolorat(...) & 0xFF`),
    0 where text was drawn and 255 on the white ground. The displaced
    position is computed with `sin` and is taken as given; `apply` truncates
    it toward zero with `intval` before the bounds test. */
module Compositor {
  import opened Results
  import opened PhpMath
  import opened Color

  /** A mask of w columns and h rows with channel values. */
  predicate IsMask(mask: seq<seq<int>>, w: int, h: int)
  {
    && |mask| == h
    && (forall y :: 0 <= y < h ==> |mask[y]| == w)
    && (forall y, x :: 0 <= y < h && 0 <= x < |mask[y]| ==> Channel(mask[y][x]))
  }

  /** The bounds test of `apply`: a displaced position on or beyond the last
      column or row of the canvas (or before the first) is skipped. */
  predicate Skipped(sx: int, sy: int, width: int, height: int)
  {
    sx < 0 || sy < 0 || sx >= width - 1 || sy >= height - 1
  }

  /** A position the bounds test lets through has all four samples
      (sx, sy), (sx + 1, sy), (sx, sy + 1), (sx + 1, sy + 1) inside the
      W x H part of the (W + 1) x (H + 1) mask. */
  lemma SamplesInside(sx: int, sy: int, width: int, height: int)
    requires !Skipped(sx, sy, width, height)
    ensures 0 <= sx && sx + 1 < width
    ensures 0 <= sy && sy + 1 < height
  {
  }

  /** The intended blend: the top-left sample c moves the colour from the
      foreground (c = 0) to the background (c = 255). */
  function Blend(c: int, fg: int, bg: int): int
    requires Channel(c)
  {
    ((255 - c) * fg + c * bg) / 255
  }

  /** One channel of the "bilinear" mix of `defineColor` as written, in exact
      arithmetic: the fractional parts of the integer position weigh the four
      samples, the mix is capped at 255 and scaled to [0, 1], and the result
      is `intval` of the weighted sum of the two colours. Since sx and sy are
      integers their fractional parts are 0, so only the top-left sample c
      counts and the mix is exactly Blend. */
  function MixAsWritten(sx: int, sy: int, c: int, cX: int, cY: int, cXY: int, fg: int, bg: int): (r: int)
    ensures Channel(c) && Channel(fg) && Channel(bg) ==> r == Blend(c, fg, bg)
  {
    var tmpX0 := sx as real - (sx as real).Floor as real;
    var tmpY0 := sy as real - (sy as real).Floor as real;
    var tmpX1 := 1.0 - tmpX0;
    var tmpY1 := 1.0 - tmpY0;
    var mixed := c as real * tmpX1 * tmpY1 + cX as real * tmpX0 * tmpY1
                 + cY as real * tmpX1 * tmpY0 + cXY as real * tmpX0 * tmpY0;
    var w0 := (if mixed <= 255.0 then mixed else 255.0) / 255.0;
    var w1 := 1.0 - w0;
    assert tmpX0 == 0.0 && tmpY0 == 0.0;
    assert mixed == c as real;
    if Channel(c) && Channel(fg) && Channel(bg) then
      TruncScaled(c, fg, bg);
      Trunc(w1 * fg as real + w0 * bg as real)
    else
      Trunc(w1 * fg as real + w0 * bg as real)
  }

  /** The exact value of the mix at weight c / 255 truncates to Blend. */
  lemma TruncScaled(c: int, fg: int, bg: int)
    requires Channel(c) && Channel(fg) && Channel(bg)
    ensures Trunc((1.0 - c as real / 255.0) * fg as real + (c as real / 255.0) * bg as real) == Blend(c, fg, bg)
  {
    var n := (255 - c) * fg + c * bg;
    var x := (1.0 - c as real / 255.0) * fg as real + (c as real / 255.0) * bg as real;
    MixIsQuotient(c as real, fg as real, bg as real);
    NumeratorCast(c, fg, bg);
    assert x == n as real / 255.0;
    MulMono(255 - c, 0, fg);
    MulMono(c, 0, bg);
    FloorOfQuotient(n, 255);
    TruncOfNonNegative(x);
  }

  lemma TruncOfNonNegative(x: real)
    requires x.Floor >= 0
    ensures Trunc(x) == x.Floor
  {
  }

  lemma NumeratorCast(c: int, fg: int, bg: int)
    ensures ((255 - c) * fg + c * bg) as real == (255.0 - c as real) * fg as real + c as real * bg as real
  {
    CastProduct(255 - c, fg);
    CastProduct(c, bg);
  }

  lemma CastProduct(a: int, b: int)
    ensures (a * b) as real == a as real * b as real
  {
  }

  lemma MixIsQuotient(c: real, f: real, b: real)
    ensures (1.0 - c / 255.0) * f + (c / 255.0) * b == ((255.0 - c) * f + c * b) / 255.0
  {
  }

  /** Flooring the exact quotient of naturals is integer division. */
  lemma FloorOfQuotient(n: nat, d: int)
    requires d > 0
    ensures (n as real / d as real).Floor == n / d
  {
    var q := n / d;
    assert d * q <= n < d * q + d;
    assert (d * q) as real == d as real * q as real;
    assert q as real <= n as real / d as real;
    assert n as real / d as real < (q + 1) as real;
  }

  /** A blend lies between the two colours and hits each at the ends. */
  lemma BlendBetween(c: int, fg: int, bg: int)
    requires Channel(c) && Channel(fg) && Channel(bg)
    ensures Min(fg, bg) <= Blend(c, fg, bg) <= Max(fg, bg)
    ensures Blend(0, fg, bg) == fg && Blend(255, fg, bg) == bg
  {
    var lo, hi := Min(fg, bg), Max(fg, bg);
    WeightedSumBetween(255 - c, c, fg, bg, lo, hi);
    DivBetween((255 - c) * fg + c * bg, lo, hi);
  }

  lemma WeightedSumBetween(a: nat, b: nat, x: int, y: int, lo: int, hi: int)
    requires lo <= x <= hi && lo <= y <= hi
    ensures (a + b) * lo <= a * x + b * y <= (a + b) * hi
  {
    MulMono(a, lo, x);
    MulMono(a, x, hi);
    MulMono(b, lo, y);
    MulMono(b, y, hi);
  }

  lemma MulMono(a: nat, x: int, y: int)
    requires x <= y
    ensures a * x <= a * y
  {
  }

  lemma DivBetween(n: int, lo: int, hi: int)
    requires 255 * lo <= n <= 255 * hi
    ensures lo <= n / 255 <= hi
  {
  }

  function BlendRgb(c: int, fg: Rgb, bg: Rgb): Rgb
    requires Channel(c)
  {
    Rgb(Blend(c, fg.red, bg.red), Blend(c, fg.green, bg.green), Blend(c, fg.blue, bg.blue))
  }

  /** `defineColor`: None when all four samples are 255 (the pixel is left
      alone), the foreground when all are 0, and otherwise the mix as written. */
  function DefineColor(mask: seq<seq<int>>, sx: int, sy: int, fg: Rgb, bg: Rgb): (r: Option<Rgb>)
    requires 0 <= sy && sy + 1 < |mask| && 0 <= sx && sx + 1 < |mask[sy]| && sx + 1 < |mask[sy + 1]|
    ensures r.None? <==> mask[sy][sx] == 255 && mask[sy][sx + 1] == 255
                         && mask[sy + 1][sx] == 255 && mask[sy + 1][sx + 1] == 255
  {
    var c, cX, cY, cXY := mask[sy][sx], mask[sy][sx + 1], mask[sy + 1][sx], mask[sy + 1][sx + 1];
    if c == 255 && cX == 255 && cY == 255 && cXY == 255 then None
    else if c == 0 && cX == 0 && cY == 0 && cXY == 0 then Some(fg)
    else Some(Rgb(MixAsWritten(sx, sy, c, cX, cY, cXY, fg.red, bg.red),
                  MixAsWritten(sx, sy, c, cX, cY, cXY, fg.green, bg.green),
                  MixAsWritten(sx, sy, c, cX, cY, cXY, fg.blue, bg.blue)))
  }

  /** Whichever branch `defineColor` takes, the pixel ends up the blend of
      the top-left sample: the all-255 case leaves the background, which is
      the blend at 255, and the all-0 case paints the foreground, the blend
      at 0. */
  lemma DefineColorIsBlend(mask: seq<seq<int>>, sx: int, sy: int, fg: Rgb, bg: Rgb)
    requires 0 <= sy && sy + 1 < |mask| && 0 <= sx && sx + 1 < |mask[sy]| && sx + 1 < |mask[sy + 1]|
    requires Channel(mask[sy][sx]) && InRange(fg) && InRange(bg)
    ensures var r := DefineColor(mask, sx, sy, fg, bg);
            (if r.None? then bg else r.value) == BlendRgb(mask[sy][sx], fg, bg)
  {
    var c := mask[sy][sx];
    BlendBetween(c, fg.red, bg.red);
    BlendBetween(c, fg.green, bg.green);
    BlendBetween(c, fg.blue, bg.blue);
  }

  /** The displaced source position of a canvas pixel. */
  datatype Source = Source(sx: int, sy: int)

  /** The displaced position of a canvas pixel before `intval`. */
  datatype Displaced = Displaced(x: real, y: real)

  /** `intval` of both coordinates: truncation toward zero, so a position in
      (-1, 0) becomes 0, not -1. */
  function Sampled(d: Displaced): (s: Source)
    ensures s.sx == Trunc(d.x) && s.sy == Trunc(d.y)
    ensures d.x >= 0.0 ==> s.sx == d.x.Floor
    ensures d.y >= 0.0 ==> s.sy == d.y.Floor
  {
    Source(Trunc(d.x), Trunc(d.y))
  }

  /** A displaced position just left of the mask, at -1 < x < 0, is truncated
      to column 0 and passes the bounds test, where rounding down would give
      -1 and skip it. */
  lemma SmallNegativeKept(d: Displaced, width: int, height: int)
    requires -1.0 < d.x < 0.0 && 0.0 <= d.y && d.y.Floor < height - 1 && width >= 2
    ensures Sampled(d).sx == 0 && d.x.Floor == -1
    ensures !Skipped(Sampled(d).sx, Sampled(d).sy, width, height)
    ensures Skipped(d.x.Floor, d.y.Floor, width, height)
  {
  }

  /** The canvas pixel (x, y) after `apply`, on a canvas filled with the
      background. */
  function PixelAfter(mask: seq<seq<int>>, width: int, height: int, src: Source, fg: Rgb, bg: Rgb): (p: Rgb)
    requires IsMask(mask, width + 1, height + 1)
    ensures Skipped(src.sx, src.sy, width, height) ==> p == bg
  {
    if Skipped(src.sx, src.sy, width, height) then bg
    else
      match DefineColor(mask, src.sx, src.sy, fg, bg)
      case None => bg
      case Some(c) => c
  }

  /** `apply` over the whole W x H canvas: disp[y][x] is the displaced
      position of pixel (x, y), sampled after `intval`. Each pixel is written
      at most once, so the loop order does not matter. */
  function Apply(mask: seq<seq<int>>, width: nat, height: nat, disp: seq<seq<Displaced>>, fg: Rgb, bg: Rgb)
    : (canvas: seq<seq<Rgb>>)
    requires IsMask(mask, width + 1, height + 1)
    requires |disp| == height && forall y :: 0 <= y < height ==> |disp[y]| == width
    ensures |canvas| == height && forall y :: 0 <= y < height ==> |canvas[y]| == width
  {
    seq(height, y requires 0 <= y < height =>
      seq(width, x requires 0 <= x < width => PixelAfter(mask, width, height, Sampled(disp[y][x]), fg, bg)))
  }

  /** Every canvas pixel is the background when its source is out of bounds
      and otherwise the blend of the mask sample at its source. */
  lemma ApplyIsBlend(mask: seq<seq<int>>, width: nat, height: nat, disp: seq<seq<Displaced>>, fg: Rgb, bg: Rgb,
                     x: int, y: int)
    requires IsMask(mask, width + 1, height + 1) && InRange(fg) && InRange(bg)
    requires |disp| == height && forall y :: 0 <= y < height ==> |disp[y]| == width
    requires 0 <= y < height && 0 <= x < width
    ensures var s := Sampled(disp[y][x]);
            var p := Apply(mask, width, height, disp, fg, bg)[y][x];
            && (Skipped(s.sx, s.sy, width, height) ==> p == bg)
            && (!Skipped(s.sx, s.sy, width, height) ==> p == BlendRgb(mask[s.sy][s.sx], fg, bg))
  {
    var s := Sampled(disp[y][x]);
    if !Skipped(s.sx, s.sy, width, height) {
      DefineColorIsBlend(mask, s.sx, s.sy, fg, bg);
    }
  }
}
