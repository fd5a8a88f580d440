/** The outline stamp of `createOutlineFont`
    (src/Command/FontConvertCommand.php:148-161): every ink pixel of a glyph
    bitmap is dilated into a 3x3 opaque block with semi-transparent pixels two
    columns to either side.

    An image is a sequence of rows of alpha values (0 opaque, 127
    transparent), indexed [y][x]. A glyph bitmap is a sequence of rows of
    booleans, true where the rendered pixel's blue channel is 0. */
module Outline {

  const Opaque: int := 0
  const Semi: int := 64
  const Clear: int := 127

  /** One `imagesetpixel` call. */
  datatype Write = Write(x: int, y: int, alpha: int)

  /** Two images have the same rows of the same lengths. */
  predicate SameShape(a: seq<seq<int>>, b: seq<seq<int>>)
  {
    |a| == |b| && forall y :: 0 <= y < |a| ==> |a[y]| == |b[y]|
  }

  /** `imagesetpixel`: a write outside the image is dropped, a write inside it
      replaces exactly one pixel. */
  function SetPixel(img: seq<seq<int>>, w: Write): (r: seq<seq<int>>)
    ensures SameShape(r, img)
  {
    if 0 <= w.y < |img| && 0 <= w.x < |img[w.y]| then
      img[w.y := img[w.y][w.x := w.alpha]]
    else img
  }

  /** Pixel (px, py) after one write: the written value if the write lands
      on it, the old value otherwise. */
  lemma SetPixelAt(img: seq<seq<int>>, w: Write, px: int, py: int)
    requires 0 <= py < |img| && 0 <= px < |img[py]|
    ensures SetPixel(img, w)[py][px] == (if w.x == px && w.y == py then w.alpha else img[py][px])
  {
  }

  /** The pixels the stamp of one ink pixel drawn at (cx, cy) writes: the 3x3
      block around it and the two pixels two columns to its left and right. */
  predicate InStamp(cx: int, cy: int, px: int, py: int)
  {
    (cx - 1 <= px <= cx + 1 && cy - 1 <= py <= cy + 1)
    || (py == cy && (px == cx - 2 || px == cx + 2))
  }

  /** Write w lands on pixel (px, py). */
  predicate Lands(w: Write, px: int, py: int)
  {
    w.x == px && w.y == py
  }

  /** The `imagesetpixel` calls in order. */
  function SetPixels(img: seq<seq<int>>, ws: seq<Write>): (r: seq<seq<int>>)
    ensures SameShape(r, img)
    decreases |ws|
  {
    if ws == [] then img else SetPixels(SetPixel(img, ws[0]), ws[1..])
  }

  /** A pixel none of the writes lands on keeps its value. */
  lemma {:induction false} SetPixelsMiss(img: seq<seq<int>>, ws: seq<Write>, px: int, py: int)
    requires 0 <= py < |img| && 0 <= px < |img[py]|
    requires forall i :: 0 <= i < |ws| ==> !Lands(ws[i], px, py)
    ensures SetPixels(img, ws)[py][px] == img[py][px]
    decreases |ws|
  {
    if ws != [] {
      SetPixelAt(img, ws[0], px, py);
      assert forall i :: 0 <= i < |ws[1..]| ==> ws[1..][i] == ws[i + 1];
      SetPixelsMiss(SetPixel(img, ws[0]), ws[1..], px, py);
    }
  }

  /** A pixel that some of the writes land on, all with the same value v,
      ends up holding v. */
  lemma {:induction false} SetPixelsHit(img: seq<seq<int>>, ws: seq<Write>, px: int, py: int, v: int)
    requires 0 <= py < |img| && 0 <= px < |img[py]|
    requires exists i :: 0 <= i < |ws| && Lands(ws[i], px, py)
    requires forall i :: 0 <= i < |ws| && Lands(ws[i], px, py) ==> ws[i].alpha == v
    ensures SetPixels(img, ws)[py][px] == v
    decreases |ws|
  {
    var next := SetPixel(img, ws[0]);
    SetPixelAt(img, ws[0], px, py);
    var rest := ws[1..];
    assert forall i :: 0 <= i < |rest| ==> rest[i] == ws[i + 1];
    if exists i :: 0 <= i < |rest| && Lands(rest[i], px, py) {
      SetPixelsHit(next, rest, px, py, v);
    } else {
      SetPixelsMiss(next, rest, px, py);
    }
  }

  /** The writes for one ink pixel drawn at (cx, cy), in call order: the two
      semi-transparent side pixels, then the 3x3 block with x1 as the outer
      and y1 as the inner loop. */
  function PixelWrites(cx: int, cy: int): (ws: seq<Write>)
    ensures |ws| == 11
    ensures ws[0] == Write(cx - 2, cy, Semi) && ws[1] == Write(cx + 2, cy, Semi)
    ensures forall i :: 2 <= i < |ws| ==>
              ws[i] == Write(cx + (i - 2) / 3 - 1, cy + (i - 2) % 3 - 1, Opaque)
  {
    [Write(cx - 2, cy, Semi), Write(cx + 2, cy, Semi),
     Write(cx - 1, cy - 1, Opaque), Write(cx - 1, cy, Opaque), Write(cx - 1, cy + 1, Opaque),
     Write(cx, cy - 1, Opaque), Write(cx, cy, Opaque), Write(cx, cy + 1, Opaque),
     Write(cx + 1, cy - 1, Opaque), Write(cx + 1, cy, Opaque), Write(cx + 1, cy + 1, Opaque)]
  }

  /** The stamp of one ink pixel. */
  function StampPixel(img: seq<seq<int>>, cx: int, cy: int): (r: seq<seq<int>>)
    ensures SameShape(r, img)
  {
    SetPixels(img, PixelWrites(cx, cy))
  }

  /** A pixel value the stamp leaves behind: fully opaque or the halo. */
  predicate Inked(v: int)
  {
    v == Opaque || v == Semi
  }

  /** The stamp of one ink pixel: the pixels of its pattern become opaque,
      the side pixels semi-transparent, and every other pixel is unchanged. */
  lemma StampPixelEffect(img: seq<seq<int>>, cx: int, cy: int, px: int, py: int)
    requires 0 <= py < |img| && 0 <= px < |img[py]|
    ensures var r := StampPixel(img, cx, cy);
            && (cx - 1 <= px <= cx + 1 && cy - 1 <= py <= cy + 1 ==> r[py][px] == Opaque)
            && (py == cy && (px == cx - 2 || px == cx + 2) ==> r[py][px] == Semi)
            && (!InStamp(cx, cy, px, py) ==> r[py][px] == img[py][px])
  {
    var ws := PixelWrites(cx, cy);
    if cx - 1 <= px <= cx + 1 && cy - 1 <= py <= cy + 1 {
      var k := 2 + 3 * (px - cx + 1) + (py - cy + 1);
      assert Lands(ws[k], px, py);
      SetPixelsHit(img, ws, px, py, Opaque);
    } else if py == cy && (px == cx - 2 || px == cx + 2) {
      var k := if px == cx - 2 then 0 else 1;
      assert Lands(ws[k], px, py);
      SetPixelsHit(img, ws, px, py, Semi);
    } else {
      SetPixelsMiss(img, ws, px, py);
    }
  }

  /** Bitmap pixel (sy, sx) is ink. */
  predicate Ink(ink: seq<seq<bool>>, sy: int, sx: int)
  {
    0 <= sy < |ink| && 0 <= sx < |ink[sy]| && ink[sy][sx]
  }

  /** Ink pixel (sy, sx) of the bitmap placed at column x writes (px, py). */
  predicate HitBy(ink: seq<seq<bool>>, x: int, sy: int, sx: int, px: int, py: int)
  {
    Ink(ink, sy, sx) && InStamp(x + sx, sy, px, py)
  }

  /** Some ink pixel among the first n of row sy writes (px, py). */
  predicate HitInRow(ink: seq<seq<bool>>, x: int, sy: int, n: nat, px: int, py: int)
  {
    n > 0 && (HitBy(ink, x, sy, n - 1, px, py) || HitInRow(ink, x, sy, n - 1, px, py))
  }

  /** Some ink pixel of the first m rows writes (px, py). */
  predicate HitInRows(ink: seq<seq<bool>>, x: int, m: nat, px: int, py: int)
    requires m <= |ink|
  {
    m > 0 && (HitInRow(ink, x, m - 1, |ink[m - 1]|, px, py) || HitInRows(ink, x, m - 1, px, py))
  }

  /** The stamps of the first n pixels of bitmap row sy, in loop order. */
  function StampRow(img: seq<seq<int>>, ink: seq<seq<bool>>, sy: int, n: nat, x: int): (r: seq<seq<int>>)
    requires 0 <= sy < |ink| && n <= |ink[sy]|
    ensures SameShape(r, img)
  {
    if n == 0 then img
    else
      var prev := StampRow(img, ink, sy, n - 1, x);
      if ink[sy][n - 1] then StampPixel(prev, x + n - 1, sy) else prev
  }

  /** The stamps of the first m rows of the bitmap placed at column x. */
  function Stamp(img: seq<seq<int>>, ink: seq<seq<bool>>, m: nat, x: int): (r: seq<seq<int>>)
    requires m <= |ink|
    ensures SameShape(r, img)
  {
    if m == 0 then img
    else StampRow(Stamp(img, ink, m - 1, x), ink, m - 1, |ink[m - 1]|, x)
  }

  /** What stamping does to one pixel: it is left as it was, or, once some
      stamp has written it, it stays opaque or semi-transparent. */
  predicate Stamped(v: int, orig: int, hit: bool)
  {
    if hit then Inked(v) else v == orig
  }

  lemma StampedAfterPixel(prev: seq<seq<int>>, cx: int, cy: int, px: int, py: int, orig: int, hit: bool)
    requires 0 <= py < |prev| && 0 <= px < |prev[py]|
    requires Stamped(prev[py][px], orig, hit)
    ensures Stamped(StampPixel(prev, cx, cy)[py][px], orig, hit || InStamp(cx, cy, px, py))
  {
    StampPixelEffect(prev, cx, cy, px, py);
  }

  lemma {:induction false} StampRowEffect(img: seq<seq<int>>, ink: seq<seq<bool>>, sy: int, n: nat, x: int, px: int, py: int)
    requires 0 <= sy < |ink| && n <= |ink[sy]|
    requires 0 <= py < |img| && 0 <= px < |img[py]|
    ensures var r := StampRow(img, ink, sy, n, x);
            && Stamped(r[py][px], img[py][px], HitInRow(ink, x, sy, n, px, py))
    decreases n
  {
    if n > 0 {
      StampRowEffect(img, ink, sy, n - 1, x, px, py);
      StampRowStep(img, ink, sy, n, x, px, py, img[py][px], HitInRow(ink, x, sy, n - 1, px, py));
    }
  }

  /** One more pixel of the row keeps the per-pixel account. */
  lemma StampRowStep(img: seq<seq<int>>, ink: seq<seq<bool>>, sy: int, n: nat, x: int, px: int, py: int,
                     orig: int, hit: bool)
    requires 0 <= sy < |ink| && 0 < n <= |ink[sy]|
    requires 0 <= py < |img| && 0 <= px < |img[py]|
    requires Stamped(StampRow(img, ink, sy, n - 1, x)[py][px], orig, hit)
    ensures Stamped(StampRow(img, ink, sy, n, x)[py][px], orig, hit || HitBy(ink, x, sy, n - 1, px, py))
  {
    var prev := StampRow(img, ink, sy, n - 1, x);
    var cur := StampRow(img, ink, sy, n, x);
    if ink[sy][n - 1] {
      assert cur == StampPixel(prev, x + n - 1, sy);
      StampedAfterPixel(prev, x + n - 1, sy, px, py, orig, hit);
    } else {
      assert cur == prev;
    }
  }

  lemma {:induction false} StampRowsEffect(img: seq<seq<int>>, ink: seq<seq<bool>>, m: nat, x: int, px: int, py: int)
    requires m <= |ink|
    requires 0 <= py < |img| && 0 <= px < |img[py]|
    ensures var r := Stamp(img, ink, m, x);
            && Stamped(r[py][px], img[py][px], HitInRows(ink, x, m, px, py))
    decreases m
  {
    if m > 0 {
      StampRowsEffect(img, ink, m - 1, x, px, py);
      StampRowEffect(Stamp(img, ink, m - 1, x), ink, m - 1, |ink[m - 1]|, x, px, py);
    }
  }

  /** HitInRow searches exactly the first n pixels of the row. */
  lemma {:induction false} HitInRowIff(ink: seq<seq<bool>>, x: int, sy: int, n: nat, px: int, py: int)
    ensures HitInRow(ink, x, sy, n, px, py) <==> exists sx :: 0 <= sx < n && HitBy(ink, x, sy, sx, px, py)
    decreases n
  {
    if n > 0 {
      HitInRowIff(ink, x, sy, n - 1, px, py);
    }
  }

  /** HitInRows searches exactly the ink pixels of the first m rows. */
  lemma {:induction false} HitInRowsIff(ink: seq<seq<bool>>, x: int, m: nat, px: int, py: int)
    requires m <= |ink|
    ensures HitInRows(ink, x, m, px, py) <==>
            exists sy, sx :: 0 <= sy < m && HitBy(ink, x, sy, sx, px, py)
    decreases m
  {
    if m > 0 {
      HitInRowsIff(ink, x, m - 1, px, py);
      HitInRowIff(ink, x, m - 1, |ink[m - 1]|, px, py);
      if HitInRows(ink, x, m, px, py) && !HitInRows(ink, x, m - 1, px, py) {
        var sx :| 0 <= sx < |ink[m - 1]| && HitBy(ink, x, m - 1, sx, px, py);
      }
      if exists sy, sx :: 0 <= sy < m && HitBy(ink, x, sy, sx, px, py) {
        var sy, sx :| 0 <= sy < m && HitBy(ink, x, sy, sx, px, py);
        if sy == m - 1 {
          assert 0 <= sx < |ink[m - 1]|;
        }
      }
    }
  }

  /** The stamp of a whole bitmap placed at column x: a pixel that the 3x3
      block or a side pixel of some ink pixel reaches ends up opaque or
      semi-transparent (a later side pixel may overwrite an earlier block);
      every other pixel is left as it was. */
  lemma StampEffect(img: seq<seq<int>>, ink: seq<seq<bool>>, x: int, px: int, py: int)
    requires 0 <= py < |img| && 0 <= px < |img[py]|
    ensures var r := Stamp(img, ink, |ink|, x);
            && ((exists sy, sx :: HitBy(ink, x, sy, sx, px, py)) ==> Inked(r[py][px]))
            && (!(exists sy, sx :: HitBy(ink, x, sy, sx, px, py)) ==> r[py][px] == img[py][px])
  {
    StampRowsEffect(img, ink, |ink|, x, px, py);
    HitInRowsIff(ink, x, |ink|, px, py);
  }

  /** When the glyph leaves bitmap rows 0 and 1 blank, the stamp never reaches
      row 0, so the marker row of the atlas is exactly what the markers draw. */
  lemma StampKeepsRow0(img: seq<seq<int>>, ink: seq<seq<bool>>, x: int)
    requires |img| > 0
    requires forall sy, sx :: 0 <= sy <= 1 && Ink(ink, sy, sx) ==> false
    ensures Stamp(img, ink, |ink|, x)[0] == img[0]
  {
    var r := Stamp(img, ink, |ink|, x);
    forall px | 0 <= px < |img[0]|
      ensures r[0][px] == img[0][px]
    {
      StampEffect(img, ink, x, px, 0);
    }
  }
}
