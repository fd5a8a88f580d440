/** The atlas producer, `FontConvertCommand` (src/Command/FontConvertCommand.php):
    the choice of the font size, the glyph metrics, the marker row of the
    atlas and the outline stamp, together with the proof that the decoder of
    FontAtlas reads the markers back. Glyph rasterisation (`imagettfbbox`,
    `imagettftext`) is replaced by given bounding boxes and ink bitmaps. */
module FontConvert {
  import opened Results
  import Alphabet
  import FontAtlas
  import opened PhpMath

  /** The eight integers of an `imagettfbbox` result: the x and y of the
      lower-left, lower-right, upper-right and upper-left corners. */
  datatype Box = Box(b0: int, b1: int, b2: int, b3: int, b4: int, b5: int, b6: int, b7: int)

  /** Horizontal extent of a glyph's box (src/Command/FontConvertCommand.php:180). */
  function BoxWidth(b: Box): int { Max(b.b4, b.b2) - Min(b.b6, b.b0) }

  /** Vertical extent of a glyph's box (src/Command/FontConvertCommand.php:181). */
  function BoxHeight(b: Box): int { Max(b.b3, b.b1) - Min(b.b5, b.b7) }

  /** How far the glyph reaches below the baseline (src/Command/FontConvertCommand.php:190). */
  function BoxBottom(b: Box): int { Max(b.b3, b.b1) }

  /** Extra width recorded per glyph in outline mode, room for the halo. */
  function Pad(outline: bool): int { if outline then 4 else 0 }

  // ---------------------------------------------------------------------------
  // Sums and maxima over the alphabet

  /** Σ (w + 10): the room a run of glyphs of widths ws takes, each followed by
      a 10-column advance gap. */
  function Advance(ws: seq<int>): int
  {
    if ws == [] then 0 else ws[0] + 10 + Advance(ws[1..])
  }

  lemma {:induction false} AdvanceAppend(a: seq<int>, b: seq<int>)
    ensures Advance(a + b) == Advance(a) + Advance(b)
    decreases |a|
  {
    if a == [] {
      assert a + b == b;
    } else {
      assert (a + b)[1..] == a[1..] + b;
      AdvanceAppend(a[1..], b);
    }
  }

  lemma AdvanceSnoc(ws: seq<int>, i: nat)
    requires i < |ws|
    ensures Advance(ws[..i + 1]) == Advance(ws[..i]) + ws[i] + 10
  {
    assert ws[..i + 1] == ws[..i] + [ws[i]];
    AdvanceAppend(ws[..i], [ws[i]]);
  }

  lemma {:induction false} AdvanceAtLeast(ws: seq<int>)
    requires forall k :: 0 <= k < |ws| ==> ws[k] >= 0
    ensures Advance(ws) >= 10 * |ws|
    decreases |ws|
  {
    if ws != [] {
      AdvanceAtLeast(ws[1..]);
    }
  }

  /** The running maximum of `getMetrics`, which starts from 0 and only grows
      on a strictly larger value. */
  function MaxFromZero(xs: seq<int>): int
  {
    if xs == [] then 0 else Max(MaxFromZero(xs[..|xs| - 1]), xs[|xs| - 1])
  }

  /** MaxFromZero is the largest element, or 0 when that is larger. */
  lemma {:induction false} MaxFromZeroBounds(xs: seq<int>)
    ensures MaxFromZero(xs) >= 0
    ensures forall k :: 0 <= k < |xs| ==> xs[k] <= MaxFromZero(xs)
    ensures MaxFromZero(xs) == 0 || exists k :: 0 <= k < |xs| && xs[k] == MaxFromZero(xs)
    decreases |xs|
  {
    if xs != [] {
      var init := xs[..|xs| - 1];
      MaxFromZeroBounds(init);
      assert forall k :: 0 <= k < |init| ==> init[k] == xs[k];
      if MaxFromZero(xs) != 0 && MaxFromZero(xs) == MaxFromZero(init) {
        var k :| 0 <= k < |init| && init[k] == MaxFromZero(init);
        assert xs[k] == MaxFromZero(xs);
      }
    }
  }

  lemma MaxFromZeroSnoc(xs: seq<int>, i: nat)
    requires i < |xs|
    ensures MaxFromZero(xs[..i + 1]) == Max(MaxFromZero(xs[..i]), xs[i])
  {
    assert xs[..i + 1][..i] == xs[..i];
  }

  function RawWidths(boxes: seq<Box>): (ws: seq<int>)
    ensures |ws| == |boxes|
    ensures forall k :: 0 <= k < |boxes| ==> ws[k] == BoxWidth(boxes[k])
  {
    seq(|boxes|, k requires 0 <= k < |boxes| => BoxWidth(boxes[k]))
  }

  /** The per-glyph width `getMetrics` records: the box width, plus the pad in
      outline mode. */
  function RecordedWidths(boxes: seq<Box>, outline: bool): (ws: seq<int>)
    ensures |ws| == |boxes|
    ensures forall k :: 0 <= k < |boxes| ==> ws[k] == BoxWidth(boxes[k]) + Pad(outline)
  {
    seq(|boxes|, k requires 0 <= k < |boxes| => BoxWidth(boxes[k]) + Pad(outline))
  }

  function Heights(boxes: seq<Box>): (hs: seq<int>)
    ensures |hs| == |boxes|
    ensures forall k :: 0 <= k < |boxes| ==> hs[k] == BoxHeight(boxes[k])
  {
    seq(|boxes|, k requires 0 <= k < |boxes| => BoxHeight(boxes[k]))
  }

  function Bottoms(boxes: seq<Box>): (bs: seq<int>)
    ensures |bs| == |boxes|
    ensures forall k :: 0 <= k < |boxes| ==> bs[k] == BoxBottom(boxes[k])
  {
    seq(|boxes|, k requires 0 <= k < |boxes| => BoxBottom(boxes[k]))
  }

  /** Atlas image height: tallest glyph, deepest descent, and 5 rows of margin
      (src/Command/FontConvertCommand.php:187-196). */
  function AtlasHeight(boxes: seq<Box>): int
  {
    MaxFromZero(Heights(boxes)) + MaxFromZero(Bottoms(boxes)) + 5
  }

  // ---------------------------------------------------------------------------
  // getMetrics

  datatype GlyphSize = GlyphSize(w: int, h: int)

  /** The tuple `getMetrics` returns: per-glyph sizes, atlas width and height,
      and the deepest descent. */
  datatype Metrics = Metrics(glyphs: seq<GlyphSize>, width: int, height: int, bottom: int)

  /** `getMetrics` (src/Command/FontConvertCommand.php:171-198) over the boxes
      of the alphabet's glyphs, in alphabet order: the loop computes the sums
      and running maxima that Advance, MaxFromZero and AtlasHeight define. */
  method GetMetrics(boxes: seq<Box>, outline: bool) returns (m: Metrics)
    ensures |m.glyphs| == |boxes|
    ensures forall k :: 0 <= k < |boxes| ==>
              m.glyphs[k] == GlyphSize(BoxWidth(boxes[k]) + Pad(outline), BoxHeight(boxes[k]))
    ensures m.width == Advance(RawWidths(boxes))
    ensures m.bottom == MaxFromZero(Bottoms(boxes))
    ensures m.height == AtlasHeight(boxes)
  {
    var glyphs: seq<GlyphSize> := [];
    var height := 0;
    var width := 0;
    var bottom := 0;
    var i := 0;
    while i < |boxes|
      invariant 0 <= i <= |boxes|
      invariant |glyphs| == i
      invariant forall k :: 0 <= k < i ==>
                  glyphs[k] == GlyphSize(BoxWidth(boxes[k]) + Pad(outline), BoxHeight(boxes[k]))
      invariant width == Advance(RawWidths(boxes)[..i])
      invariant height == MaxFromZero(Heights(boxes)[..i])
      invariant bottom == MaxFromZero(Bottoms(boxes)[..i])
    {
      var box := boxes[i];
      var w := BoxWidth(box);
      var h := BoxHeight(box);
      glyphs := glyphs + [GlyphSize(w + Pad(outline), h)];
      if h > height {
        height := h;
      }
      var b := BoxBottom(box);
      if b > bottom {
        bottom := b;
      }
      AdvanceSnoc(RawWidths(boxes), i);
      MaxFromZeroSnoc(Heights(boxes), i);
      MaxFromZeroSnoc(Bottoms(boxes), i);
      width := width + w + 10;
      i := i + 1;
    }
    assert RawWidths(boxes)[..i] == RawWidths(boxes);
    assert Heights(boxes)[..i] == Heights(boxes);
    assert Bottoms(boxes)[..i] == Bottoms(boxes);
    m := Metrics(glyphs, width, height + bottom + 5, bottom);
  }

  /** The atlas is tall enough for every glyph: below the 5-row margin there
      is room for the tallest box above the deepest descent, each bound being
      reached by some glyph or else 0. */
  lemma AtlasFits(boxes: seq<Box>)
    ensures var bottom := MaxFromZero(Bottoms(boxes));
            var tallest := AtlasHeight(boxes) - bottom - 5;
            && bottom >= 0 && tallest >= 0
            && (forall k :: 0 <= k < |boxes| ==> BoxBottom(boxes[k]) <= bottom && BoxHeight(boxes[k]) <= tallest)
            && (bottom == 0 || exists k :: 0 <= k < |boxes| && BoxBottom(boxes[k]) == bottom)
            && (tallest == 0 || exists k :: 0 <= k < |boxes| && BoxHeight(boxes[k]) == tallest)
  {
    MaxFromZeroBounds(Heights(boxes));
    MaxFromZeroBounds(Bottoms(boxes));
  }

  // ---------------------------------------------------------------------------
  // The font-size search

  /** Outcome of the size search of `execute`. */
  datatype SizeSearch = Found(size: int) | InvalidFont | Exhausted

  /** Height of the box of "a", made non-negative (src/Command/FontConvertCommand.php:76-79). */
  function AbsHeight(b: Box): int
  {
    var h := BoxHeight(b);
    if h < 0 then -h else h
  }

  /** The box of "a" at some size is present and not yet taller than 35. */
  predicate TooSmall(box: Option<Box>)
  {
    box.Some? && AbsHeight(box.value) <= 35
  }

  /** The `do … while ($h <= 35)` loop of src/Command/FontConvertCommand.php:69-80.
      `boxOfA[s - 1]` is the box of "a" at size s, or None when `imagettfbbox`
      fails; the search is modelled over the sizes given, and Exhausted means
      none of them was large enough. */
  method FindFontSize(boxOfA: seq<Option<Box>>) returns (r: SizeSearch)
    ensures r.Found? ==>
              && 1 <= r.size <= |boxOfA|
              && boxOfA[r.size - 1].Some? && AbsHeight(boxOfA[r.size - 1].value) > 35
              && forall k :: 0 <= k < r.size - 1 ==> TooSmall(boxOfA[k])
    ensures r.InvalidFont? ==>
              exists k :: 0 <= k < |boxOfA| && boxOfA[k].None?
                && forall j :: 0 <= j < k ==> TooSmall(boxOfA[j])
    ensures r.Exhausted? ==> forall k :: 0 <= k < |boxOfA| ==> TooSmall(boxOfA[k])
  {
    var size := 0;
    while true
      invariant 0 <= size <= |boxOfA|
      invariant forall k :: 0 <= k < size ==> TooSmall(boxOfA[k])
      decreases |boxOfA| - size
    {
      size := size + 1;
      if size > |boxOfA| {
        return Exhausted;
      }
      var box := boxOfA[size - 1];
      if box.None? {
        return InvalidFont;
      }
      if AbsHeight(box.value) > 35 {
        return Found(size);
      }
    }
  }

  // ---------------------------------------------------------------------------
  // The marker row

  /** Left edge of marker k: the first marker at x = 5, each next one w + 10
      further (src/Command/FontConvertCommand.php:108, 114). */
  function MarkerStart(ws: seq<int>, k: nat): int
    requires k <= |ws|
  {
    5 + Advance(ws[..k])
  }

  /** The `$x` cursor of `createSimpleFont` / `createOutlineFont`: where each
      glyph's marker and bitmap are placed. */
  method LayoutMarkers(ws: seq<int>) returns (xs: seq<int>)
    ensures |xs| == |ws|
    ensures |ws| > 0 ==> xs[0] == 5
    ensures forall k :: 0 <= k < |ws| - 1 ==> xs[k + 1] == xs[k] + ws[k] + 10
    ensures forall k :: 0 <= k < |ws| ==> xs[k] == MarkerStart(ws, k)
  {
    xs := [];
    var x := 5;
    var i := 0;
    while i < |ws|
      invariant 0 <= i <= |ws|
      invariant |xs| == i
      invariant x == MarkerStart(ws, i)
      invariant forall k :: 0 <= k < i ==> xs[k] == MarkerStart(ws, k)
    {
      assert ws[..i + 1] == ws[..i] + [ws[i]];
      AdvanceAppend(ws[..i], [ws[i]]);
      xs := xs + [x];
      x := x + ws[i] + 10;
      i := i + 1;
    }
    forall k | 0 <= k < |ws| - 1
      ensures xs[k + 1] == xs[k] + ws[k] + 10
    {
      assert ws[..k + 1] == ws[..k] + [ws[k]];
      AdvanceAppend(ws[..k], [ws[k]]);
    }
  }

  /** Column c of row 0 lies in one of the markers, which `imageline` draws
      from x to x + w inclusive, the first at x0 and each next w + 10 further. */
  predicate InMarker(ws: seq<int>, x0: int, c: int)
    decreases |ws|
  {
    |ws| > 0 && ((x0 <= c <= x0 + ws[0]) || InMarker(ws[1..], x0 + ws[0] + 10, c))
  }

  lemma {:induction false} InMarkerAfter(ws: seq<int>, x0: int, c: int)
    requires forall k :: 0 <= k < |ws| ==> ws[k] >= 0
    requires InMarker(ws, x0, c)
    ensures x0 <= c
    decreases |ws|
  {
    if !(x0 <= c <= x0 + ws[0]) {
      InMarkerAfter(ws[1..], x0 + ws[0] + 10, c);
    }
  }

  /** Row 0 of an atlas image `width` columns wide, true where transparent: the
      image starts fully transparent, the markers are drawn opaque, and
      anything beyond the right edge is clipped. */
  function MarkerRow(ws: seq<int>, width: nat): (row: seq<bool>)
    ensures |row| == width
  {
    seq(width, c => !InMarker(ws, 5, c))
  }

  // ---------------------------------------------------------------------------
  // The converter's output

  /** Row 0 and height of the atlas image the converter writes. */
  datatype AtlasImage = AtlasImage(row0: seq<bool>, height: int)

  /** The atlas as written by `createSimpleFont` / `createOutlineFont`: the
      markers use the recorded widths, the image width is `getMetrics`'s width,
      which sums the raw box widths even in outline mode. */
  function ConvertAsWritten(boxes: seq<Box>, outline: bool): (img: AtlasImage)
    requires forall k :: 0 <= k < |boxes| ==> BoxWidth(boxes[k]) >= 0
    ensures |img.row0| >= 10 * |boxes|
    ensures |img.row0| + |boxes| * Pad(outline) == Advance(RecordedWidths(boxes, outline))
    ensures img.height >= 5
  {
    AdvanceAtLeast(RawWidths(boxes));
    AdvancePadded(boxes, outline);
    MaxFromZeroBounds(Heights(boxes));
    MaxFromZeroBounds(Bottoms(boxes));
    AtlasImage(MarkerRow(RecordedWidths(boxes, outline), Advance(RawWidths(boxes))), AtlasHeight(boxes))
  }

  /** The atlas with an image wide enough for the recorded widths. In simple
      mode it is the atlas as written; in outline mode it is 4 columns per
      glyph wider. */
  function Convert(boxes: seq<Box>, outline: bool): (img: AtlasImage)
    requires forall k :: 0 <= k < |boxes| ==> BoxWidth(boxes[k]) >= 0
    ensures !outline ==> img == ConvertAsWritten(boxes, outline)
    ensures |img.row0| == |ConvertAsWritten(boxes, outline).row0| + |boxes| * Pad(outline)
  {
    var ws := RecordedWidths(boxes, outline);
    AdvanceAtLeast(ws);
    assert !outline ==> ws == RawWidths(boxes);
    AdvancePadded(boxes, outline);
    AtlasImage(MarkerRow(ws, Advance(ws)), AtlasHeight(boxes))
  }

  lemma {:induction false} AdvancePadded(boxes: seq<Box>, outline: bool)
    ensures Advance(RecordedWidths(boxes, outline)) == Advance(RawWidths(boxes)) + |boxes| * Pad(outline)
    decreases |boxes|
  {
    if boxes != [] {
      assert RecordedWidths(boxes, outline)[1..] == RecordedWidths(boxes[1..], outline);
      assert RawWidths(boxes)[1..] == RawWidths(boxes[1..]);
      AdvancePadded(boxes[1..], outline);
    }
  }

  // ---------------------------------------------------------------------------
  // Reading the markers back

  lemma InMarkerBefore(ws: seq<int>, x0: int, c: int)
    requires forall k :: 0 <= k < |ws| ==> ws[k] >= 0
    requires c < x0
    ensures !InMarker(ws, x0, c)
  {
    if InMarker(ws, x0, c) {
      InMarkerAfter(ws, x0, c);
    }
  }

  /** Row 0 around the first marker of a track at x0: opaque over the marker,
      transparent over the 9 columns after it, and the rest of the track from
      there on. */
  lemma MarkerColumns(row: seq<bool>, ws: seq<int>, x0: int)
    requires 0 <= x0 && |ws| > 0 && forall k :: 0 <= k < |ws| ==> ws[k] >= 0
    requires forall c :: x0 <= c < |row| ==> (row[c] <==> !InMarker(ws, x0, c))
    ensures forall c :: x0 <= c <= x0 + ws[0] && c < |row| ==> !row[c]
    ensures forall c :: x0 + ws[0] < c < x0 + ws[0] + 10 && c < |row| ==> row[c]
    ensures forall c :: x0 + ws[0] + 10 <= c < |row| ==>
              (row[c] <==> !InMarker(ws[1..], x0 + ws[0] + 10, c))
  {
    forall c | x0 + ws[0] < c < x0 + ws[0] + 10 && c < |row|
      ensures row[c]
    {
      InMarkerBefore(ws[1..], x0 + ws[0] + 10, c);
    }
  }

  /** What the decoder makes of a marker track of widths ws starting at x0 in
      a row n columns wide, given the glyphs closed before it: each marker that
      is followed by a transparent column inside the row closes a glyph
      [x, x + w + 1), a marker that runs into the right edge stays open, and
      nothing after that is read. */
  function TrackScan(ws: seq<int>, x0: int, n: int, closed: seq<FontAtlas.Span>)
    : (r: (seq<FontAtlas.Span>, Option<int>))
    ensures |closed| <= |r.0| <= |closed| + |ws|
    decreases |ws|
  {
    if ws == [] || x0 >= n then (closed, None)
    else if x0 + ws[0] + 1 >= n then (closed, Some(x0))
    else TrackScan(ws[1..], x0 + ws[0] + 10, n, closed + [FontAtlas.Span(x0, x0 + ws[0] + 1)])
  }

  /** The decoder's scan over a marker track: from a column where the track
      begins, with no glyph open, it finds exactly what TrackScan describes. */
  lemma {:induction false} DecodeTrack(row: seq<bool>, ws: seq<int>, st: FontAtlas.ScanState)
    requires 0 <= st.column <= |row| && st.open.None?
    requires forall k :: 0 <= k < |ws| ==> ws[k] >= 0
    requires |st.closed| + |ws| <= Alphabet.Size
    requires forall c :: st.column <= c < |row| ==> (row[c] <==> !InMarker(ws, st.column, c))
    ensures var r := FontAtlas.Scan(row, st); (r.closed, r.open) == TrackScan(ws, st.column, |row|, st.closed)
    decreases |ws|
  {
    var x0, n := st.column, |row|;
    if ws == [] {
      if |st.closed| < Alphabet.Size {
        FontAtlas.ScanSkip(row, st, n);
      }
      return;
    }
    if x0 >= n {
      return;
    }
    var w := ws[0];
    var e := Min(x0 + w + 1, n);
    MarkerColumns(row, ws, x0);
    FontAtlas.OpenRun(row, st, e);
    if x0 + w + 1 >= n {
      return;
    }
    var s2 := FontAtlas.ScanState(e, st.closed, Some(x0));
    var closed := st.closed + [FontAtlas.Span(x0, x0 + w + 1)];
    FontAtlas.CloseRun(row, s2);
    var s3 := FontAtlas.ScanState(x0 + w + 2, closed, None);
    if |closed| == Alphabet.Size {
      assert ws[1..] == [];
      return;
    }
    var f := Min(x0 + w + 10, n);
    FontAtlas.ScanSkip(row, s3, f);
    if x0 + w + 10 >= n {
      return;
    }
    var s4 := FontAtlas.ScanState(x0 + w + 10, closed, None);
    assert TrackScan(ws, x0, n, st.closed) == TrackScan(ws[1..], x0 + w + 10, n, closed);
    assert FontAtlas.Scan(row, st) == FontAtlas.Scan(row, s4);
    DecodeTrack(row, ws[1..], s4);
  }

  /** The glyphs a marker track of widths ws starting at x0 should decode to:
      glyph k spans its marker [x_k, x_k + w_k] and ends at the transparent
      column after it. */
  function GlyphSpans(ws: seq<int>, x0: int): (spans: seq<FontAtlas.Span>)
    ensures |spans| == |ws|
  {
    seq(|ws|, k requires 0 <= k < |ws| =>
      FontAtlas.Span(x0 + Advance(ws[..k]), x0 + Advance(ws[..k]) + ws[k] + 1))
  }

  lemma GlyphSpansCons(ws: seq<int>, x0: int)
    requires |ws| > 0
    ensures GlyphSpans(ws, x0) == [FontAtlas.Span(x0, x0 + ws[0] + 1)] + GlyphSpans(ws[1..], x0 + ws[0] + 10)
  {
    var rest := GlyphSpans(ws[1..], x0 + ws[0] + 10);
    forall k | 0 <= k < |ws[1..]|
      ensures GlyphSpans(ws, x0)[k + 1] == rest[k]
    {
      assert ws[..k + 1][1..] == ws[1..][..k];
      assert ws[..k + 1][0] == ws[0];
    }
    assert ws[..0] == [];
  }

  /** A track whose last marker is followed by a transparent column inside the
      row decodes to all of its glyphs, with nothing pending. */
  lemma {:induction false} TrackScanFits(ws: seq<int>, x0: int, n: int, closed: seq<FontAtlas.Span>)
    requires forall k :: 0 <= k < |ws| ==> ws[k] >= 0
    requires x0 + Advance(ws) - 9 < n
    ensures TrackScan(ws, x0, n, closed) == (closed + GlyphSpans(ws, x0), None)
    decreases |ws|
  {
    if ws == [] {
      assert closed + GlyphSpans(ws, x0) == closed;
    } else {
      AdvanceAtLeast(ws[1..]);
      var next := closed + [FontAtlas.Span(x0, x0 + ws[0] + 1)];
      TrackScanFits(ws[1..], x0 + ws[0] + 10, n, next);
      GlyphSpansCons(ws, x0);
      assert next + GlyphSpans(ws[1..], x0 + ws[0] + 10) == closed + GlyphSpans(ws, x0);
    }
  }

  /** A non-empty track whose last marker reaches the right edge of the row
      (or beyond it) loses at least its last glyph. */
  lemma {:induction false} TrackScanOverruns(ws: seq<int>, x0: int, n: int, closed: seq<FontAtlas.Span>)
    requires |ws| > 0 && forall k :: 0 <= k < |ws| ==> ws[k] >= 0
    requires x0 + Advance(ws) - 9 >= n
    ensures |TrackScan(ws, x0, n, closed).0| < |closed| + |ws|
    decreases |ws|
  {
    if x0 < n && x0 + ws[0] + 1 < n {
      TrackScanOverruns(ws[1..], x0 + ws[0] + 10, n, closed + [FontAtlas.Span(x0, x0 + ws[0] + 1)]);
    }
  }

  /** The scan of a marker row whose track starts at column 5. */
  lemma ScanMarkerRow(ws: seq<int>, width: nat)
    requires |ws| <= Alphabet.Size && forall k :: 0 <= k < |ws| ==> ws[k] >= 0
    requires 5 <= width
    ensures var r := FontAtlas.Scan(MarkerRow(ws, width), FontAtlas.Start);
            (r.closed, r.open) == TrackScan(ws, 5, width, [])
  {
    var row := MarkerRow(ws, width);
    forall c | 0 <= c < 5
      ensures row[c]
    {
      InMarkerBefore(ws, 5, c);
    }
    FontAtlas.ScanSkip(row, FontAtlas.Start, 5);
    DecodeTrack(row, ws, FontAtlas.ScanState(5, [], None));
  }

  /** A full marker row, as wide as its markers need, decodes to one glyph
      per marker and nothing pending. */
  /** The last marker of a track ends 5 columns before the accumulated
      width: the track starts at 5 and the last glyph adds its width plus 10. */
  lemma LastMarkerEnd(ws: seq<int>)
    requires |ws| > 0
    ensures MarkerStart(ws, |ws| - 1) + ws[|ws| - 1] == Advance(ws) - 5
  {
    AdvanceSnoc(ws, |ws| - 1);
    assert ws[..|ws|] == ws;
  }

  lemma DecodeMarkers(ws: seq<int>, width: nat, height: int)
    requires |ws| == Alphabet.Size && forall k :: 0 <= k < |ws| ==> ws[k] >= 0
    requires width == Advance(ws)
    ensures var a := FontAtlas.Decode(MarkerRow(ws, width), height);
            && a.glyphs == GlyphSpans(ws, 5) && a.pending.None?
            && |a.glyphs| == Alphabet.Size
            && a.glyphHeight == height - 1
            && MarkerStart(ws, Alphabet.Size - 1) + ws[Alphabet.Size - 1] == width - 5
            && forall k :: 0 <= k < |a.glyphs| ==>
                 a.glyphs[k] == FontAtlas.Span(MarkerStart(ws, k), MarkerStart(ws, k) + ws[k] + 1)
  {
    LastMarkerEnd(ws);
    AdvanceAtLeast(ws);
    ScanMarkerRow(ws, width);
    TrackScanFits(ws, 5, width, []);
    assert [] + GlyphSpans(ws, 5) == GlyphSpans(ws, 5);
  }

  /** Reading back an atlas the converter wrote: with a box for every symbol
      of the alphabet, `getFont` finds all 36 glyphs, glyph k spanning the
      marker drawn at x_k (its w_k + 1 opaque columns), nothing pending, and
      glyph rows one fewer than the image height. */
  lemma ConvertRoundTrip(boxes: seq<Box>, outline: bool)
    requires |boxes| == Alphabet.Size
    requires forall k :: 0 <= k < |boxes| ==> BoxWidth(boxes[k]) >= 0
    ensures var img := Convert(boxes, outline);
            var a := FontAtlas.Decode(img.row0, img.height);
            var ws := RecordedWidths(boxes, outline);
            && |a.glyphs| == Alphabet.Size
            && a.pending.None?
            && a.glyphHeight == AtlasHeight(boxes) - 1
            && MarkerStart(ws, Alphabet.Size - 1) + ws[Alphabet.Size - 1] == |img.row0| - 5
            && forall k :: 0 <= k < |a.glyphs| ==>
                 a.glyphs[k] == FontAtlas.Span(MarkerStart(ws, k), MarkerStart(ws, k) + ws[k] + 1)
  {
    ConvertDrawsMarkers(boxes, outline);
    var ws := RecordedWidths(boxes, outline);
    DecodeImage(Convert(boxes, outline), ws, |Convert(boxes, outline).row0|);
  }

  /** An image whose row 0 holds the markers of ws decodes to their spans. */
  lemma DecodeImage(img: AtlasImage, ws: seq<int>, width: nat)
    requires |ws| == Alphabet.Size && forall k :: 0 <= k < |ws| ==> ws[k] >= 0
    requires width == Advance(ws) && img.row0 == MarkerRow(ws, width)
    ensures var a := FontAtlas.Decode(img.row0, img.height);
            && |a.glyphs| == Alphabet.Size
            && a.pending.None?
            && a.glyphHeight == img.height - 1
            && MarkerStart(ws, Alphabet.Size - 1) + ws[Alphabet.Size - 1] == |img.row0| - 5
            && forall k :: 0 <= k < |a.glyphs| ==>
                 a.glyphs[k] == FontAtlas.Span(MarkerStart(ws, k), MarkerStart(ws, k) + ws[k] + 1)
  {
    DecodeMarkers(ws, width, img.height);
  }

  lemma ConvertDrawsMarkers(boxes: seq<Box>, outline: bool)
    requires forall k :: 0 <= k < |boxes| ==> BoxWidth(boxes[k]) >= 0
    ensures var ws := RecordedWidths(boxes, outline);
            && (forall k :: 0 <= k < |ws| ==> ws[k] >= 0)
            && Convert(boxes, outline).row0 == MarkerRow(ws, Advance(ws))
            && Convert(boxes, outline).height == AtlasHeight(boxes)
  {
    AdvanceAtLeast(RecordedWidths(boxes, outline));
  }

  /** The converter as written, in outline mode: the image is 4 columns per
      glyph narrower than the markers need, so the last marker runs past the
      right edge, fewer than 36 glyphs are closed, and "z" cannot be drawn. */
  lemma OutlineAsWrittenLosesGlyphs(boxes: seq<Box>)
    requires |boxes| == Alphabet.Size
    requires forall k :: 0 <= k < |boxes| ==> BoxWidth(boxes[k]) >= 0
    ensures var img := ConvertAsWritten(boxes, true);
            var a := FontAtlas.Decode(img.row0, img.height);
            |a.glyphs| < Alphabet.Size && !FontAtlas.Covers(a, "z")
  {
    var ws := RecordedWidths(boxes, true);
    var img := ConvertAsWritten(boxes, true);
    var row := img.row0;
    AdvanceAtLeast(RawWidths(boxes));
    AdvancePadded(boxes, true);
    ScanMarkerRow(ws, |row|);
    TrackScanOverruns(ws, 5, |row|, []);
    var a := FontAtlas.Decode(row, img.height);
    assert |a.glyphs| < Alphabet.Size;
    assert Alphabet.SymbolAt(35) == 'z';
    assert Alphabet.IndexOf('z') == 35;
    assert "z"[0] == 'z';
  }
}
