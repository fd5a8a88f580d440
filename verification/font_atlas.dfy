/** Decoding of a font atlas: the scan of row 0 in `CaptchaGenerator::getFont`
    (src/CaptchaGenerator.php:283-316).

    Row 0 of an atlas image is a marker track. A pixel there is transparent when
    its alpha (`imagecolorat(...) >> 24`) is 127; the model takes the row as a
    `seq<bool>`, true meaning transparent. Every other row is glyph pixel data. */
module FontAtlas {
  import opened Results
  import Alphabet

  /** Columns [start, end) that the decoder assigned to one glyph: they are
      opaque in row 0, and `end` is the first transparent column after them. */
  datatype Span = Span(start: int, end: int)

  /** What `getFont` extracts from an atlas image: the closed glyph spans in
      alphabet order (glyph k draws Alphabet.Symbols[k]), the start column of a
      glyph whose marker runs to the right edge of the image, and the height of
      the glyph pixel data (the image height minus the marker row). */
  datatype Atlas = Atlas(glyphs: seq<Span>, pending: Option<int>, glyphHeight: int)

  /** One entry of the `letters` array: a glyph that never closed has no end. */
  datatype Metric = Metric(start: int, end: Option<int>)

  /** The loop state of the scan: the next column to read, the glyphs closed so
      far, and the start of the glyph being read, if any (`$readingSymbol`). */
  datatype ScanState = ScanState(column: int, closed: seq<Span>, open: Option<int>)

  predicate AllOpaque(row: seq<bool>, lo: int, hi: int)
  {
    0 <= lo <= hi <= |row| && forall c :: lo <= c < hi ==> !row[c]
  }

  predicate AllTransparent(row: seq<bool>, lo: int, hi: int)
  {
    0 <= lo <= hi <= |row| && forall c :: lo <= c < hi ==> row[c]
  }

  /** Column where the gap before glyph k begins: 0, or the end of glyph k-1. */
  function PrevEnd(spans: seq<Span>, k: int): int
    requires 0 <= k <= |spans|
  {
    if k == 0 then 0 else spans[k - 1].end
  }

  /** The closed glyphs are maximal opaque runs of row 0 in left-to-right
      order: each is followed by a transparent column, and the columns before
      each one, back to the previous glyph, are transparent. */
  ghost predicate Runs(row: seq<bool>, closed: seq<Span>)
  {
    && |closed| <= Alphabet.Size
    && (forall k :: 0 <= k < |closed| ==> closed[k].start < closed[k].end < |row|)
    && (forall j, k :: 0 <= j < k < |closed| ==> closed[j].end < closed[k].start)
    && (forall k :: 0 <= k < |closed| ==> AllOpaque(row, closed[k].start, closed[k].end))
    && (forall k :: 0 <= k < |closed| ==> row[closed[k].end])
    && (forall k {:trigger PrevEnd(closed, k)} :: 0 <= k < |closed| ==> AllTransparent(row, PrevEnd(closed, k), closed[k].start))
  }

  /** After the closed glyphs, the columns up to `column` are transparent, or
      transparent up to an open glyph that is opaque from its start to `column`. */
  ghost predicate Tail(row: seq<bool>, lo: int, open: Option<int>, column: int)
  {
    match open
    case None => AllTransparent(row, lo, column)
    case Some(s) => AllTransparent(row, lo, s) && s < column && AllOpaque(row, s, column)
  }

  /** The glyphs a scan of columns [0, column) has found are the maximal opaque
      runs of that prefix, in order. */
  ghost predicate Scanned(row: seq<bool>, st: ScanState)
  {
    && 0 <= st.column <= |row|
    && Runs(row, st.closed)
    && (forall k :: 0 <= k < |st.closed| ==> st.closed[k].end < st.column)
    && (st.open.Some? ==> |st.closed| < Alphabet.Size)
    && Tail(row, PrevEnd(st.closed, |st.closed|), st.open, st.column)
  }

  /** One iteration of the `for` loop of `getFont`: an opaque column starts a
      glyph, the next transparent column closes it and moves on to the next
      alphabet symbol, any other column changes nothing. */
  function Step(row: seq<bool>, st: ScanState): (r: ScanState)
    requires 0 <= st.column < |row|
    ensures r.column == st.column + 1
    ensures |st.closed| <= |r.closed| <= |st.closed| + 1
  {
    var i := st.column;
    if st.open.None? && !row[i] then
      ScanState(i + 1, st.closed, Some(i))
    else if st.open.Some? && row[i] then
      ScanState(i + 1, st.closed + [Span(st.open.value, i)], None)
    else
      ScanState(i + 1, st.closed, st.open)
  }

  /** Each step keeps the scan's invariant. */
  lemma StepKeepsScanned(row: seq<bool>, st: ScanState)
    requires Scanned(row, st)
    requires st.column < |row| && |st.closed| < Alphabet.Size
    ensures Scanned(row, Step(row, st))
  {
    if st.open.None? && !row[st.column] {
      OpenKeepsScanned(row, st);
    } else if st.open.Some? && row[st.column] {
      CloseKeepsScanned(row, st);
    } else {
      ExtendKeepsScanned(row, st);
    }
  }

  lemma OpenKeepsScanned(row: seq<bool>, st: ScanState)
    requires Scanned(row, st)
    requires st.column < |row| && |st.closed| < Alphabet.Size
    requires st.open.None? && !row[st.column]
    ensures Scanned(row, ScanState(st.column + 1, st.closed, Some(st.column)))
  {
  }

  lemma ExtendKeepsScanned(row: seq<bool>, st: ScanState)
    requires Scanned(row, st)
    requires st.column < |row| && |st.closed| < Alphabet.Size
    requires st.open.None? == row[st.column]
    ensures Scanned(row, ScanState(st.column + 1, st.closed, st.open))
  {
    var i := st.column;
    var lo := PrevEnd(st.closed, |st.closed|);
    match st.open
    case None =>
      assert AllTransparent(row, lo, i + 1) by {
        assert AllTransparent(row, lo, i);
      }
    case Some(s) =>
      assert AllOpaque(row, s, i + 1) by {
        assert AllOpaque(row, s, i);
      }
  }

  lemma CloseKeepsScanned(row: seq<bool>, st: ScanState)
    requires Scanned(row, st)
    requires st.column < |row| && |st.closed| < Alphabet.Size
    requires st.open.Some? && row[st.column]
    ensures Scanned(row, ScanState(st.column + 1, st.closed + [Span(st.open.value, st.column)], None))
  {
    var sp := Span(st.open.value, st.column);
    RunsAppend(row, st.closed, sp);
    var closed := st.closed + [sp];
    assert closed[|st.closed|] == sp;
    assert forall k :: 0 <= k < |st.closed| ==> closed[k] == st.closed[k];
  }

  /** A run that starts after the gap following the last closed glyph and is
      followed by a transparent column extends the list of runs. */
  lemma RunsAppend(row: seq<bool>, closed: seq<Span>, sp: Span)
    requires Runs(row, closed) && |closed| < Alphabet.Size
    requires sp.start < sp.end < |row|
    requires AllOpaque(row, sp.start, sp.end) && row[sp.end]
    requires AllTransparent(row, PrevEnd(closed, |closed|), sp.start)
    ensures Runs(row, closed + [sp])
  {
    var c2 := closed + [sp];
    var n := |closed|;
    forall k | 0 <= k < |c2|
      ensures c2[k].start < c2[k].end < |row|
      ensures AllOpaque(row, c2[k].start, c2[k].end) && row[c2[k].end]
      ensures AllTransparent(row, PrevEnd(c2, k), c2[k].start)
    {
      if k < n {
        assert c2[k] == closed[k];
        assert PrevEnd(c2, k) == PrevEnd(closed, k);
      } else {
        assert c2[k] == sp;
        assert PrevEnd(c2, k) == PrevEnd(closed, n);
      }
    }
    if n > 0 {
      var last := closed[n - 1];
      assert last.end < sp.start by {
        assert PrevEnd(closed, n) == last.end;
        assert row[last.end];
        assert !row[sp.start];
      }
    }
    AppendOrdered(closed, sp);
  }

  /** Appending a span that starts after the last one ends keeps the spans
      in strictly increasing order. */
  lemma AppendOrdered(closed: seq<Span>, sp: Span)
    requires forall k :: 0 <= k < |closed| ==> closed[k].start < closed[k].end
    requires forall j, k :: 0 <= j < k < |closed| ==> closed[j].end < closed[k].start
    requires |closed| > 0 ==> closed[|closed| - 1].end < sp.start
    ensures forall j, k :: 0 <= j < k < |closed + [sp]| ==> (closed + [sp])[j].end < (closed + [sp])[k].start
  {
    var c2 := closed + [sp];
    var n := |closed|;
    forall j, k | 0 <= j < k < |c2|
      ensures c2[j].end < c2[k].start
    {
      assert c2[j] == closed[j];
      if k < n {
        assert c2[k] == closed[k];
      } else if j < n - 1 {
        assert closed[j].end < closed[n - 1].start;
      }
    }
  }

  /** The `for` loop of `getFont`: it runs while columns remain and fewer than
      36 glyphs are closed. */
  function Scan(row: seq<bool>, st: ScanState): (r: ScanState)
    requires 0 <= st.column <= |row|
    ensures st.column <= r.column <= |row|
    ensures r.column == |row| || |r.closed| >= Alphabet.Size
    decreases |row| - st.column
  {
    if st.column >= |row| || |st.closed| >= Alphabet.Size then st
    else Scan(row, Step(row, st))
  }

  /** The whole scan keeps the invariant: what it returns are the maximal
      opaque runs of the columns it read. */
  lemma {:induction false} ScanKeepsScanned(row: seq<bool>, st: ScanState)
    requires Scanned(row, st)
    ensures Scanned(row, Scan(row, st))
    decreases |row| - st.column
  {
    if st.column < |row| && |st.closed| < Alphabet.Size {
      StepKeepsScanned(row, st);
      ScanKeepsScanned(row, Step(row, st));
    }
  }

  /** A stretch of columns that neither opens nor closes a glyph (transparent
      while no glyph is open, opaque while one is) leaves the scan's outcome
      as if it had started after the stretch. */
  lemma {:induction false} ScanSkip(row: seq<bool>, st: ScanState, j: int)
    requires 0 <= st.column <= j <= |row| && |st.closed| < Alphabet.Size
    requires forall c :: st.column <= c < j ==> row[c] == st.open.None?
    ensures Scan(row, st) == Scan(row, ScanState(j, st.closed, st.open))
    decreases j - st.column
  {
    if st.column < j {
      var next := Step(row, st);
      assert next == ScanState(st.column + 1, st.closed, st.open);
      ScanSkip(row, next, j);
    }
  }

  /** An opaque stretch [column, e) read with no glyph open opens a glyph at
      its first column and extends it to e. */
  lemma OpenRun(row: seq<bool>, st: ScanState, e: int)
    requires 0 <= st.column < e <= |row| && |st.closed| < Alphabet.Size && st.open.None?
    requires forall c :: st.column <= c < e ==> !row[c]
    ensures Scan(row, st) == Scan(row, ScanState(e, st.closed, Some(st.column)))
  {
    var next := Step(row, st);
    assert next == ScanState(st.column + 1, st.closed, Some(st.column));
    ScanSkip(row, next, e);
  }

  /** A transparent column read while a glyph is open closes that glyph. */
  lemma CloseRun(row: seq<bool>, st: ScanState)
    requires 0 <= st.column < |row| && |st.closed| < Alphabet.Size && st.open.Some?
    requires row[st.column]
    ensures Scan(row, st) == Scan(row, ScanState(st.column + 1, st.closed + [Span(st.open.value, st.column)], None))
  {
  }

  const Start: ScanState := ScanState(0, [], None)

  /** `getFont` on an atlas image whose row 0 is `row` and whose height is
      `imageHeight`: the glyphs are the first (at most 36) maximal opaque runs
      of row 0 that end before the right edge, each strictly after the previous
      one; a run that reaches the right edge is left pending. */
  function Decode(row: seq<bool>, imageHeight: int): (a: Atlas)
    ensures |a.glyphs| <= Alphabet.Size
    ensures a.glyphHeight == imageHeight - 1
    ensures forall k :: 0 <= k < |a.glyphs| ==>
              0 <= a.glyphs[k].start < a.glyphs[k].end < |row| && row[a.glyphs[k].end]
    ensures forall k :: 0 <= k < |a.glyphs| ==> AllOpaque(row, a.glyphs[k].start, a.glyphs[k].end)
    ensures forall j, k :: 0 <= j < k < |a.glyphs| ==> a.glyphs[j].end < a.glyphs[k].start
    ensures forall k :: 0 <= k < |a.glyphs| ==>
              AllTransparent(row, PrevEnd(a.glyphs, k), a.glyphs[k].start)
    ensures a.pending.Some? ==>
              && |a.glyphs| < Alphabet.Size
              && AllTransparent(row, PrevEnd(a.glyphs, |a.glyphs|), a.pending.value)
              && AllOpaque(row, a.pending.value, |row|)
              && a.pending.value < |row|
    ensures a.pending.None? && |a.glyphs| < Alphabet.Size ==>
              AllTransparent(row, PrevEnd(a.glyphs, |a.glyphs|), |row|)
  {
    var st := Scan(row, Start);
    ScanKeepsScanned(row, Start);
    Atlas(st.closed, st.open, imageHeight - 1)
  }

  /** Number of entries of the `letters` array: the closed glyphs and the
      pending one. */
  function Entries(a: Atlas): nat
  {
    |a.glyphs| + (if a.pending.Some? then 1 else 0)
  }

  function MetricAt(a: Atlas, k: nat): Metric
    requires k < Entries(a)
  {
    if k < |a.glyphs| then Metric(a.glyphs[k].start, Some(a.glyphs[k].end))
    else Metric(a.pending.value, None)
  }

  /** The `letters` array of `getFont` restricted to its first n entries: the
      entry for glyph k is stored under the k-th alphabet symbol. */
  function LettersUpTo(a: Atlas, n: nat): (m: map<char, Metric>)
    requires n <= Entries(a) <= Alphabet.Size
    ensures forall k :: 0 <= k < n ==> Alphabet.SymbolAt(k) in m && m[Alphabet.SymbolAt(k)] == MetricAt(a, k)
    ensures forall c :: c in m ==> Alphabet.IsSymbol(c) && Alphabet.IndexOf(c) < n
  {
    if n == 0 then map[]
    else
      LettersUpTo(a, n - 1)[Alphabet.SymbolAt(n - 1) := MetricAt(a, n - 1)]
  }

  /** The `letters` array of `getFont`: closed glyph k under the k-th symbol
      with its start and end, a pending glyph under the next symbol with a
      start and no end, and nothing else. */
  function Letters(a: Atlas): (m: map<char, Metric>)
    requires Entries(a) <= Alphabet.Size
    ensures forall k :: 0 <= k < |a.glyphs| ==>
              Alphabet.SymbolAt(k) in m
              && m[Alphabet.SymbolAt(k)] == Metric(a.glyphs[k].start, Some(a.glyphs[k].end))
    ensures a.pending.Some? ==>
              Alphabet.SymbolAt(|a.glyphs|) in m
              && m[Alphabet.SymbolAt(|a.glyphs|)] == Metric(a.pending.value, None)
    ensures forall c :: c in m <==> Alphabet.IsSymbol(c) && Alphabet.IndexOf(c) < Entries(a)
  {
    var m := LettersUpTo(a, Entries(a));
    assert forall c :: Alphabet.IsSymbol(c) && Alphabet.IndexOf(c) < Entries(a) ==> c in m by {
      forall c | Alphabet.IsSymbol(c) && Alphabet.IndexOf(c) < Entries(a) ensures c in m {
        assert c == Alphabet.SymbolAt(Alphabet.IndexOf(c));
      }
    }
    m
  }

  /** Every character of `text` has a closed glyph in the atlas, which is what
      `drawText` silently assumes when it indexes `letters`. */
  predicate Covers(a: Atlas, text: string)
  {
    forall i :: 0 <= i < |text| ==>
      Alphabet.IsSymbol(text[i]) && Alphabet.IndexOf(text[i]) < |a.glyphs|
  }

  /** The glyph that draws symbol c. */
  function GlyphOf(a: Atlas, c: char): Span
    requires Alphabet.IsSymbol(c) && Alphabet.IndexOf(c) < |a.glyphs|
  {
    a.glyphs[Alphabet.IndexOf(c)]
  }
}
