# captcha-generator, modelled in Dafny

This project models the core of the `php-crutch/captcha-generator` library and
its two console commands. It states the core's behaviour as pure functions and
short methods over immutable values, and proves properties of them.

- **The font atlas format.** A PNG strip holds the glyphs of the 36-symbol
  alphabet `0-9a-z`. Row 0 carries one opaque marker run above each glyph, and
  transparent gaps separate the runs. `CaptchaGenerator::getFont` decodes the
  strip (module `FontAtlas`). `font:convert` produces it from a TrueType font,
  as a plain or an outline atlas (modules `FontConvert` and `Outline`).
- **Generation.** `CaptchaGenerator::generate` does the following:
  - validates the text against the alphabet (modules `Pcre`, `Alphabet`, `Generator`);
  - lays the glyphs out with vertical jitter and optional spacing;
  - places the text mask on the canvas, centred or stretched, and sprinkles noise (module `Layout`);
  - maps each canvas pixel through a displacement field and blends the foreground and background colours (module `Compositor`);
  - hands the canvas to the encoder chosen by the configured type (module `Settings`).
- **The generator's configuration.** Its copy-on-write `with*`/`as*` builders and the
  font set are in module `Settings`, with PHP's clamping helpers in `PhpMath` and
  `Color`.
- **`captcha:create`.** The command parses its arguments and options and
  configures a generator (module `CreateCommand`).

Randomness (`mt_rand`, `array_rand`) is modelled as parameters that lie in the
ranges the code draws from. GD is modelled as data:
- an image is a sequence of rows;
- a font file is its row-0 transparency and its height;
- a TrueType bounding box is eight integers.

The displacement field of `apply` is a grid of given real positions, which `apply` truncates with `intval`.

Two PCRE details matter throughout:
- every anchored pattern in the code is written without the `D` modifier, so `$`
  also matches just before a final newline (`Pcre.StripFinalNewline`);
- every option pattern of `captcha:create` carries the `u` modifier, which makes PCRE
  use Unicode properties. `\d` then matches a decimal digit of any script (general
  category Nd, taken from Unicode 15.0 in `CreateCommand.DigitZeros`), while `[1-9]`,
  `[0-9]` and the literal letters stay ASCII. The `(int)` and `(float)` casts read only
  the leading ASCII digits, so "1٠x80" is a size of 1 x 80 and ".5٠" a density of 0.5.
  None of the literal letters has a non-ASCII case variant, so the `i` flag adds only
  their ASCII upper case.

`mb_strtolower` is modelled on ASCII letters only (see Left out).

Four details of the code that the model keeps exactly:
- The noise loop of `drawNoise` runs `ceil(v)` times, where `v` is the product of the buffer size and the density.
- `apply` truncates the displaced position toward zero (`intval`, `Compositor.Sampled`), so a position in (-1, 0) is sampled at 0 rather than skipped.
- The code has no error for a malformed atlas. A symbol with no glyph is an undefined array index in `drawText`, so a complete atlas is a precondition of `Generator.Generate`.
- Outline and plain atlases made as written do not share one row-0 format (see Findings).

## Model

| member | source | states |
|---|---|---|
| PhpMath.Clamp | src/CaptchaGenerator.php:53-57 | the `min(max(v, 0), 255)` clamp lands in range, is the nearest in-range value, leaves an in-range value alone and maps values below or above to the bound |
| PhpMath.ClampReal | src/CaptchaGenerator.php:93-98 | a density is clamped into [0, 1], unchanged when already inside, and mapped to the nearer bound otherwise |
| PhpMath.Trunc | src/CaptchaGenerator.php:341 | PHP's `(int)` cast truncates toward zero: for x >= 0 the result is the floor of x; for negative x, the result is at most one above x and not below it |
| Color.ClampRgb | src/CaptchaGenerator.php:50-59 | every channel of a configured colour is in [0, 255], and a colour that already fits is kept exactly |
| Alphabet.SymbolAt | src/CaptchaGenerator.php:35 | each alphabet position holds a digit or a lower-case ASCII letter |
| Alphabet.SymbolsAt | src/CaptchaGenerator.php:35 | the alphabet string has 36 characters and its k-th character is the k-th symbol |
| Alphabet.SymbolsSorted | src/CaptchaGenerator.php:35 | the symbols are strictly increasing, so no symbol repeats |
| Alphabet.SymbolsComplete | src/CaptchaGenerator.php:35 | every ASCII digit and lower-case letter occurs in the alphabet |
| Alphabet.IndexOf | src/CaptchaGenerator.php:304 | a symbol's glyph number is its unique position in the alphabet |
| Alphabet.LowerChar | src/CaptchaGenerator.php:155 | an upper-case ASCII letter moves 32 code points down to its lower-case letter; any other character is unchanged |
| Alphabet.Lower | src/CaptchaGenerator.php:155 | lower-casing keeps the length and lower-cases each character on its own |
| Pcre.StripFinalNewline | src/CaptchaGenerator.php:157 | the subject is the stripped text plus "\n" when it ends in a newline, and the stripped text itself otherwise |
| Pcre.AnchoredMatch | src/CaptchaGenerator.php:157 | `^X$` accepts every subject X matches. On a subject without a final newline it accepts exactly those; otherwise X matches the subject or the subject without its newline |
| Pcre.AnchoredMatchStrips | src/CaptchaGenerator.php:157 | for a body that matches no newline, `^body$` accepts a subject exactly when the body matches the subject with its final newline removed |
| Pcre.NewlineIgnored | src/Command/CaptchaCreateCommand.php:76 | one appended newline is invisible to an anchored pattern |
| Settings.AddFont | src/CaptchaGenerator.php:240-246 | with `unsetOther`, the set becomes just the font; otherwise, its members are the old ones plus the font. A font already present leaves the set as it was, and paths stay distinct |
| Settings.RemoveFont | src/CaptchaGenerator.php:248-254 | the members are the old ones minus the font; an absent font leaves the set unchanged; paths stay distinct |
| Settings.AddFontIdempotent | src/CaptchaGenerator.php:245 | adding the same font twice equals adding it once |
| Settings.RemoveUndoesAdd | src/CaptchaGenerator.php:240-254 | removing a font just added to a set that lacked it restores the set, order included |
| Settings.Default | src/CaptchaGenerator.php:17-40 | the constructor registers the three bundled atlases in order and satisfies every invariant the builders keep |
| Settings.WithSize | src/CaptchaGenerator.php:42-48 | only width and height change, stored as given; validity is kept |
| Settings.WithBackgroundColor | src/CaptchaGenerator.php:50-59 | only the background changes; it is set, in range, and equal to the arguments when they are channels; validity is kept |
| Settings.WithForegroundColor | src/CaptchaGenerator.php:61-70 | only the foreground changes; it is set, in range, and equal to the arguments when they are channels; validity is kept |
| Settings.WithCredits | src/CaptchaGenerator.php:72-77 | only the credits change; validity is kept |
| Settings.WithSpaces | src/CaptchaGenerator.php:79-84 | only the spacing flag changes; validity is kept |
| Settings.WithFluctuationAmplitude | src/CaptchaGenerator.php:86-91 | only the amplitude changes; a negative amplitude becomes 0, any other is kept |
| Settings.WithWhiteNoiseDensity | src/CaptchaGenerator.php:93-98 | only the white density changes, to the argument clamped into [0, 1] |
| Settings.WithBlackNoiseDensity | src/CaptchaGenerator.php:100-105 | only the black density changes, to the argument clamped into [0, 1] |
| Settings.WithFont | src/CaptchaGenerator.php:107-112 | only the font set changes, as `addFont` changes it; validity is kept |
| Settings.WithoutFont | src/CaptchaGenerator.php:114-119 | only the font set changes, as `removeFont` changes it; validity is kept |
| Settings.AsPng | src/CaptchaGenerator.php:121-127 | the type becomes png and only the quality also changes; a quality in [1, 9] is kept; lower becomes 1; higher becomes 9 |
| Settings.AsJpeg | src/CaptchaGenerator.php:129-135 | the type becomes jpeg with the quality clamped into [1, 100]; nothing else changes |
| Settings.AsGif | src/CaptchaGenerator.php:137-143 | the type becomes gif with quality 0; nothing else changes |
| Settings.AsWebp | src/CaptchaGenerator.php:145-151 | the type becomes webp with the quality clamped into [1, 100]; nothing else changes |
| Settings.Encoder | src/CaptchaGenerator.php:174-186 | the encoder matches the type; gif alone gets no parameter; png gets a level in [0, 8]; jpeg and webp get exactly the configured quality, which lies in [1, 100] |
| Settings.JpegQualityRoundTrip | src/CaptchaGenerator.php:129-135 | a quality in [1, 100] given to `asJpeg` is the parameter the jpeg encoder receives |
| Settings.WebpQualityRoundTrip | src/CaptchaGenerator.php:145-151 | a quality in [1, 100] given to `asWebp` is the parameter the webp encoder receives |
| Settings.BuilderDefaults | src/CaptchaGenerator.php:79-151 | without arguments, `asPng` gives quality 9 (encoder level 0), `asJpeg` and `asWebp` give 100, `withSpaces` turns spacing on, and `withFont` adds the font and keeps the others |
| Settings.PngLevelRoundTrip | src/CaptchaGenerator.php:185 | the png level passed to the encoder is 9 minus the quality given to `asPng` |
| Generator.ValidatesAsWritten | src/CaptchaGenerator.php:155-159 | the written check accepts every text the corrected check accepts; a text it accepts is non-empty, and every character but the last is an alphabet symbol in either case |
| Generator.ValidatesAsWrittenIff | src/CaptchaGenerator.php:155-159 | the written check accepts exactly the texts of alphabet symbols in either case, and each such text followed by one newline |
| Generator.NewlineSlipsThrough | src/CaptchaGenerator.php:157 | "ab\n" passes the written check, although no atlas has a glyph for its newline |
| Generator.ValidatedTextIsCovered | src/CaptchaGenerator.php:336 | against a complete atlas, the corrected check accepts exactly the non-empty texts whose every lower-cased character has a glyph |
| Generator.Generate | src/CaptchaGenerator.php:153-191 | fails with `UnsupportedCharacters` exactly when the text fails the corrected check of Findings row 1, then with `NoFont` exactly when the font set is empty, then with `InvalidSize` exactly when a canvas side is below 1. On success there is one blit per character from that character's glyph; mask, placement, noise counts, canvas and encoder follow from the configuration, and configured colours override the random ones |
| FontAtlas.Step | src/CaptchaGenerator.php:300-314 | each loop iteration advances one column and closes at most one glyph |
| FontAtlas.StepKeepsScanned | src/CaptchaGenerator.php:300-314 | one iteration keeps the scan invariant: closed glyphs are opaque runs over transparent gaps, in order, and an open run is opaque up to the column |
| FontAtlas.OpenKeepsScanned | src/CaptchaGenerator.php:303-307 | opening a run at an opaque column keeps the scan invariant |
| FontAtlas.ExtendKeepsScanned | src/CaptchaGenerator.php:300-314 | a column that neither opens nor closes a run keeps the scan invariant |
| FontAtlas.CloseKeepsScanned | src/CaptchaGenerator.php:309-313 | closing a run at a transparent column records a glyph that keeps the scan invariant |
| FontAtlas.RunsAppend | src/CaptchaGenerator.php:309-312 | a closed opaque run after a transparent gap extends the list of well-formed glyphs |
| FontAtlas.AppendOrdered | src/CaptchaGenerator.php:309-312 | a glyph starting after the last one keeps the glyph list strictly ordered |
| FontAtlas.Scan | src/CaptchaGenerator.php:300 | the loop stops at the image width or once 36 glyphs are closed |
| FontAtlas.ScanKeepsScanned | src/CaptchaGenerator.php:300-314 | the whole loop keeps the scan invariant |
| FontAtlas.ScanSkip | src/CaptchaGenerator.php:300-314 | columns that neither open nor close a run can be skipped without changing the outcome |
| FontAtlas.OpenRun | src/CaptchaGenerator.php:303-307 | an opaque stretch from a transparent state opens one run at its first column |
| FontAtlas.CloseRun | src/CaptchaGenerator.php:309-313 | a transparent column in an open run closes the glyph there |
| FontAtlas.Decode | src/CaptchaGenerator.php:283-316 | at most 36 glyphs, with glyph height the image height minus 1. Each glyph is an opaque run ending on a transparent column; glyphs are strictly ordered with transparent gaps between them; a run still open at the edge is pending |
| FontAtlas.LettersUpTo | src/CaptchaGenerator.php:304-310 | the first n alphabet symbols map to their metrics, and no other key is present |
| FontAtlas.Letters | src/CaptchaGenerator.php:292-315 | symbol k maps to glyph k's start and end. A pending run maps the next symbol to a start with no end. The keys are exactly the first symbols up to the entry count |
| FontConvert.AdvanceAppend | src/Command/FontConvertCommand.php:194 | the accumulated width of two glyph lists is the sum of their widths |
| FontConvert.AdvanceSnoc | src/Command/FontConvertCommand.php:194 | each glyph adds its width plus 10 |
| FontConvert.AdvanceAtLeast | src/Command/FontConvertCommand.php:194 | with non-negative glyph widths, the width is at least 10 per glyph |
| FontConvert.MaxFromZeroBounds | src/Command/FontConvertCommand.php:187-193 | the running maximum from 0 is non-negative, bounds every element, and is 0 or one of the elements |
| FontConvert.MaxFromZeroSnoc | src/Command/FontConvertCommand.php:187-193 | each glyph raises the running maximum to its value if larger |
| FontConvert.RawWidths | src/Command/FontConvertCommand.php:180 | the width of each box is its horizontal extent |
| FontConvert.RecordedWidths | src/Command/FontConvertCommand.php:182-184 | the recorded width is the box width plus 4 in outline mode and plus 0 otherwise |
| FontConvert.Heights | src/Command/FontConvertCommand.php:181 | the height of each box is its vertical extent |
| FontConvert.Bottoms | src/Command/FontConvertCommand.php:190 | the bottom of each box is the larger of its two lower y values |
| FontConvert.GetMetrics | src/Command/FontConvertCommand.php:171-198 | each glyph's recorded size is its padded box width and its box height. The width is the raw widths plus 10 each; the bottom is the largest bottom from 0; the height is tallest + bottom + 5 |
| FontConvert.AtlasFits | src/Command/FontConvertCommand.php:187-196 | every glyph fits under the recorded bottom and tallest height, and each bound is 0 or reached by some glyph |
| FontConvert.FindFontSize | src/Command/FontConvertCommand.php:69-80 | the size found is the first whose "a" is taller than 35 pixels, every smaller size being too short. An invalid font fails at the first size whose box cannot be read |
| FontConvert.LayoutMarkers | src/Command/FontConvertCommand.php:108-115 | the first marker starts at column 5 and each next one starts its predecessor's width plus 10 later |
| FontConvert.InMarkerAfter | src/Command/FontConvertCommand.php:112 | a marker column never lies left of the first marker |
| FontConvert.InMarkerBefore | src/Command/FontConvertCommand.php:112 | no column left of the first marker is a marker column |
| FontConvert.MarkerColumns | src/Command/FontConvertCommand.php:112-114 | row 0 is opaque over the inclusive first marker, transparent for the next 9 columns, and then repeats the pattern for the remaining glyphs |
| FontConvert.MarkerRow | src/Command/FontConvertCommand.php:106-112 | row 0 of the atlas has the image width |
| FontConvert.ConvertAsWritten | src/Command/FontConvertCommand.php:96-169 | the atlas as written is at least 10 columns per glyph wide and at least 5 rows tall; in outline mode it is exactly 4 columns per glyph narrower than its markers advance |
| FontConvert.Convert | src/Command/FontConvertCommand.php:96-169 | a plain atlas is produced as written; an outline atlas is 4 columns per glyph wider, its width accounting for the padded widths |
| FontConvert.AdvancePadded | src/Command/FontConvertCommand.php:182-194 | the padded widths add up to the raw width plus 4 per glyph in outline mode |
| FontConvert.TrackScan | src/CaptchaGenerator.php:300-314 | reading a marker row closes at most one glyph per marker |
| FontConvert.DecodeTrack | src/CaptchaGenerator.php:300-314 | decoding a marker row follows the markers one by one |
| FontConvert.GlyphSpansCons | src/CaptchaGenerator.php:304-310 | the first marker decodes to the span from its start to one past its end, and the rest follow 10 columns after it |
| FontConvert.TrackScanFits | src/CaptchaGenerator.php:300-314 | when the row reaches past the last marker, every marker decodes to its span and nothing is left open |
| FontConvert.TrackScanOverruns | src/CaptchaGenerator.php:300-314 | when the row ends before the last marker closes, fewer glyphs than markers are decoded |
| FontConvert.ScanMarkerRow | src/CaptchaGenerator.php:300-314 | the decoder run over a marker row produces the tracked glyph list |
| FontConvert.LastMarkerEnd | src/Command/FontConvertCommand.php:133-165 | the last marker of a track starting at 5 ends 5 columns before the accumulated width Σ(w + 10) |
| FontConvert.DecodeMarkers | src/CaptchaGenerator.php:283-316 | a 36-marker row as wide as the accumulated widths decodes to the 36 marker spans and no pending run; the last marker ends 5 columns before the right edge |
| FontConvert.ConvertRoundTrip | src/Command/FontConvertCommand.php:96-169 | an atlas built by the corrected conversion decodes to all 36 glyphs with nothing pending; glyph k spans its marker, from its start to one past its end, and the glyph height is the atlas height minus 1. The last marker ends at column width - 5 |
| FontConvert.OutlineAsWrittenLosesGlyphs | src/Command/FontConvertCommand.php:182-194 | an outline atlas made as written decodes to fewer than 36 glyphs and has no "z" |
| Outline.SetPixel | src/Command/FontConvertCommand.php:152 | `imagesetpixel` keeps the image shape |
| Outline.SetPixelAt | src/Command/FontConvertCommand.php:152 | `imagesetpixel` changes exactly the addressed pixel, and a write outside the image changes nothing |
| Outline.SetPixels | src/Command/FontConvertCommand.php:152-157 | a run of pixel writes keeps the image shape |
| Outline.SetPixelsMiss | src/Command/FontConvertCommand.php:152-157 | a pixel that no write lands on keeps its value |
| Outline.SetPixelsHit | src/Command/FontConvertCommand.php:152-157 | a pixel that writes land on, all with the same value, ends with that value |
| Outline.PixelWrites | src/Command/FontConvertCommand.php:151-158 | one ink pixel writes a semi-transparent pixel two columns left and right, then the 3 x 3 opaque block column by column |
| Outline.StampPixel | src/Command/FontConvertCommand.php:151-158 | stamping one ink pixel keeps the image shape |
| Outline.StampPixelEffect | src/Command/FontConvertCommand.php:151-158 | after one ink pixel, the 3 x 3 block around it is opaque, and the two side pixels are semi-transparent. Every pixel outside the stamp is unchanged |
| Outline.StampRow | src/Command/FontConvertCommand.php:149-160 | stamping a bitmap row keeps the image shape |
| Outline.Stamp | src/Command/FontConvertCommand.php:148-161 | stamping the bitmap keeps the image shape |
| Outline.StampedAfterPixel | src/Command/FontConvertCommand.php:151-158 | after one more ink pixel, a pixel it touched is inked and one it did not keeps its state |
| Outline.StampRowEffect | src/Command/FontConvertCommand.php:149-160 | after a bitmap row, exactly the pixels some ink of the row touches are inked; the others are unchanged |
| Outline.StampRowStep | src/Command/FontConvertCommand.php:149-160 | one more column of a bitmap row extends the set of touched pixels by that column's stamp |
| Outline.StampRowsEffect | src/Command/FontConvertCommand.php:148-161 | after the first m rows, a pixel is inked if their ink touches it and unchanged otherwise |
| Outline.HitInRowIff | src/Command/FontConvertCommand.php:149-151 | a pixel is touched by a row exactly when some ink column of that row stamps it |
| Outline.HitInRowsIff | src/Command/FontConvertCommand.php:148-151 | a pixel is touched by the first m rows exactly when some ink pixel among them stamps it |
| Outline.StampEffect | src/Command/FontConvertCommand.php:148-161 | after the whole bitmap, a pixel some ink pixel stamps is opaque or semi-transparent, and every other pixel is unchanged |
| Outline.StampKeepsRow0 | src/Command/FontConvertCommand.php:148-161 | with bitmap rows 0 and 1 blank, the stamp leaves row 0, the marker row, untouched |
| Layout.Odd | src/CaptchaGenerator.php:328-331 | the direction is -1 or 1, and it is 1 exactly when the drawn bit is 1 |
| Layout.JitterBound | src/CaptchaGenerator.php:339 | the offset bound is the integer nearest to a third of the amplitude |
| Layout.JitterBoundIsRound | src/CaptchaGenerator.php:339 | the bound equals PHP's `round(amplitude / 3)`, halves rounded away from zero |
| Layout.JumpAlternates | src/CaptchaGenerator.php:338 | the first jump is minus half the amplitude times the direction. Each next glyph flips the sign; every jump is plus or minus half the amplitude |
| Layout.DstYNearCentre | src/CaptchaGenerator.php:338-341 | every glyph's top is within half the amplitude plus the offset bound plus 1 of the vertically centred position |
| Layout.CursorGrows | src/CaptchaGenerator.php:353 | the cursor never drops below 1 and never decreases from one glyph to the next |
| Layout.DrawText | src/CaptchaGenerator.php:322-354 | each blit copies its symbol's glyph from atlas row 1 to the jittered height. The first starts at 1 minus the shift, and each next one starts the previous end minus the shift. The text width is the cursor, at least 1, and ends with the last glyph. Glyphs overlap by one pixel without spacing and are 3 to 10 pixels apart with it |
| Layout.StepFields | src/CaptchaGenerator.php:345-351 | each recorded blit takes its source, width and height from the symbol's glyph and the jitter |
| Layout.GapsBounded | src/CaptchaGenerator.php:343-353 | the gap between neighbouring glyphs is -1 without spacing and 3 to 10 with it |
| Layout.StepsLaidOut | src/CaptchaGenerator.php:345-353 | blit positions chain from 1 minus the first shift, and every blit lies inside the final cursor width |
| Layout.MaskSize | src/CaptchaGenerator.php:356 | the mask is one pixel wider and taller than the text and the canvas |
| Layout.Place | src/CaptchaGenerator.php:379-408 | the text is centred exactly when it fits the canvas. It then lies inside the canvas, with the right margin equal to the left or one larger |
| Layout.NoiseBufferWidth | src/CaptchaGenerator.php:379-408 | noise goes into the text mask, of width text + 1, when centred, and into the canvas buffer, of width canvas + 1, when stretched |
| Layout.NoiseCount | src/CaptchaGenerator.php:232-237 | the loop runs the least number of times that is at least (H - 30) x buffer width x density |
| Layout.NoiseRangesNonEmpty | src/CaptchaGenerator.php:232-236 | when any dot is drawn, both `mt_rand` ranges are non-empty |
| Layout.DrawNoise | src/CaptchaGenerator.php:226-238 | all white dots come first, then all black ones, each at its drawn point, and every dot lies inside the buffer |
| Compositor.SamplesInside | src/CaptchaGenerator.php:443-445 | a position the bounds test lets through has all four samples inside the mask |
| Compositor.MixAsWritten | src/CaptchaGenerator.php:472-491 | with integer positions the bilinear weights vanish, so each channel is `((255 - c) * fg + c * bg) / 255` of the top-left sample c |
| Compositor.TruncScaled | src/CaptchaGenerator.php:484-490 | truncating the real blend gives the integer quotient |
| Compositor.BlendBetween | src/CaptchaGenerator.php:484-491 | a blended channel lies between the foreground and background channels; sample 0 gives the foreground and sample 255 the background |
| Compositor.DefineColor | src/CaptchaGenerator.php:457-492 | no colour is returned exactly when all four samples are 255 |
| Compositor.DefineColorIsBlend | src/CaptchaGenerator.php:457-492 | the pixel that results, drawn or left at the background, is the blend of the top-left sample in every case, the all-ink shortcut included |
| Compositor.PixelAfter | src/CaptchaGenerator.php:443-452 | a position outside [0, W-2] x [0, H-2] leaves the background |
| Compositor.Apply | src/CaptchaGenerator.php:438-454 | the canvas has the configured width and height |
| Compositor.ApplyIsBlend | src/CaptchaGenerator.php:438-454 | every canvas pixel is the background when its `intval`-truncated source is out of bounds and otherwise the blend of the mask at that source |
| Compositor.Sampled | src/CaptchaGenerator.php:440-441 | `intval` of both displaced coordinates, truncation toward zero: a non-negative coordinate is rounded down |
| Compositor.SmallNegativeKept | src/CaptchaGenerator.php:440-443 | a displaced x in (-1, 0) is sampled at column 0 and passes the bounds test, while rounding down would give -1 and skip it |
| CreateCommand.DigitChar | src/Command/CaptchaCreateCommand.php:77 | a digit value has a digit character that reads back as the value |
| CreateCommand.NumeralValue | src/Command/CaptchaCreateCommand.php:77 | an ASCII digit string of length n is worth less than 10^n |
| CreateCommand.Decimal | src/Command/CaptchaCreateCommand.php:77 | a number's decimal spelling is ASCII digits only, without a leading zero when positive |
| CreateCommand.DecimalRoundTrip | src/Command/CaptchaCreateCommand.php:77 | the `(int)` cast reads a decimal spelling back as the number |
| CreateCommand.NumeralAtLeastLead | src/Command/CaptchaCreateCommand.php:77 | a numeral is worth at least its leading digit |
| CreateCommand.NumeralIsCanonical | src/Command/CaptchaCreateCommand.php:77 | an ASCII numeral without leading zeros is positive and is the decimal spelling of its value |
| CreateCommand.Span | src/Command/CaptchaCreateCommand.php:76 | the greedy `\d*`, and the cast's scan of ASCII digits, take the longest prefix of characters of their class |
| CreateCommand.SpanOf | src/Command/CaptchaCreateCommand.php:76 | a run of a class followed by a character outside it is exactly what the greedy scan takes |
| CreateCommand.SpanAll | src/Command/CaptchaCreateCommand.php:92 | a string wholly of one class is taken whole |
| CreateCommand.IntValue | src/Command/CaptchaCreateCommand.php:77 | `(int)` of a string that starts with 1-9 is at least 1, and of an ASCII digit string is its value |
| CreateCommand.WrittenNumeral | src/Command/CaptchaCreateCommand.php:76-77 | the decimal spelling of n followed by digits of other scripts is a `[1-9]\d*` token that `(int)` reads as n |
| CreateCommand.TokenIsWritten | src/Command/CaptchaCreateCommand.php:76-77 | every `[1-9]\d*` token is the decimal spelling of its `(int)` value followed by digits of other scripts only |
| CreateCommand.PlainTokenValue | src/Command/CaptchaCreateCommand.php:76-77 | an ASCII numeral without leading zeros is a token, read whole |
| CreateCommand.OrDefault | src/Command/CaptchaCreateCommand.php:75 | `??` takes the given option, or the default when it is missing |
| CreateCommand.ParseSize | src/Command/CaptchaCreateCommand.php:75-81 | an accepted size has both sides at least 1 |
| CreateCommand.ParseWritten | src/Command/CaptchaCreateCommand.php:76-78 | two `[1-9]\d*` tokens around an `x` or `X`, optionally followed by a newline, parse to their `(int)` values |
| CreateCommand.SizeRoundTrip | src/Command/CaptchaCreateCommand.php:75-81 | writing a size as `WxH` (either x, each side possibly followed by digits of other scripts, optionally a final newline) and parsing it gives it back |
| CreateCommand.SizeParsedIsWritten | src/Command/CaptchaCreateCommand.php:76-78 | every accepted size string is W and H in decimal, each possibly followed by digits of other scripts, around an x, up to one final newline |
| CreateCommand.ParseAmplitude | src/Command/CaptchaCreateCommand.php:83-90 | an accepted amplitude is at least 1; a missing option gives 8; "0" is rejected |
| CreateCommand.AmplitudeRoundTrip | src/Command/CaptchaCreateCommand.php:83-84 | every positive amplitude written in decimal, possibly followed by digits of other scripts, is accepted as itself |
| CreateCommand.AmplitudeParsedIsWritten | src/Command/CaptchaCreateCommand.php:83-84 | every accepted amplitude string is its value in decimal followed by digits of other scripts only |
| CreateCommand.QuotientBelowOne | src/Command/CaptchaCreateCommand.php:127 | a quotient n / p with n < p lies in [0, 1) |
| CreateCommand.Fraction | src/Command/CaptchaCreateCommand.php:127 | the exact value of a decimal fraction lies in [0, 1) |
| CreateCommand.FractionPart | src/Command/CaptchaCreateCommand.php:92 | what `(0)?\.` leaves for `[0-9]\d*` starts with an ASCII digit and continues with digits of any script |
| CreateCommand.FloatFraction | src/Command/CaptchaCreateCommand.php:127 | the `(float)` reading of the places lies in [0, 1) |
| CreateCommand.ParseNoise | src/Command/CaptchaCreateCommand.php:92-108 | an accepted density lies in [0, 1) |
| CreateCommand.Padded | src/Command/CaptchaCreateCommand.php:92 | a number below 10^k written with exactly k zero-padded digits reads back as itself |
| CreateCommand.NoiseParsedIsWritten | src/Command/CaptchaCreateCommand.php:92-108 | conversely, every accepted density is "." or "0.", then k >= 1 ASCII places spelling some n < 10^k, then digits of other scripts, up to one final newline, and it is read as n / 10^k |
| CreateCommand.LeadOfPlaces | src/Command/CaptchaCreateCommand.php:92 | the places the pattern finds follow a lead of "." or "0." |
| CreateCommand.PlacesAreWritten | src/Command/CaptchaCreateCommand.php:92-127 | the places `[0-9]\d*` accepts are the k-place zero-padded spelling of their value followed by digits of other scripts |
| CreateCommand.TailAfterPlaces | src/Command/CaptchaCreateCommand.php:92 | what follows the ASCII places is digits of other scripts only |
| CreateCommand.PaddedOfDigits | src/Command/CaptchaCreateCommand.php:127 | k ASCII digits are the k-place zero-padded spelling of their value |
| CreateCommand.NoiseRoundTrip | src/Command/CaptchaCreateCommand.php:92-108 | every n / 10^k written with k places after "." or "0.", possibly followed by digits of other scripts and a final newline, is accepted as n / 10^k |
| CreateCommand.WrittenFraction | src/Command/CaptchaCreateCommand.php:92 | k ASCII places followed by digits of other scripts pass `[0-9]\d*`, and the cast reads exactly the k places |
| CreateCommand.LeadIsRead | src/Command/CaptchaCreateCommand.php:92 | after "." or "0." the pattern finds exactly the places that follow |
| CreateCommand.PlainDensity | src/Command/CaptchaCreateCommand.php:92-108 | a density with ASCII places only, given or defaulted, reads as their exact fraction |
| CreateCommand.Hundredths | src/Command/CaptchaCreateCommand.php:92-108 | a density ".ab" of two ASCII places reads as (10a + b) / 100 |
| CreateCommand.Tenths | src/Command/CaptchaCreateCommand.php:92-108 | a density "0.a" of one ASCII place reads as a / 10 |
| CreateCommand.WholeRefused | src/Command/CaptchaCreateCommand.php:92-108 | "1" and "1.0" are not densities, whatever the default |
| CreateCommand.NoiseDefaults | src/Command/CaptchaCreateCommand.php:92-108 | the default densities read as 0.16 and 0.03 |
| CreateCommand.NoiseSpellings | src/Command/CaptchaCreateCommand.php:92-108 | "0.5" reads as 0.5, and "1" and "1.0" are rejected |
| CreateCommand.ParseType | src/Command/CaptchaCreateCommand.php:113-114 | the type is gif, webp or jpeg exactly when the lower-cased option (one final newline dropped) names it; anything else is png |
| CreateCommand.ParseQuality | src/Command/CaptchaCreateCommand.php:115-119 | an accepted quality is at least 1, and a missing option gives none |
| CreateCommand.QualityParsedIsWritten | src/Command/CaptchaCreateCommand.php:115-119 | conversely, an accepted quality is its value written in decimal, followed only by digits of other scripts, up to one final newline |
| CreateCommand.QualityRoundTrip | src/Command/CaptchaCreateCommand.php:115-119 | every positive quality written in decimal, possibly followed by digits of other scripts, is accepted as itself |
| CreateCommand.ArabicIndicDigits | src/Command/CaptchaCreateCommand.php:76 | the Arabic-Indic digits zero and three are `\d` digits that do not continue an ASCII number |
| CreateCommand.SizeWithOtherDigit | src/Command/CaptchaCreateCommand.php:75-81 | for any decimal digit z of another script, "1zx80" is accepted as the size 1 x 80 |
| CreateCommand.NumeralsWithOtherDigit | src/Command/CaptchaCreateCommand.php:83-119 | for any decimal digit z of another script, "8z" is accepted as amplitude 8 and "7z" as quality 7 |
| CreateCommand.NoiseWithOtherDigit | src/Command/CaptchaCreateCommand.php:92-108 | for any decimal digit z of another script, ".5z" is accepted as density 0.5 |
| CreateCommand.ArabicIndicExamples | src/Command/CaptchaCreateCommand.php:75-119 | "1٠x80" is the size 1 x 80, "8٣" the amplitude 8, "7٠" the quality 7 and ".5٠" the density 0.5 |
| CreateCommand.HexDec | src/Command/CaptchaCreateCommand.php:180 | `hexdec` of one character is below 16, and of two below 256 |
| CreateCommand.HexDecSkipsAll | src/Command/CaptchaCreateCommand.php:180 | `hexdec` of characters none of which is a hex digit is 0 |
| CreateCommand.Channel2 | src/Command/CaptchaCreateCommand.php:180 | `hexdec` of two characters is a channel in [0, 255], reading only the hex digits among them |
| CreateCommand.ParseColor | src/Command/CaptchaCreateCommand.php:163-181 | a colour is rejected exactly when it is not "random" or 3 or 6 hex digits in any case (one final newline allowed), and the error names the parameter and the value. Only "random" itself gives no colour; every colour returned is in range |
| CreateCommand.ShortColorDoubles | src/Command/CaptchaCreateCommand.php:173-180 | a 3-digit code reads like the 6-digit code that doubles each digit |
| CreateCommand.ColorRoundTrip | src/Command/CaptchaCreateCommand.php:178-180 | every colour written as 6 hex digits parses back to itself |
| CreateCommand.RandomInOtherCase | src/Command/CaptchaCreateCommand.php:165-180 | "random" in any other case passes the pattern, and `hexdec` reads it as the colour (10, 13, 0) |
| CreateCommand.ApplyType | src/Command/CaptchaCreateCommand.php:131-144 | the type switch sets the type and the clamped quality, or the per-type default (png 6, jpeg and webp 70, gif 0) when no quality is given. Nothing else changes |
| CreateCommand.ParseOptions | src/Command/CaptchaCreateCommand.php:75-111 | the options parse exactly when size, amplitude, both densities and both colours are accepted. Otherwise the first failing check in the order size, amplitude, white noise, black noise, background, foreground gives the error, carrying the option's raw value (or its default). Each parsed value is the option's reading |
| CreateCommand.Configure | src/Command/CaptchaCreateCommand.php:123-150 | the generator the builders produce is valid, has the bundled fonts and carries every parsed value and flag |
| CreateCommand.Empty | src/Command/CaptchaCreateCommand.php:59-64 | an argument `empty` lets through is present and non-empty, and "0" counts as empty |
| CreateCommand.Execute | src/Command/CaptchaCreateCommand.php:55-156 | text, file, directory existence and writability are checked in that order, then the options, then `generate`'s text check (corrected as in Findings row 1). A run succeeds exactly when all pass. The configured generator then carries the parsed values, the type, the quality that `--type`/`--quality` select (png 6 and jpeg or webp 70 when no quality is given, a given quality clamped, gif always 0), the credits, the spacing flag, the three bundled fonts and sides of at least 1, so `generate`'s other two errors cannot occur |
| CreateCommand.ZeroTextRefused | src/Command/CaptchaCreateCommand.php:59-61 | the text "0" is one the generator accepts, yet the command refuses it as missing |
| CreateCommand.UnsupportedTextFails | src/Command/CaptchaCreateCommand.php:152 | a text with a character outside the alphabet passes the command's own checks and fails in `generate` |
| CreateCommand.DefaultSize | src/Command/CaptchaCreateCommand.php:75-81 | the default size parses as 160 x 80 |
| CreateCommand.DefaultColor | src/Command/CaptchaCreateCommand.php:110-111 | the default colour leaves the choice to the generator |
| CreateCommand.DefaultOptionsParse | src/Command/CaptchaCreateCommand.php:75-111 | with no options the command parses 160 x 80, amplitude 8, densities 0.16 and 0.03 and random colours |
| CreateCommand.DefaultInvocation | src/Command/CaptchaCreateCommand.php:55-152 | with only a valid text and a file, the command configures a 160 x 80 png at quality 6 with amplitude 8, densities 0.16 and 0.03 and random colours |

## Left out

- Pixel I/O through GD:
  - reading PNG files, allocating colours, and the `imagecopy` and `imagecopyresampled` kernels are not modelled;
  - the text blits, the placement and the noise dots are stated as lists rather than painted.
- The sine displacement field of `apply` (src/CaptchaGenerator.php:424-441) is not modelled. It is floating-point trigonometry, so the positions handed to `intval` are an input grid of exact reals.
- The credits footer of `drawCredits` (src/CaptchaGenerator.php:210-220) is not modelled. It only paints a rectangle and a GD string.
- Encoding to bytes and `file_put_contents` are not modelled. `Settings.Encoder` states only which encoder and parameter are chosen.
- Densities and the blend are modelled in exact real arithmetic instead of IEEE doubles. The default densities 1/6 and 1/30 are therefore exact.
- PHP integer overflow is not modelled. Integers are unbounded, so a numeral option beyond `PHP_INT_MAX`, which `(int)` saturates in the code, keeps its value here.
- Strings are sequences of Unicode characters, so an option that is not valid UTF-8, on which `preg_match` with the `u` modifier fails and leaves no match, cannot be expressed.
- `\d` follows the Unicode 15.0 digit table. A PCRE2 built with another Unicode version differs in the digits added or missing.
- Alphabet.Lower: lower-cases ASCII letters only, whereas `mb_strtolower` follows Unicode. A character such as the Kelvin sign (U+212A), which lower-cases to an ASCII letter, passes the code's validation but not the model's.
- Generator.Generate: tests the corrected check `Validates`. The code's own check, `Generator.ValidatesAsWritten`, also passes a text followed by one newline. For such a text `drawText` indexes a glyph that does not exist, which `Generator.NewlineSlipsThrough` states; the failure that follows inside GD is not modelled.
- CreateCommand.Execute: checks the text with the corrected `Validates`, so a text followed by one newline is refused with `UnsupportedCharacters` here, while the code goes on into `drawText`.
- Generator.Generate: requires every font in the set to decode to all 36 glyphs (`FontsLoad`). The code has no error for a short atlas, so a missing glyph is an undefined index there.
- FontConvert.FindFontSize: searches only the sizes whose boxes it is given. It reports `Exhausted` when none is tall enough, where the code would keep counting sizes.
- TrueType rendering (`imagettfbbox`, `imagettftext`) is not modelled. Boxes are given integers, and glyph bitmaps are given boolean grids.
- FontConvert.Convert: assumes text drawn by `imagettftext` never reaches row 0, which then holds only the markers. For the outline stamp, `Outline.StampKeepsRow0` proves this when bitmap rows 0 and 1 are blank. The transparent redraw of the letter (src/Command/FontConvertCommand.php:162) is not modelled.
- Directory checks of both commands are boolean inputs of `CreateCommand.Execute`. `dirname` is not modelled.
- The console framework and the `execute` of the `font:convert` command, apart from its size loop, are not modelled. This includes `AbstractCommand`, argument declarations and the exception classes.
- `mt_rand` and `array_rand` are modelled as parameters constrained to their ranges. Distributions are not modelled.

## Findings

| source | as written | input that shows it | evidently intended | confidence | as-written member | corrected member |
|---|---|---|---|---|---|---|
| src/CaptchaGenerator.php:157 | `/^[0-9a-z]+$/i` without the `D` modifier also accepts a text ending in one newline | `generate("ab\n")` passes validation; `drawText` then looks up a glyph for "\n" that no atlas has | reject every text with a character outside the alphabet | not executed | Generator.NewlineSlipsThrough | Generator.ValidatedTextIsCovered |
| src/Command/FontConvertCommand.php:194 | in outline mode the atlas is Σ(raw width + 10) wide, while the markers advance by raw width + 4 + 10 | any 36 glyph boxes with outline on: the atlas is 144 columns narrower than its markers need, so the last markers never close | the width accumulates the recorded (padded) glyph width, so every marker fits | not executed | FontConvert.OutlineAsWrittenLosesGlyphs | FontConvert.ConvertRoundTrip |
