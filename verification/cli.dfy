/** The `captcha:create` command (src/Command/CaptchaCreateCommand.php:55-181):
    the argument checks, the option parsers and the builder chain that
    configures a generator.

    Every option pattern is anchored with `^...$` and no D modifier, so each
    parser reads the option with one final newline removed. `\d` matches
    decimal digits of any script; the casts read only the leading ASCII
    digits. The directory checks are file-system queries and arrive as
    booleans; writing the image is not modelled. */
module CreateCommand {
  import opened Results
  import Alphabet
  import Pcre
  import opened Color
  import opened Settings
  import Generator

  // ---------------------------------------------------------------------------
  // Decimal numerals

  predicate IsDigit(c: char)
  {
    '0' <= c <= '9'
  }

  predicate Digits(t: string)
  {
    forall i :: 0 <= i < |t| ==> IsDigit(t[i])
  }

  function DigitValue(c: char): (v: nat)
    requires IsDigit(c)
    ensures v < 10
  {
    c as int - '0' as int
  }

  function DigitChar(v: nat): (c: char)
    requires v < 10
    ensures IsDigit(c) && DigitValue(c) == v
  {
    ('0' as int + v) as char
  }

  /** The first code points of the 68 runs of ten decimal digits (general
      category Nd) of Unicode 15.0: ASCII, then Arabic-Indic, Extended
      Arabic-Indic, NKo, Devanagari and the other scripts in code point
      order, the fullwidth digits, and the supplementary-plane scripts and
      mathematical digits. */
  const DigitZeros: set<int> := {
    0x0030, 0x0660, 0x06F0, 0x07C0, 0x0966, 0x09E6, 0x0A66, 0x0AE6, 0x0B66, 0x0BE6,
    0x0C66, 0x0CE6, 0x0D66, 0x0DE6, 0x0E50, 0x0ED0, 0x0F20, 0x1040, 0x1090, 0x17E0,
    0x1810, 0x1946, 0x19D0, 0x1A80, 0x1A90, 0x1B50, 0x1BB0, 0x1C40, 0x1C50, 0xA620,
    0xA8D0, 0xA900, 0xA9D0, 0xA9F0, 0xAA50, 0xABF0, 0xFF10,
    0x104A0, 0x10D30, 0x11066, 0x110F0, 0x11136, 0x111D0, 0x112F0, 0x11450, 0x114D0, 0x11650,
    0x116C0, 0x11730, 0x118E0, 0x11950, 0x11C50, 0x11D50, 0x11DA0, 0x11F50, 0x16A60, 0x16AC0,
    0x16B50, 0x1D7CE, 0x1D7D8, 0x1D7E2, 0x1D7EC, 0x1D7F6, 0x1E140, 0x1E2F0, 0x1E4F0, 0x1E950,
    0x1FBF0 }

  /** `\d` in a pattern with the `u` modifier, which turns on Unicode
      properties: a decimal digit of any script. The ASCII digits are the
      only ones below U+0660. */
  predicate IsUnicodeDigit(c: char)
  {
    IsDigit(c) || (c as int >= 0x0660 && exists z :: z in DigitZeros && z <= c as int < z + 10)
  }

  /** The pattern `[1-9]\d*`: an ASCII digit other than zero, then decimal
      digits of any script. */
  predicate PositiveNumeral(t: string)
  {
    |t| > 0 && '1' <= t[0] <= '9' && forall i :: 1 <= i < |t| ==> IsUnicodeDigit(t[i])
  }

  /** A positive numeral in ASCII digits without leading zeros: the way PHP
      writes a positive integer. */
  predicate PlainNumeral(t: string)
  {
    |t| > 0 && '1' <= t[0] <= '9' && Digits(t)
  }

  /** The value of an ASCII digit string. */
  function NumeralValue(t: string): (n: nat)
    requires Digits(t)
    ensures n < Pow10(|t|)
    decreases |t|
  {
    if t == [] then 0 else NumeralValue(t[..|t| - 1]) * 10 + DigitValue(t[|t| - 1])
  }

  function Pow10(n: nat): (p: nat)
    ensures p >= 1
  {
    if n == 0 then 1 else 10 * Pow10(n - 1)
  }

  /** The decimal notation of n: digits only, and no leading zero unless n is
      zero itself. */
  function Decimal(n: nat): (t: string)
    ensures Digits(t) && |t| > 0
    ensures n > 0 ==> PlainNumeral(t)
    decreases n
  {
    if n < 10 then [DigitChar(n)] else Decimal(n / 10) + [DigitChar(n % 10)]
  }

  /** Reading a written number gives the number back. */
  lemma {:induction false} DecimalRoundTrip(n: nat)
    ensures NumeralValue(Decimal(n)) == n
    decreases n
  {
    if n >= 10 {
      DecimalRoundTrip(n / 10);
      var t := Decimal(n);
      assert t[..|t| - 1] == Decimal(n / 10);
    }
  }

  /** A numeral is at least its leading digit. */
  lemma {:induction false} NumeralAtLeastLead(t: string)
    requires |t| > 0 && Digits(t)
    ensures NumeralValue(t) >= DigitValue(t[0])
    decreases |t|
  {
    if |t| > 1 {
      var u := t[..|t| - 1];
      assert u[0] == t[0];
      NumeralAtLeastLead(u);
    }
  }

  /** An ASCII numeral without leading zeros is exactly how its value is
      written: one spelling per number. */
  lemma {:induction false} NumeralIsCanonical(t: string)
    requires PlainNumeral(t)
    ensures NumeralValue(t) >= 1
    ensures Decimal(NumeralValue(t)) == t
    decreases |t|
  {
    NumeralAtLeastLead(t);
    if |t| > 1 {
      var u := t[..|t| - 1];
      assert u[0] == t[0];
      NumeralIsCanonical(u);
      var n := NumeralValue(t);
      assert n / 10 == NumeralValue(u) && n % 10 == DigitValue(t[|t| - 1]);
      assert t == u + [t[|t| - 1]];
    }
  }

  /** The two digit classes the code scans for: the ASCII digits the casts
      read, and the digits of any script that `\d` matches. */
  datatype DigitClass = Ascii | AnyScript

  predicate InClass(c: char, cls: DigitClass)
  {
    match cls
    case Ascii => IsDigit(c)
    case AnyScript => IsUnicodeDigit(c)
  }

  /** Length of the longest prefix of t whose characters are all in class
      p. */
  function Span(t: string, p: DigitClass): (k: nat)
    ensures k <= |t|
    ensures forall i :: 0 <= i < k ==> InClass(t[i], p)
    ensures k < |t| ==> !InClass(t[k], p)
    decreases |t|
  {
    if t == [] || !InClass(t[0], p) then 0 else 1 + Span(t[1..], p)
  }

  /** A run of the class followed by a character outside it is where Span
      stops. */
  lemma {:induction false} SpanOf(u: string, v: string, p: DigitClass)
    requires forall i :: 0 <= i < |u| ==> InClass(u[i], p)
    requires |v| > 0 && !InClass(v[0], p)
    ensures Span(u + v, p) == |u|
    decreases |u|
  {
    if u != [] {
      assert (u + v)[1..] == u[1..] + v;
      SpanOf(u[1..], v, p);
    }
  }

  /** What `(int)` makes of a string that begins with an ASCII digit: the
      value of its leading ASCII digits; a digit of another script ends the
      number as any other character would. */
  function IntValue(t: string): (n: nat)
    ensures |t| > 0 && '1' <= t[0] <= '9' ==> n >= 1
    ensures Digits(t) ==> n == NumeralValue(t)
  {
    var k := Span(t, Ascii);
    assert Digits(t) ==> t[..k] == t;
    if k > 0 then NumeralAtLeastLead(t[..k]); NumeralValue(t[..k]) else 0
  }

  /** The digits of other scripts a numeral may carry after its ASCII
      digits: `\d` accepts them, the integer and float casts ignore them. */
  predicate DigitTail(tail: string)
  {
    && (forall i :: 0 <= i < |tail| ==> IsUnicodeDigit(tail[i]))
    && (|tail| > 0 ==> !IsDigit(tail[0]))
  }

  /** The remainder of a string after its leading ASCII digits. */
  function AfterDigits(t: string): (tail: string)
    ensures t == t[..Span(t, Ascii)] + tail
  {
    t[Span(t, Ascii)..]
  }

  /** The ASCII digits of n followed by a digit tail are a `[1-9]\d*` token
      that `(int)` reads as n, and a digit is never a newline. */
  lemma WrittenNumeral(n: nat, tail: string)
    requires n >= 1 && DigitTail(tail)
    ensures var t := Decimal(n) + tail;
            && PositiveNumeral(t) && IntValue(t) == n
            && !Pcre.EndsInNewline(t)
  {
    var d := Decimal(n);
    var t := d + tail;
    DecimalRoundTrip(n);
    assert forall i :: 1 <= i < |t| ==> IsUnicodeDigit(t[i]) by {
      forall i | 1 <= i < |t|
        ensures IsUnicodeDigit(t[i])
      {
        if i < |d| { assert t[i] == d[i]; } else { assert t[i] == tail[i - |d|]; }
      }
    }
    if tail == [] {
      assert t == d;
    } else {
      SpanOf(d, tail, Ascii);
      assert t[..|d|] == d;
    }
    assert IsUnicodeDigit(t[|t| - 1]);
  }

  /** Conversely, every `[1-9]\d*` token is the ASCII digits of the value
      `(int)` reads, followed by a digit tail. */
  lemma TokenIsWritten(t: string)
    requires PositiveNumeral(t)
    ensures IntValue(t) >= 1
    ensures DigitTail(AfterDigits(t))
    ensures t == Decimal(IntValue(t)) + AfterDigits(t)
  {
    var k := Span(t, Ascii);
    assert k >= 1;
    NumeralIsCanonical(t[..k]);
  }

  /** ASCII digits only: `(int)` reads the whole token. */
  lemma PlainTokenValue(t: string)
    requires PlainNumeral(t)
    ensures PositiveNumeral(t) && IntValue(t) == NumeralValue(t)
  {
  }

  // ---------------------------------------------------------------------------
  // Size, amplitude, noise, type and quality

  /** The option value, or the default the source substitutes with `??`. */
  function OrDefault(v: Option<string>, default: string): (s: string)
    ensures v.Some? ==> s == v.value
    ensures v.None? ==> s == default
  {
    if v.Some? then v.value else default
  }

  predicate IsX(c: char)
  {
    c == 'x' || c == 'X'
  }

  /** `WxH` matched case-insensitively against `^([1-9]\d*)x([1-9]\d*)$` and
      each side cast with `(int)`. The x is no digit, so the width is the
      whole digit run at the front. No match leaves a zero side, which the
      command rejects. */
  function ParseSize(s: string): (r: Option<(nat, nat)>)
    ensures r.Some? ==> r.value.0 >= 1 && r.value.1 >= 1
  {
    var t := Pcre.StripFinalNewline(s);
    var k := Span(t, AnyScript);
    if k < |t| && IsX(t[k]) && PositiveNumeral(t[..k]) && PositiveNumeral(t[k + 1..]) then
      Some((IntValue(t[..k]), IntValue(t[k + 1..])))
    else None
  }

  /** Two `[1-9]\d*` tokens joined by an x, optionally followed by a newline,
      parse as their integer values. */
  lemma ParseWritten(u: string, x: char, v: string, newline: bool)
    requires PositiveNumeral(u) && IsX(x) && PositiveNumeral(v)
    requires !Pcre.EndsInNewline(v)
    ensures ParseSize(u + [x] + v + (if newline then "\n" else "")) == Some((IntValue(u), IntValue(v)))
  {
    var t := u + [x] + v;
    assert !Pcre.EndsInNewline(t) by { assert t[|t| - 1] == v[|v| - 1]; }
    if newline {
      Pcre.NewlineIgnored(t);
    } else {
      assert t + "" == t;
    }
    assert Span(t, AnyScript) == |u| by {
      assert t == u + ([x] + v);
      SpanOf(u, [x] + v, AnyScript);
    }
    assert t[..|u|] == u && t[|u|] == x && t[|u| + 1..] == v;
  }

  /** Every size written as `WxH` (either case of x, each side possibly
      followed by digits of other scripts, optionally with a final newline)
      parses back to (W, H). */
  lemma SizeRoundTrip(w: nat, h: nat, x: char, tw: string, th: string, newline: bool)
    requires w >= 1 && h >= 1 && IsX(x) && DigitTail(tw) && DigitTail(th)
    ensures ParseSize((Decimal(w) + tw) + [x] + (Decimal(h) + th) + (if newline then "\n" else "")) == Some((w, h))
  {
    WrittenNumeral(w, tw);
    WrittenNumeral(h, th);
    ParseWritten(Decimal(w) + tw, x, Decimal(h) + th, newline);
  }

  lemma Regroup(a: string, b: string, c: string, d: string, e: string)
    ensures a + b + c + d + e == (a + b) + c + (d + e)
  {
  }

  /** Conversely, whatever ParseSize accepts as (W, H) is W and H written in
      ASCII digits, each followed by a digit tail, around an x. */
  lemma SizeParsedIsWritten(s: string)
    requires ParseSize(s).Some?
    ensures var t := Pcre.StripFinalNewline(s);
            var (w, h) := ParseSize(s).value;
            var k := Span(t, AnyScript);
            && k < |t| && IsX(t[k])
            && DigitTail(AfterDigits(t[..k])) && DigitTail(AfterDigits(t[k + 1..]))
            && t == Decimal(w) + AfterDigits(t[..k]) + [t[k]] + Decimal(h) + AfterDigits(t[k + 1..])
  {
    var t := Pcre.StripFinalNewline(s);
    var k := Span(t, AnyScript);
    TokenIsWritten(t[..k]);
    TokenIsWritten(t[k + 1..]);
    SplitAround(t, k);
    Regroup(Decimal(IntValue(t[..k])), AfterDigits(t[..k]), [t[k]],
            Decimal(IntValue(t[k + 1..])), AfterDigits(t[k + 1..]));
  }

  lemma SplitAround(t: string, k: nat)
    requires k < |t|
    ensures t == t[..k] + [t[k]] + t[k + 1..]
  {
  }

  /** `--fluctuation-amplitude`, default "8", against `^([1-9]\d*)$` and cast
      with `(int)`. */
  function ParseAmplitude(v: Option<string>): (r: Option<nat>)
    ensures r.Some? ==> r.value >= 1
    ensures v.None? ==> r == Some(8)
    ensures v == Some("0") ==> r.None?
  {
    var t := Pcre.StripFinalNewline(OrDefault(v, "8"));
    if PositiveNumeral(t) then Some(IntValue(t)) else None
  }

  /** Every positive amplitude written in decimal, possibly followed by
      digits of other scripts, is read back. */
  lemma AmplitudeRoundTrip(n: nat, tail: string)
    requires n >= 1 && DigitTail(tail)
    ensures ParseAmplitude(Some(Decimal(n) + tail)) == Some(n)
  {
    WrittenNumeral(n, tail);
  }

  /** Conversely, an accepted amplitude is its value written in decimal,
      possibly followed by a digit tail. */
  lemma AmplitudeParsedIsWritten(v: Option<string>)
    requires ParseAmplitude(v).Some?
    ensures var t := Pcre.StripFinalNewline(OrDefault(v, "8"));
            DigitTail(AfterDigits(t)) && t == Decimal(ParseAmplitude(v).value) + AfterDigits(t)
  {
    TokenIsWritten(Pcre.StripFinalNewline(OrDefault(v, "8")));
  }

  lemma QuotientBelowOne(n: nat, p: nat)
    requires n < p
    ensures 0.0 <= n as real / p as real < 1.0
  {
    var q := n as real / p as real;
    assert (1.0 - q) * p as real == (p - n) as real;
    assert 1.0 - q > 0.0;
  }

  /** The fraction `.d1...dn` denotes. */
  function Fraction(ds: string): (v: real)
    requires Digits(ds)
    ensures 0.0 <= v < 1.0
  {
    QuotientBelowOne(NumeralValue(ds), Pow10(|ds|));
    NumeralValue(ds) as real / Pow10(|ds|) as real
  }

  /** The digits after the point that `[0-9]\d*` accepts: an ASCII digit,
      then decimal digits of any script. */
  predicate FractionDigits(ds: string)
  {
    |ds| > 0 && IsDigit(ds[0]) && forall i :: 1 <= i < |ds| ==> IsUnicodeDigit(ds[i])
  }

  /** The digits after the point of a noise density matching
      `(0)?\.[0-9]\d*`, if it matches. */
  function FractionPart(t: string): (ds: Option<string>)
    ensures ds.Some? ==> FractionDigits(ds.value)
  {
    if |t| >= 1 && t[0] == '.' && FractionDigits(t[1..]) then Some(t[1..])
    else if |t| >= 2 && t[..2] == "0." && FractionDigits(t[2..]) then Some(t[2..])
    else None
  }

  /** What `(float)` reads from the places after the point: the exact
      decimal fraction of the leading ASCII digits, which the float then
      approximates. */
  function FloatFraction(ds: string): (v: real)
    requires FractionDigits(ds)
    ensures 0.0 <= v < 1.0
  {
    Fraction(ds[..Span(ds, Ascii)])
  }

  /** A noise density against `^((0)?\.[0-9]\d*)$`, cast with `(float)`. */
  function ParseNoise(v: Option<string>, default: string): (r: Option<real>)
    ensures r.Some? ==> 0.0 <= r.value < 1.0
  {
    var ds := FractionPart(Pcre.StripFinalNewline(OrDefault(v, default)));
    if ds.Some? then Some(FloatFraction(ds.value)) else None
  }

  /** n written with exactly k digits, zero-padded on the left. */
  function Padded(n: nat, k: nat): (t: string)
    requires n < Pow10(k)
    ensures |t| == k && Digits(t) && NumeralValue(t) == n
    decreases k
  {
    if k == 0 then ""
    else
      var t := Padded(n / 10, k - 1) + [DigitChar(n % 10)];
      assert t[..k - 1] == Padded(n / 10, k - 1);
      t
  }

  /** Every fraction n / 10^k written with k places after ".", or after "0.",
      possibly followed by digits of other scripts and a final newline,
      parses back to n / 10^k. */
  lemma NoiseRoundTrip(n: nat, k: nat, lead: string, tail: string, newline: bool, default: string)
    requires 1 <= k && n < Pow10(k) && DigitTail(tail)
    requires lead == "." || lead == "0."
    ensures ParseNoise(Some(lead + Padded(n, k) + tail + (if newline then "\n" else "")), default)
            == Some(n as real / Pow10(k) as real)
  {
    var ds := Padded(n, k) + tail;
    WrittenFraction(n, k, tail);
    var t := lead + ds;
    assert lead + Padded(n, k) + tail == t;
    LeadIsRead(lead, ds);
    if newline {
      Pcre.NewlineIgnored(t);
    } else {
      assert t + "" == t;
    }
  }

  /** Conversely, an accepted density is "." or "0.", then k >= 1 ASCII places
      spelling some n < 10^k, then a digit tail, and it is read as n / 10^k. */
  lemma NoiseParsedIsWritten(v: Option<string>, default: string)
    requires ParseNoise(v, default).Some?
    ensures var t := Pcre.StripFinalNewline(OrDefault(v, default));
            var ds := FractionPart(t).value;
            var k := Span(ds, Ascii);
            var n := NumeralValue(ds[..k]);
            && k >= 1 && n < Pow10(k)
            && (t == "." + ds || t == "0." + ds)
            && ds == Padded(n, k) + ds[k..] && DigitTail(ds[k..])
            && ParseNoise(v, default).value == n as real / Pow10(k) as real
  {
    var t := Pcre.StripFinalNewline(OrDefault(v, default));
    LeadOfPlaces(t);
    PlacesAreWritten(FractionPart(t).value);
  }

  /** FractionPart takes the places after a lead of "." or "0.". */
  lemma LeadOfPlaces(t: string)
    requires FractionPart(t).Some?
    ensures t == "." + FractionPart(t).value || t == "0." + FractionPart(t).value
  {
    if t[0] == '.' {
      assert t == "." + t[1..];
    } else {
      assert t == t[..2] + t[2..];
    }
  }

  /** The places `[0-9]\d*` accepts are k >= 1 ASCII digits spelling some
      n < 10^k with k places, then a digit tail. */
  lemma PlacesAreWritten(ds: string)
    requires FractionDigits(ds)
    ensures var k := Span(ds, Ascii);
            var n := NumeralValue(ds[..k]);
            && k >= 1 && n < Pow10(k)
            && ds == Padded(n, k) + ds[k..] && DigitTail(ds[k..])
  {
    var k := Span(ds, Ascii);
    PaddedOfDigits(ds[..k]);
    assert ds == ds[..k] + ds[k..];
    TailAfterPlaces(ds);
  }

  /** What follows the ASCII places is a digit tail. */
  lemma TailAfterPlaces(ds: string)
    requires FractionDigits(ds)
    ensures Span(ds, Ascii) >= 1 && DigitTail(ds[Span(ds, Ascii)..])
  {
    var k := Span(ds, Ascii);
    forall i | 0 <= i < |ds[k..]|
      ensures IsUnicodeDigit(ds[k..][i])
    {
      assert ds[k..][i] == ds[k + i];
    }
  }

  /** k ASCII digits are the k-place zero-padded spelling of their value. */
  lemma {:induction false} PaddedOfDigits(p: string)
    requires Digits(p)
    ensures Padded(NumeralValue(p), |p|) == p
    decreases |p|
  {
    if p != [] {
      var q := p[..|p| - 1];
      var c := p[|p| - 1];
      PaddedOfDigits(q);
      var n := NumeralValue(p);
      assert n / 10 == NumeralValue(q) && n % 10 == DigitValue(c);
      assert DigitChar(DigitValue(c)) == c;
      assert p == q + [c];
    }
  }

  /** "." or "0." before the places is where FractionPart finds them. */
  lemma LeadIsRead(lead: string, ds: string)
    requires lead == "." || lead == "0."
    requires FractionDigits(ds) && !Pcre.EndsInNewline(ds)
    ensures FractionPart(lead + ds) == Some(ds)
    ensures !Pcre.EndsInNewline(lead + ds)
  {
    var t := lead + ds;
    assert t[|t| - 1] == ds[|ds| - 1];
    if lead == "." {
      assert t[0] == '.' && t[1..] == ds;
    } else {
      assert t[..2] == "0." && t[2..] == ds;
      assert t[0] != '.';
    }
  }

  /** k ASCII places followed by a digit tail are what `[0-9]\d*` accepts, and
      the float cast reads exactly the k places. */
  lemma WrittenFraction(n: nat, k: nat, tail: string)
    requires 1 <= k && n < Pow10(k) && DigitTail(tail)
    ensures var ds := Padded(n, k) + tail;
            && FractionDigits(ds) && !Pcre.EndsInNewline(ds)
            && ds[..Span(ds, Ascii)] == Padded(n, k)
  {
    var p := Padded(n, k);
    var ds := p + tail;
    assert ds[0] == p[0];
    forall i | 1 <= i < |ds|
      ensures IsUnicodeDigit(ds[i])
    {
      if i < k { assert ds[i] == p[i]; } else { assert ds[i] == tail[i - k]; }
    }
    if tail == [] {
      assert ds == p;
      SpanAll(ds, Ascii);
    } else {
      SpanOf(p, tail, Ascii);
    }
    assert ds[..k] == p;
    assert IsUnicodeDigit(ds[|ds| - 1]);
  }

  /** When every character is in the class, Span is the whole string. */
  lemma {:induction false} SpanAll(t: string, p: DigitClass)
    requires forall i :: 0 <= i < |t| ==> InClass(t[i], p)
    ensures Span(t, p) == |t|
    decreases |t|
  {
    if t != [] {
      SpanAll(t[1..], p);
    }
  }

  /** A density spelled with ASCII places only is read as their exact
      fraction, whether it is the option or the default. */
  lemma PlainDensity(lead: string, ds: string, default: string)
    requires lead == "." || lead == "0."
    requires |ds| > 0 && Digits(ds)
    ensures ParseNoise(Some(lead + ds), default) == Some(Fraction(ds))
    ensures ParseNoise(None, lead + ds) == Some(Fraction(ds))
  {
    SpanAll(ds, Ascii);
    assert ds[..|ds|] == ds;
    LeadIsRead(lead, ds);
  }

  /** Two ASCII places after "." denote hundredths. */
  lemma Hundredths(a: char, b: char, default: string)
    requires IsDigit(a) && IsDigit(b)
    ensures ParseNoise(None, ['.', a, b]) == Some((10 * DigitValue(a) + DigitValue(b)) as real / 100.0)
  {
    PlainDensity(".", [a, b], default);
    assert "." + [a, b] == ['.', a, b];
    assert [a, b][..1] == [a] && [a][..0] == [];
    assert NumeralValue([a, b]) == 10 * DigitValue(a) + DigitValue(b);
    assert Pow10(2) == 100;
  }

  /** The densities the command uses when the options are absent. */
  lemma NoiseDefaults()
    ensures ParseNoise(None, ".16") == Some(0.16)
    ensures ParseNoise(None, ".03") == Some(0.03)
  {
    Hundredths('1', '6', "");
    assert ['.', '1', '6'] == ".16";
    Hundredths('0', '3', "");
    assert ['.', '0', '3'] == ".03";
  }

  /** One ASCII place after "0." denotes tenths. */
  lemma Tenths(a: char, default: string)
    requires IsDigit(a)
    ensures ParseNoise(Some(['0', '.', a]), default) == Some(DigitValue(a) as real / 10.0)
  {
    PlainDensity("0.", [a], default);
    assert "0." + [a] == ['0', '.', a];
    assert [a][..0] == [];
    assert NumeralValue([a]) == DigitValue(a);
    assert Pow10(1) == 10;
  }

  /** A whole part other than zero is refused: "1" and "1.0" are no density. */
  lemma WholeRefused(default: string)
    ensures ParseNoise(Some("1"), default) == None
    ensures ParseNoise(Some("1.0"), default) == None
  {
    assert Pcre.StripFinalNewline("1") == "1";
    assert Pcre.StripFinalNewline("1.0") == "1.0";
    assert "1.0"[..2] != "0." by { assert "1.0"[0] == '1'; }
  }

  /** A leading zero is optional; a whole part other than zero is refused. */
  lemma NoiseSpellings()
    ensures ParseNoise(Some("0.5"), ".16") == Some(0.5)
    ensures ParseNoise(Some("1"), ".16") == None
    ensures ParseNoise(Some("1.0"), ".16") == None
  {
    Tenths('5', ".16");
    assert ['0', '.', '5'] == "0.5";
    WholeRefused(".16");
  }

  /** `--type`, default "png", against `^(png|jpg|jpeg|gif|webp)$`
      case-insensitively; anything else falls back to png. */
  function ParseType(v: Option<string>): (k: ImageType)
    ensures var l := Alphabet.Lower(Pcre.StripFinalNewline(OrDefault(v, "png")));
            && (k == Gif <==> l == "gif")
            && (k == Webp <==> l == "webp")
            && (k == Jpeg <==> l == "jpg" || l == "jpeg")
  {
    var l := Alphabet.Lower(Pcre.StripFinalNewline(OrDefault(v, "png")));
    if l == "gif" then Gif
    else if l == "webp" then Webp
    else if l == "jpg" || l == "jpeg" then Jpeg
    else Png
  }

  /** `--quality` against `^([1-9]\d*)$` and cast with `(int)`; absent,
      empty or unmatched means no quality was given. */
  function ParseQuality(v: Option<string>): (r: Option<nat>)
    ensures r.Some? ==> r.value >= 1
    ensures v.None? ==> r.None?
  {
    var t := Pcre.StripFinalNewline(OrDefault(v, ""));
    if PositiveNumeral(t) then Some(IntValue(t)) else None
  }

  /** Every positive quality written in decimal, possibly followed by digits
      of other scripts, is read back. */
  lemma QualityRoundTrip(n: nat, tail: string)
    requires n >= 1 && DigitTail(tail)
    ensures ParseQuality(Some(Decimal(n) + tail)) == Some(n)
  {
    WrittenNumeral(n, tail);
  }

  /** Conversely, an accepted quality is its value written in decimal,
      possibly followed by a digit tail. */
  lemma QualityParsedIsWritten(v: Option<string>)
    requires ParseQuality(v).Some?
    ensures var t := Pcre.StripFinalNewline(OrDefault(v, ""));
            DigitTail(AfterDigits(t)) && t == Decimal(ParseQuality(v).value) + AfterDigits(t)
  {
    TokenIsWritten(Pcre.StripFinalNewline(OrDefault(v, "")));
  }

  lemma ArabicIndicDigits()
    ensures IsUnicodeDigit('\U{0660}') && IsUnicodeDigit('\U{0663}')
    ensures DigitTail("\U{0660}") && DigitTail("\U{0663}")
  {
    assert 0x0660 in DigitZeros;
  }

  /** Any digit z of another script passes the patterns but not the casts:
      "1zx80" is the size 1 x 80. */
  lemma SizeWithOtherDigit(z: char)
    requires IsUnicodeDigit(z) && !IsDigit(z)
    ensures ParseSize(['1', z, 'x', '8', '0']) == Some((1, 80))
  {
    assert Decimal(1) == "1";
    assert Decimal(80) == "80" by { assert Decimal(80) == Decimal(8) + ['0']; }
    SizeRoundTrip(1, 80, 'x', [z], "", false);
    SizeSpelling(z);
  }

  lemma SizeSpelling(z: char)
    ensures ("1" + [z]) + ['x'] + ("80" + "") + "" == ['1', z, 'x', '8', '0']
  {
  }

  /** "8z" is the amplitude 8 and "7z" the quality 7. */
  lemma NumeralsWithOtherDigit(z: char)
    requires IsUnicodeDigit(z) && !IsDigit(z)
    ensures ParseAmplitude(Some(['8', z])) == Some(8)
    ensures ParseQuality(Some(['7', z])) == Some(7)
  {
    AmplitudeRoundTrip(8, [z]);
    assert Decimal(8) + [z] == ['8', z];
    QualityRoundTrip(7, [z]);
    assert Decimal(7) + [z] == ['7', z];
  }

  /** ".5z" is the density 0.5. */
  lemma NoiseWithOtherDigit(z: char, default: string)
    requires IsUnicodeDigit(z) && !IsDigit(z)
    ensures ParseNoise(Some(['.', '5', z]), default) == Some(0.5)
  {
    assert Padded(5, 1) == "5";
    NoiseRoundTrip(5, 1, ".", [z], false, default);
    assert "." + "5" + [z] + "" == ['.', '5', z];
  }

  /** The Arabic-Indic digits: "1٠x80" is 1 x 80, "8٣" an amplitude of 8,
      "7٠" a quality of 7 and ".5٠" a density of 0.5. */
  lemma ArabicIndicExamples()
    ensures ParseSize("1\U{0660}x80") == Some((1, 80))
    ensures ParseAmplitude(Some("8\U{0663}")) == Some(8)
    ensures ParseQuality(Some("7\U{0660}")) == Some(7)
    ensures ParseNoise(Some(".5\U{0660}"), ".16") == Some(0.5)
  {
    ArabicIndicDigits();
    SizeWithOtherDigit('\U{0660}');
    assert ['1', '\U{0660}', 'x', '8', '0'] == "1\U{0660}x80";
    NumeralsWithOtherDigit('\U{0663}');
    assert ['8', '\U{0663}'] == "8\U{0663}";
    NumeralsWithOtherDigit('\U{0660}');
    assert ['7', '\U{0660}'] == "7\U{0660}";
    NoiseWithOtherDigit('\U{0660}', ".16");
    assert ['.', '5', '\U{0660}'] == ".5\U{0660}";
  }

  // ---------------------------------------------------------------------------
  // Colours

  predicate IsHex(c: char)
  {
    '0' <= c <= '9' || 'a' <= c <= 'f' || 'A' <= c <= 'F'
  }

  predicate AllHex(t: string)
  {
    forall i :: 0 <= i < |t| ==> IsHex(t[i])
  }

  function HexValue(c: char): (v: nat)
    requires IsHex(c)
    ensures v < 16
  {
    if c <= '9' then c as int - '0' as int
    else if c <= 'F' then c as int - 'A' as int + 10
    else c as int - 'a' as int + 10
  }

  function HexChar(v: nat): (c: char)
    requires v < 16
    ensures IsHex(c) && HexValue(c) == v
  {
    if v < 10 then ('0' as int + v) as char else ('a' as int + v - 10) as char
  }

  /** `hexdec`: the hexadecimal value of the hex digits of s, every other
      character skipped. */
  function HexDec(s: string): (r: nat)
    ensures |s| <= 1 ==> r < 16
    ensures |s| <= 2 ==> r < 256
    decreases |s|
  {
    if s == [] then 0
    else if IsHex(s[|s| - 1]) then HexDec(s[..|s| - 1]) * 16 + HexValue(s[|s| - 1])
    else HexDec(s[..|s| - 1])
  }

  /** Characters that are no hex digits at all read as 0. */
  lemma {:induction false} HexDecSkipsAll(s: string)
    requires forall i :: 0 <= i < |s| ==> !IsHex(s[i])
    ensures HexDec(s) == 0
    decreases |s|
  {
    if s != [] {
      HexDecSkipsAll(s[..|s| - 1]);
    }
  }

  /** Two characters read as one colour channel: the hex digits among them,
      the other one skipped. */
  function Channel2(a: char, b: char): (v: nat)
    ensures Channel(v)
    ensures IsHex(a) && IsHex(b) ==> v == HexValue(a) * 16 + HexValue(b)
    ensures IsHex(a) && !IsHex(b) ==> v == HexValue(a)
    ensures !IsHex(a) && IsHex(b) ==> v == HexValue(b)
    ensures !IsHex(a) && !IsHex(b) ==> v == 0
  {
    var s := [a, b];
    assert HexDec([a]) == (if IsHex(a) then HexValue(a) else 0) by {
      assert [a][..0] == [];
    }
    assert s[..1] == [a];
    HexDec(s)
  }

  /** The code the colour pattern accepts: exactly `random` in any letter case,
      six hex digits or three. */
  predicate ColorCode(t: string)
  {
    Alphabet.Lower(t) == "random" || (|t| == 6 && AllHex(t)) || (|t| == 3 && AllHex(t))
  }

  /** `parseColor`: `random` (lower case only) means no override; a
      three-digit code doubles each digit; a six-digit code is read in pairs
      with `hexdec`, which also reads the other spellings of `random`. */
  function ParseColor(color: string, parameter: string): (r: Result<Option<Rgb>, CliError>)
    ensures r.Err? <==> !ColorCode(Pcre.StripFinalNewline(color))
    ensures r.Err? ==> r.error == InvalidColor(parameter, color)
    ensures r == Ok(None) <==> Pcre.StripFinalNewline(color) == "random"
    ensures r.Ok? && r.value.Some? ==> InRange(r.value.value)
  {
    var t := Pcre.StripFinalNewline(color);
    if !ColorCode(t) then Err(InvalidColor(parameter, color))
    else if t == "random" then Ok(None)
    else if |t| == 3 then Ok(Some(Rgb(Channel2(t[0], t[0]), Channel2(t[1], t[1]), Channel2(t[2], t[2]))))
    else Ok(Some(Rgb(Channel2(t[0], t[1]), Channel2(t[2], t[3]), Channel2(t[4], t[5]))))
  }

  /** The short form is the long form with every digit doubled: `abc` is
      `aabbcc`. */
  lemma ShortColorDoubles(a: char, b: char, c: char, parameter: string)
    requires IsHex(a) && IsHex(b) && IsHex(c)
    ensures ParseColor([a, b, c], parameter).Ok?
    ensures ParseColor([a, b, c], parameter) == ParseColor([a, a, b, b, c, c], parameter)
  {
    var short, long := [a, b, c], [a, a, b, b, c, c];
    assert Pcre.StripFinalNewline(short) == short by { assert short[2] == c; }
    assert Pcre.StripFinalNewline(long) == long by { assert long[5] == c; }
    assert AllHex(short) && AllHex(long);
    assert Alphabet.Lower(long) != "random" by {
      assert Alphabet.Lower(long)[1] == Alphabet.LowerChar(a);
      assert Alphabet.Lower(long)[0] == Alphabet.LowerChar(a);
    }
  }

  /** The six lower-case hex digits of a colour. */
  function HexCode(c: Rgb): (t: string)
    requires InRange(c)
    ensures |t| == 6 && AllHex(t)
  {
    [HexChar(c.red / 16), HexChar(c.red % 16), HexChar(c.green / 16), HexChar(c.green % 16),
     HexChar(c.blue / 16), HexChar(c.blue % 16)]
  }

  /** Every colour written as six hex digits parses back to itself. */
  lemma ColorRoundTrip(c: Rgb, parameter: string)
    requires InRange(c)
    ensures ParseColor(HexCode(c), parameter) == Ok(Some(c))
  {
    var t := HexCode(c);
    assert Alphabet.Lower(t) != "random" by {
      assert Alphabet.LowerChar(t[0]) != 'r';
    }
    assert t[|t| - 1] != '\n';
  }

  /** Spellings of `random` other than the lower-case one are not random:
      `hexdec` keeps only the a, d of "ra", "nd" and "om", giving (10, 13, 0). */
  lemma RandomInOtherCase(color: string, parameter: string)
    requires Alphabet.Lower(Pcre.StripFinalNewline(color)) == "random"
    requires Pcre.StripFinalNewline(color) != "random"
    ensures ParseColor(color, parameter) == Ok(Some(Rgb(10, 13, 0)))
  {
    var t := Pcre.StripFinalNewline(color);
    var l := Alphabet.Lower(t);
    assert |t| == 6;
    assert l[0] == 'r' && l[1] == 'a' && l[2] == 'n' && l[3] == 'd' && l[4] == 'o' && l[5] == 'm';
    assert Alphabet.LowerChar(t[1]) == 'a' && Alphabet.LowerChar(t[3]) == 'd';
    assert !IsHex(t[0]) && !IsHex(t[2]) && !IsHex(t[4]) && !IsHex(t[5]);
    assert HexValue(t[1]) == 10 && HexValue(t[3]) == 13;
  }

  // ---------------------------------------------------------------------------
  // execute

  datatype Arguments = Arguments(text: Option<string>, file: Option<string>)

  datatype Options = Options(
    size: Option<string>,
    backgroundColor: Option<string>,
    foregroundColor: Option<string>,
    credits: Option<string>,
    amplitude: Option<string>,
    whiteNoise: Option<string>,
    blackNoise: Option<string>,
    kind: Option<string>,
    quality: Option<string>)

  /** The command's `InvalidArgumentException`s, by the check that raises
      them, and the exception `generate` raises on the configured
      generator. */
  datatype CliError =
    | TextRequired
    | FileRequired
    | DirectoryNotFound
    | DirectoryNotWritable
    | InvalidSize(size: string)
    | InvalidAmplitude(amplitude: string)
    | InvalidWhiteNoise(density: string)
    | InvalidBlackNoise(density: string)
    | InvalidColor(parameter: string, color: string)
    | Generation(error: Generator.GenError)

  /** The generator `execute` configures and the text and file it uses it
      for. */
  datatype Invocation = Invocation(config: Config, text: string, file: string)

  /** PHP's `empty` on an optional string: missing, "" or "0". */
  function Empty(v: Option<string>): (r: bool)
    ensures !r ==> v.Some? && |v.value| > 0
    ensures v == Some("0") ==> r
  {
    v.None? || v.value == "" || v.value == "0"
  }

  /** The `as*` call the type switch makes, with the default qualities 6 for
      png and 70 for jpeg and webp. */
  function ApplyType(c: Config, kind: ImageType, quality: Option<nat>): (r: Config)
    requires quality.Some? ==> quality.value >= 1
    ensures r.kind == kind
    ensures Valid(c) ==> Valid(r)
    ensures r == c.(kind := r.kind, quality := r.quality)
    ensures quality.None? ==> r.quality == (match kind case Png => 6 case Gif => 0 case _ => 70)
    ensures quality.Some? && kind == Png ==> r.quality == if quality.value > 9 then 9 else quality.value
    ensures quality.Some? && (kind == Jpeg || kind == Webp) ==>
              r.quality == if quality.value > 100 then 100 else quality.value
  {
    match kind
    case Gif => AsGif(c)
    case Webp => AsWebp(c, if quality.None? then 70 else quality.value)
    case Jpeg => AsJpeg(c, if quality.None? then 70 else quality.value)
    case Png => AsPng(c, if quality.None? then 6 else quality.value)
  }

  /** The option values `execute` reads, once each has matched its pattern. */
  datatype Parsed = Parsed(width: nat, height: nat, amplitude: nat, white: real, black: real,
                           background: Option<Rgb>, foreground: Option<Rgb>)

  /** What the parsers guarantee of the values they let through. */
  predicate Sane(p: Parsed)
  {
    && p.width >= 1 && p.height >= 1 && p.amplitude >= 1
    && 0.0 <= p.white < 1.0 && 0.0 <= p.black < 1.0
    && (p.background.Some? ==> InRange(p.background.value))
    && (p.foreground.Some? ==> InRange(p.foreground.value))
  }

  /** The option checks of `execute` in source order: size, amplitude, white
      noise, black noise, background colour, foreground colour; the first one
      that fails raises. */
  function ParseOptions(opts: Options): (r: Result<Parsed, CliError>)
    ensures r.Ok? <==>
              && ParseSize(OrDefault(opts.size, "160x80")).Some?
              && ParseAmplitude(opts.amplitude).Some?
              && ParseNoise(opts.whiteNoise, ".16").Some?
              && ParseNoise(opts.blackNoise, ".03").Some?
              && ParseColor(OrDefault(opts.backgroundColor, "random"), "background-color").Ok?
              && ParseColor(OrDefault(opts.foregroundColor, "random"), "foreground-color").Ok?
    ensures ParseSize(OrDefault(opts.size, "160x80")).None? ==>
              r == Err(InvalidSize(OrDefault(opts.size, "160x80")))
    ensures ParseSize(OrDefault(opts.size, "160x80")).Some?
            && ParseAmplitude(opts.amplitude).None? ==>
              r == Err(InvalidAmplitude(OrDefault(opts.amplitude, "8")))
    ensures ParseSize(OrDefault(opts.size, "160x80")).Some?
            && ParseAmplitude(opts.amplitude).Some?
            && ParseNoise(opts.whiteNoise, ".16").None? ==>
              r == Err(InvalidWhiteNoise(OrDefault(opts.whiteNoise, ".16")))
    ensures ParseSize(OrDefault(opts.size, "160x80")).Some?
            && ParseAmplitude(opts.amplitude).Some?
            && ParseNoise(opts.whiteNoise, ".16").Some?
            && ParseNoise(opts.blackNoise, ".03").None? ==>
              r == Err(InvalidBlackNoise(OrDefault(opts.blackNoise, ".03")))
    ensures ParseSize(OrDefault(opts.size, "160x80")).Some?
            && ParseAmplitude(opts.amplitude).Some?
            && ParseNoise(opts.whiteNoise, ".16").Some?
            && ParseNoise(opts.blackNoise, ".03").Some?
            && ParseColor(OrDefault(opts.backgroundColor, "random"), "background-color").Err? ==>
              r == Err(ParseColor(OrDefault(opts.backgroundColor, "random"), "background-color").error)
    ensures ParseSize(OrDefault(opts.size, "160x80")).Some?
            && ParseAmplitude(opts.amplitude).Some?
            && ParseNoise(opts.whiteNoise, ".16").Some?
            && ParseNoise(opts.blackNoise, ".03").Some?
            && ParseColor(OrDefault(opts.backgroundColor, "random"), "background-color").Ok?
            && ParseColor(OrDefault(opts.foregroundColor, "random"), "foreground-color").Err? ==>
              r == Err(ParseColor(OrDefault(opts.foregroundColor, "random"), "foreground-color").error)
    ensures r.Ok? ==>
              && Sane(r.value)
              && (r.value.width, r.value.height) == ParseSize(OrDefault(opts.size, "160x80")).value
              && Some(r.value.amplitude) == ParseAmplitude(opts.amplitude)
              && Some(r.value.white) == ParseNoise(opts.whiteNoise, ".16")
              && Some(r.value.black) == ParseNoise(opts.blackNoise, ".03")
              && Ok(r.value.background) == ParseColor(OrDefault(opts.backgroundColor, "random"), "background-color")
              && Ok(r.value.foreground) == ParseColor(OrDefault(opts.foregroundColor, "random"), "foreground-color")
  {
    var size := ParseSize(OrDefault(opts.size, "160x80"));
    var amplitude := ParseAmplitude(opts.amplitude);
    var white := ParseNoise(opts.whiteNoise, ".16");
    var black := ParseNoise(opts.blackNoise, ".03");
    var background := ParseColor(OrDefault(opts.backgroundColor, "random"), "background-color");
    var foreground := ParseColor(OrDefault(opts.foregroundColor, "random"), "foreground-color");
    if size.None? then Err(InvalidSize(OrDefault(opts.size, "160x80")))
    else if amplitude.None? then Err(InvalidAmplitude(OrDefault(opts.amplitude, "8")))
    else if white.None? then Err(InvalidWhiteNoise(OrDefault(opts.whiteNoise, ".16")))
    else if black.None? then Err(InvalidBlackNoise(OrDefault(opts.blackNoise, ".03")))
    else if background.Err? then Err(background.error)
    else if foreground.Err? then Err(foreground.error)
    else Ok(Parsed(size.value.0, size.value.1, amplitude.value, white.value, black.value,
                   background.value, foreground.value))
  }

  /** The builder chain of `execute` on a fresh generator whose bundled fonts
      live under `fontsDir`: every parsed value lands in its field unchanged,
      and the colours are overridden only when given. */
  function Configure(fontsDir: string, p: Parsed, credits: Option<string>, spaces: bool,
                     kind: ImageType, quality: Option<nat>): (c: Config)
    requires Sane(p)
    requires quality.Some? ==> quality.value >= 1
    ensures Valid(c)
    ensures c.fonts == Default(fontsDir).fonts
    ensures c.width == p.width && c.height == p.height
    ensures c.amplitude == p.amplitude
    ensures c.whiteDensity == p.white && c.blackDensity == p.black
    ensures c.background == p.background && c.foreground == p.foreground
    ensures c.credits == credits && c.spaces == spaces
    ensures c.kind == kind
    ensures c.quality == ApplyType(Default(fontsDir), kind, quality).quality
  {
    var c := Default(fontsDir);
    var c := WithSize(c, p.width, p.height);
    var c := WithCredits(c, credits);
    var c := WithFluctuationAmplitude(c, p.amplitude);
    var c := WithWhiteNoiseDensity(c, p.white);
    var c := WithBlackNoiseDensity(c, p.black);
    var c := WithSpaces(c, spaces);
    var c := ApplyType(c, kind, quality);
    var c := if p.background.Some?
             then WithBackgroundColor(c, p.background.value.red, p.background.value.green, p.background.value.blue)
             else c;
    if p.foreground.Some?
    then WithForegroundColor(c, p.foreground.value.red, p.foreground.value.green, p.foreground.value.blue)
    else c
  }

  /** `execute`: the argument and directory checks, then the option checks,
      then the builder chain, then `generate` on the text. The configured
      generator has the three bundled fonts and sides of at least one pixel,
      so the only way `generate` can fail here is the text check. */
  function Execute(args: Arguments, opts: Options, withSpaces: bool, dirExists: bool, dirWritable: bool,
                   fontsDir: string): (r: Result<Invocation, CliError>)
    ensures Empty(args.text) ==> r == Err(TextRequired)
    ensures !Empty(args.text) && Empty(args.file) ==> r == Err(FileRequired)
    ensures !Empty(args.text) && !Empty(args.file) && !dirExists ==> r == Err(DirectoryNotFound)
    ensures !Empty(args.text) && !Empty(args.file) && dirExists && !dirWritable ==> r == Err(DirectoryNotWritable)
    ensures !Empty(args.text) && !Empty(args.file) && dirExists && dirWritable && ParseOptions(opts).Err? ==>
              r == Err(ParseOptions(opts).error)
    ensures !Empty(args.text) && !Empty(args.file) && dirExists && dirWritable && ParseOptions(opts).Ok?
            && !Generator.Validates(args.text.value) ==>
              r == Err(Generation(Generator.UnsupportedCharacters(Alphabet.Symbols)))
    ensures r.Ok? <==>
              && !Empty(args.text) && !Empty(args.file) && dirExists && dirWritable
              && ParseOptions(opts).Ok? && Generator.Validates(args.text.value)
    ensures r.Ok? ==>
              var c := r.value.config;
              var p := ParseOptions(opts).value;
              && Valid(c)
              && r.value.text == args.text.value && r.value.file == args.file.value
              && Generator.Validates(r.value.text) && |c.fonts| == 3
              && c.width == p.width >= 1 && c.height == p.height >= 1
              && c.amplitude == p.amplitude >= 1
              && c.whiteDensity == p.white && c.blackDensity == p.black
              && c.background == p.background && c.foreground == p.foreground
              && c.kind == ParseType(opts.kind)
              && c.quality == ApplyType(Default(fontsDir), ParseType(opts.kind), ParseQuality(opts.quality)).quality
              && c.fonts == Default(fontsDir).fonts
              && c.credits == opts.credits && c.spaces == withSpaces
  {
    if Empty(args.text) then Err(TextRequired)
    else if Empty(args.file) then Err(FileRequired)
    else if !dirExists then Err(DirectoryNotFound)
    else if !dirWritable then Err(DirectoryNotWritable)
    else
      match ParseOptions(opts)
      case Err(e) => Err(e)
      case Ok(p) =>
        if !Generator.Validates(args.text.value) then Err(Generation(Generator.UnsupportedCharacters(Alphabet.Symbols)))
        else Ok(Invocation(Configure(fontsDir, p, opts.credits, withSpaces, ParseType(opts.kind), ParseQuality(opts.quality)),
                           args.text.value, args.file.value))
  }

  lemma DefaultSizeTokens()
    ensures PositiveNumeral("160") && IntValue("160") == 160
    ensures PositiveNumeral("80") && IntValue("80") == 80 && !Pcre.EndsInNewline("80")
  {
    assert NumeralValue("160") == 160 by {
      assert "160"[..2] == "16" && "16"[..1] == "1" && "1"[..0] == "";
    }
    assert NumeralValue("80") == 80 by {
      assert "80"[..1] == "8" && "8"[..0] == "";
    }
    PlainTokenValue("160");
    PlainTokenValue("80");
  }

  lemma DefaultSize()
    ensures ParseSize("160x80") == Some((160, 80))
  {
    DefaultSizeTokens();
    ParseWritten("160", 'x', "80", false);
    DefaultSizeSpelling();
  }

  lemma DefaultSizeSpelling()
    ensures "160" + ['x'] + "80" + "" == "160x80"
  {
  }

  lemma DefaultColor(parameter: string)
    ensures ParseColor("random", parameter) == Ok(None)
  {
    assert Pcre.StripFinalNewline("random") == "random";
  }

  lemma DefaultOptionsParse()
    ensures ParseOptions(Options(None, None, None, None, None, None, None, None, None))
            == Ok(Parsed(160, 80, 8, 0.16, 0.03, None, None))
  {
    NoiseDefaults();
    DefaultSize();
    DefaultColor("background-color");
    DefaultColor("foreground-color");
  }

  /** With no options, the command asks for a 160 x 80 png at quality 6 with
      amplitude 8, densities 0.16 and 0.03 and random colours. */
  lemma DefaultInvocation(text: string, file: string, withSpaces: bool, fontsDir: string)
    requires !Empty(Some(text)) && Generator.Validates(text) && !Empty(Some(file))
    ensures var r := Execute(Arguments(Some(text), Some(file)),
                             Options(None, None, None, None, None, None, None, None, None),
                             withSpaces, true, true, fontsDir);
            && r.Ok?
            && r.value.config.width == 160 && r.value.config.height == 80
            && r.value.config.amplitude == 8
            && r.value.config.whiteDensity == 0.16 && r.value.config.blackDensity == 0.03
            && r.value.config.kind == Png && r.value.config.quality == 6
            && r.value.config.background.None? && r.value.config.foreground.None?
  {
    DefaultOptionsParse();
    var l := Alphabet.Lower("png");
    assert |l| == 3 && l[0] == 'p';
    assert ParseType(None) == Png;
  }

  /** "0" is a text the generator accepts, but `empty` treats it as missing,
      so the command refuses it before anything else. */
  lemma ZeroTextRefused(opts: Options, file: Option<string>, withSpaces: bool, dirExists: bool,
                        dirWritable: bool, fontsDir: string)
    ensures Generator.Validates("0")
    ensures Execute(Arguments(Some("0"), file), opts, withSpaces, dirExists, dirWritable, fontsDir) == Err(TextRequired)
  {
    assert Alphabet.IsSymbol(Alphabet.LowerChar("0"[0]));
  }

  /** A text with a character outside the alphabet gets through every check
      of the command and fails in `generate`. */
  lemma UnsupportedTextFails(opts: Options, file: string, withSpaces: bool, fontsDir: string)
    requires !Empty(Some(file)) && ParseOptions(opts).Ok?
    ensures Execute(Arguments(Some("a!"), Some(file)), opts, withSpaces, true, true, fontsDir)
            == Err(Generation(Generator.UnsupportedCharacters(Alphabet.Symbols)))
  {
    BangIsNoSymbol();
  }

  lemma BangIsNoSymbol()
    ensures !Empty(Some("a!")) && !Generator.Validates("a!")
  {
    assert !Alphabet.IsSymbol(Alphabet.LowerChar("a!"[1]));
  }
}
