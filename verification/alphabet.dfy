/** The fixed 36-symbol alphabet of the captcha generator and of the font converter
    (src/CaptchaGenerator.php:35, src/Command/FontConvertCommand.php:82). */
module Alphabet {

  /** Number of symbols an atlas can describe. */
  const Size: nat := 36

  /** The alphabet as one string, in atlas order; it is also the text carried by
      the UnsupportedCharacters error. */
  const Symbols: string := "0123456789abcdefghijklmnopqrstuvwxyz"

  /** The k-th symbol: the ten digits, then the 26 lower-case ASCII letters. */
  function SymbolAt(k: nat): (c: char)
    requires k < Size
    ensures IsSymbol(c)
  {
    if k < 10 then ('0' as int + k) as char else ('a' as int + k - 10) as char
  }

  /** SymbolAt spells out the alphabet string. */
  lemma SymbolsAt()
    ensures |Symbols| == Size
    ensures forall k :: 0 <= k < Size ==> Symbols[k] == SymbolAt(k)
  {
  }

  predicate IsSymbol(c: char)
  {
    '0' <= c <= '9' || 'a' <= c <= 'z'
  }

  /** Position of a symbol in the alphabet, i.e. which atlas glyph draws it:
      the unique k whose symbol is c. */
  function IndexOf(c: char): (k: nat)
    requires IsSymbol(c)
    ensures k < Size && SymbolAt(k) == c
    ensures forall j :: 0 <= j < Size && SymbolAt(j) == c ==> j == k
  {
    if c <= '9' then c as int - '0' as int else c as int - 'a' as int + 10
  }

  /** The symbols are listed in strictly increasing order, so no symbol occurs
      twice. */
  lemma SymbolsSorted()
    ensures forall i, j :: 0 <= i < j < Size ==> SymbolAt(i) < SymbolAt(j)
  {
  }

  /** Every character IsSymbol accepts occurs in the alphabet string. */
  lemma SymbolsComplete(c: char)
    requires IsSymbol(c)
    ensures c in Symbols
  {
    SymbolsAt();
    assert Symbols[IndexOf(c)] == c;
  }

  /** ASCII lower-casing of one character, the part of `mb_strtolower` that can
      turn a character into an alphabet symbol. */
  function LowerChar(c: char): (r: char)
    ensures 'A' <= c <= 'Z' ==> 'a' <= r <= 'z' && r as int - c as int == 32
    ensures !('A' <= c <= 'Z') ==> r == c
  {
    if 'A' <= c <= 'Z' then (c as int + 32) as char else c
  }

  function Lower(s: string): (r: string)
    ensures |r| == |s|
    ensures forall i :: 0 <= i < |s| ==> r[i] == LowerChar(s[i])
  {
    if s == [] then [] else [LowerChar(s[0])] + Lower(s[1..])
  }
}
