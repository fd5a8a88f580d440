/** The one PCRE rule that shapes every anchored pattern of the program:
    without the D modifier, `$` matches at the very end of the subject and
    also just before a newline that ends it. */
module Pcre {

  /** Whether s ends with a newline that `$` may match before. */
  predicate EndsInNewline(s: string)
  {
    |s| > 0 && s[|s| - 1] == '\n'
  }

  /** The subject with one final newline removed, if it has one. */
  function StripFinalNewline(s: string): (r: string)
    ensures EndsInNewline(s) ==> s == r + "\n"
    ensures !EndsInNewline(s) ==> r == s
  {
    if EndsInNewline(s) then s[..|s| - 1] else s
  }

  /** `^X$` accepts s when the body X matches all of s, or all of s but its
      final newline. */
  function AnchoredMatch(body: string -> bool, s: string): (r: bool)
    ensures body(s) ==> r
    ensures !EndsInNewline(s) ==> (r <==> body(s))
    ensures r ==> body(StripFinalNewline(s)) || body(s)
  {
    body(s) || (EndsInNewline(s) && body(s[..|s| - 1]))
  }

  /** For a body that never matches a newline, the anchored pattern accepts
      exactly the subjects whose newline-stripped form the body matches. */
  lemma AnchoredMatchStrips(body: string -> bool, s: string)
    requires forall t :: body(t) ==> '\n' !in t
    ensures AnchoredMatch(body, s) <==> body(StripFinalNewline(s))
  {
    if EndsInNewline(s) {
      assert s[|s| - 1] in s;
    }
  }

  /** One newline appended to a subject that does not already end in one is
      invisible to an anchored pattern. */
  lemma NewlineIgnored(s: string)
    requires !EndsInNewline(s)
    ensures StripFinalNewline(s + "\n") == StripFinalNewline(s)
  {
    assert (s + "\n")[..|s|] == s;
  }
}
