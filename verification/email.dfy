/** The e-mail shape the importer accepts: the regular expression
    `^[^\s@]+@[^\s@]+\.[^\s@]+$`, applied to the trimmed address. */
module Email {
  import opened Text

  /** A character of the class `[^\s@]`. */
  predicate IsPlain(c: char) {
    !IsWhitespace(c) && c != '@'
  }

  /** A run matched by `[^\s@]+` (without the non-emptiness). */
  predicate AllPlain(s: string) {
    forall i :: 0 <= i < |s| ==> IsPlain(s[i])
  }

  /** The pattern as the regular expression reads it: a non-empty plain run, '@',
      a non-empty plain run, '.', a non-empty plain run, and nothing else. The
      matcher may choose any '.' of the domain, hence the existential. */
  ghost predicate MatchesPattern(s: string) {
    exists at, dot ::
      && 0 < at && at + 1 < dot && dot + 1 < |s|
      && s[at] == '@' && s[dot] == '.'
      && AllPlain(s[..at]) && AllPlain(s[at + 1..dot]) && AllPlain(s[dot + 1..])
  }

  /** The check the validator performs, stated the way one reads an address:
      no whitespace, exactly one '@' with text before it, and a '.' in the
      domain with text on both sides. */
  predicate IsValidEmail(s: string) {
    && (forall i | 0 <= i < |s| :: !IsWhitespace(s[i]))
    && exists at | 0 < at < |s| ::
         && s[at] == '@'
         && (forall i | 0 <= i < |s| && i != at :: s[i] != '@')
         && exists dot | at + 1 < dot < |s| - 1 :: s[dot] == '.'
  }

  /** A slice is a plain run exactly when each of its characters is plain. */
  lemma AllPlainSlice(s: string, lo: int, hi: int)
    requires 0 <= lo <= hi <= |s|
    ensures AllPlain(s[lo..hi]) <==> forall i :: lo <= i < hi ==> IsPlain(s[i])
  {
    var t := s[lo..hi];
    if AllPlain(t) {
      forall i | lo <= i < hi ensures IsPlain(s[i]) { assert t[i - lo] == s[i]; }
    }
  }

  /** Every address the validator accepts matches the regular expression. */
  lemma ValidEmailMatches(s: string)
    requires IsValidEmail(s)
    ensures MatchesPattern(s)
  {
    var at :| 0 < at < |s| && s[at] == '@'
      && (forall i | 0 <= i < |s| && i != at :: s[i] != '@')
      && exists dot | at + 1 < dot < |s| - 1 :: s[dot] == '.';
    var dot :| at + 1 < dot < |s| - 1 && s[dot] == '.';
    AllPlainSlice(s, 0, at);
    AllPlainSlice(s, at + 1, dot);
    AllPlainSlice(s, dot + 1, |s|);
    assert s[0..at] == s[..at];
    assert s[dot + 1..|s|] == s[dot + 1..];
  }

  /** Every string matching the regular expression passes the validator. */
  lemma MatchesValidEmail(s: string)
    requires MatchesPattern(s)
    ensures IsValidEmail(s)
  {
    var at, dot :|
      && 0 < at && at + 1 < dot && dot + 1 < |s|
      && s[at] == '@' && s[dot] == '.'
      && AllPlain(s[..at]) && AllPlain(s[at + 1..dot]) && AllPlain(s[dot + 1..]);
    assert s[0..at] == s[..at];
    assert s[dot + 1..|s|] == s[dot + 1..];
    AllPlainSlice(s, 0, at);
    AllPlainSlice(s, at + 1, dot);
    AllPlainSlice(s, dot + 1, |s|);
    forall i | 0 <= i < |s| && i != at ensures IsPlain(s[i]) {
      if i < at {
      } else if i < dot {
      } else if i > dot {
      }
    }
    assert at + 1 < dot < |s| - 1 && s[dot] == '.';
  }

  /** The readable check and the regular expression accept the same strings. */
  lemma ValidEmailIffPattern(s: string)
    ensures IsValidEmail(s) <==> MatchesPattern(s)
  {
    if IsValidEmail(s) { ValidEmailMatches(s); }
    if MatchesPattern(s) { MatchesValidEmail(s); }
  }
}
