/** The two date patterns of `fix_date`, written out as character-class
    predicates. Python's `re.match` anchors at the start; `$` matches at the
    end of the text or just before one final newline. */
module Dates {
  import opened Strings

  /** `\d{2}(\d{2}|XX)(-\d{2}-\d{2})?`, matched completely. */
  predicate IsoBody(s: string) {
    && (|s| == 4 || |s| == 10)
    && IsDigit(s[0]) && IsDigit(s[1])
    && ((IsDigit(s[2]) && IsDigit(s[3])) || (s[2] == 'X' && s[3] == 'X'))
    && (|s| == 10 ==>
          s[4] == '-' && IsDigit(s[5]) && IsDigit(s[6]) && s[7] == '-' && IsDigit(s[8]) && IsDigit(s[9]))
  }

  /** `\d{2}\.\d{2}\.\d{4}`, matched completely (`dd.mm.yyyy`). */
  predicate GermanBody(s: string) {
    && |s| == 10
    && IsDigit(s[0]) && IsDigit(s[1]) && s[2] == '.'
    && IsDigit(s[3]) && IsDigit(s[4]) && s[5] == '.'
    && IsDigit(s[6]) && IsDigit(s[7]) && IsDigit(s[8]) && IsDigit(s[9])
  }

  /** The last character is a newline, before which a pattern ending in `$`
      also matches. */
  predicate EndsInNewline(t: string) { |t| > 0 && t[|t| - 1] == '\n' }

  /** `re.match(RE_ISO8601_DATE, t)` succeeds. */
  predicate IsIsoDate(t: string) {
    IsoBody(t) || (EndsInNewline(t) && IsoBody(t[..|t| - 1]))
  }

  /** `re.match(RE_GERMAN_DATE, t)` succeeds. */
  predicate IsGermanDate(t: string) {
    GermanBody(t) || (EndsInNewline(t) && GermanBody(t[..|t| - 1]))
  }

  /** The part of a matching text the German pattern's groups cover. */
  function GermanMatched(t: string): (s: string)
    requires IsGermanDate(t)
    ensures GermanBody(s)
  {
    if GermanBody(t) then t else t[..|t| - 1]
  }

  /** `'{}-{}-{}'.format(yyyy, mm, dd)` of a German date. */
  function GermanToIso(t: string): (r: string)
    requires IsGermanDate(t)
    ensures |r| == 10 && r[4] == '-' && r[7] == '-'
    ensures r[..4] == GermanMatched(t)[6..] && r[5..7] == GermanMatched(t)[3..5]
    ensures r[8..] == GermanMatched(t)[..2]
  {
    var s := GermanMatched(t);
    s[6..10] + "-" + s[3..5] + "-" + s[0..2]
  }

  /** A converted German date is an ISO date, so `fix_date` leaves it alone
      the next time. */
  lemma GermanToIsoIsIso(t: string)
    requires IsGermanDate(t)
    ensures IsoBody(GermanToIso(t)) && IsIsoDate(GermanToIso(t))
  {
    var s := GermanMatched(t);
    var r := GermanToIso(t);
    assert r[0] == s[6] && r[1] == s[7] && r[2] == s[8] && r[3] == s[9];
    assert r[5] == s[3] && r[6] == s[4] && r[8] == s[0] && r[9] == s[1];
  }

  /** No text matches both patterns: the German separator is a dot, which the
      ISO pattern never allows at that position. */
  lemma IsoAndGermanDisjoint(t: string)
    ensures !(IsIsoDate(t) && IsGermanDate(t))
  {
  }

  /** The example the source's comments give: 06.08.1820 becomes 1820-08-06. */
  lemma GermanExample()
    ensures IsGermanDate("06.08.1820") && GermanToIso("06.08.1820") == "1820-08-06"
  {
  }

  /** Century-unspecific years such as 18XX count as ISO dates. */
  lemma IsoExamples()
    ensures IsIsoDate("18XX") && IsIsoDate("1820-08-06") && IsIsoDate("1820\n")
    ensures !IsIsoDate("1820-08") && !IsIsoDate("XX20") && !IsIsoDate("")
  {
  }
}
