/** The test every folder pass uses to leave finished folders alone:
    re.match(r'^.+ \(\d{4}\)$', name). */
module Canonical {
  import opened Years

  /** s ends with " (dddd)". */
  predicate EndsWithYearTag(s: string) {
    |s| >= 7 && s[|s| - 7] == ' ' && s[|s| - 6] == '(' && s[|s| - 1] == ')'
    && IsDigit(s[|s| - 5]) && IsDigit(s[|s| - 4]) && IsDigit(s[|s| - 3]) && IsDigit(s[|s| - 2])
  }

  /** The pattern matched up to an end position: ".+" takes at least one character and no
      newline, then " (dddd)" closes the text. */
  predicate MatchesUpTo(s: string) {
    |s| >= 8 && EndsWithYearTag(s) && '\n' !in s[..|s| - 7]
  }

  /** re.match(r'^.+ \(\d{4}\)$', name): "$" matches at the very end of the name or just
      before a final newline. */
  predicate IsRenamed(name: string)
    ensures IsRenamed(name) ==> |name| >= 8 && ')' in name[|name| - 2..]
  {
    MatchesUpTo(name)
    || (|name| > 0 && name[|name| - 1] == '\n' && MatchesUpTo(name[..|name| - 1]))
  }

  /** The canonical form title + " (" + year + ")" counts as renamed exactly when the
      title is non-empty and on one line and the year is four digits. */
  lemma CanonicalIsRenamed(title: string, year: string)
    requires |year| == 4
    ensures IsRenamed(title + " (" + year + ")") <==> |title| > 0 && '\n' !in title && AllDigits(year)
  {
    var name := title + " (" + year + ")";
    assert name[..|name| - 7] == title;
    assert name[|name| - 5..|name| - 1] == year;
    if AllDigits(year) {
      assert IsDigit(year[0]) && IsDigit(year[1]) && IsDigit(year[2]) && IsDigit(year[3]);
    }
    if IsRenamed(name) && !MatchesUpTo(name) {
      assert name[|name| - 1] == ')';
    }
  }

  /** Conversely, every renamed name without a final newline is a canonical name: a
      one-line title, " (", four digits and ")". */
  lemma RenamedIsCanonical(name: string)
    requires IsRenamed(name) && name[|name| - 1] != '\n'
    ensures var title, year := name[..|name| - 7], name[|name| - 5..|name| - 1];
      name == title + " (" + year + ")" && |title| > 0 && '\n' !in title && AllDigits(year)
  {
    var title, year := name[..|name| - 7], name[|name| - 5..|name| - 1];
    assert name == title + " (" + year + ")";
    assert forall k | 0 <= k < 4 :: year[k] == name[|name| - 5 + k];
  }

  /** Names without the year tag, like a release name, are never taken as renamed. */
  lemma ReleaseNameNotRenamed()
    ensures !IsRenamed("Movie.2010.1080p.BluRay")
  {
  }
}
