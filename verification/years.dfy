/** Release years inside a name: the pattern (19|20)\d{2}, optionally as a whole word, the
    str.find the truncating cleaners use to locate it, and why a trailing "(yyyy)" survives
    the keyword passes. */
module Years {
  import opened Wrappers
  import opened Text
  import opened WholeWord

  predicate IsDigit(c: char) {
    '0' <= c <= '9'
  }

  predicate AllDigits(y: string) {
    forall k | 0 <= k < |y| :: IsDigit(y[k])
  }

  /** (19|20)\d{2} matches s at i. */
  predicate YearAt(s: string, i: int) {
    0 <= i && i + 4 <= |s|
    && ((s[i] == '1' && s[i + 1] == '9') || (s[i] == '2' && s[i + 1] == '0'))
    && IsDigit(s[i + 2]) && IsDigit(s[i + 3])
  }

  /** \b(?:19|20)\d{2}\b matches s at i. */
  predicate WholeYearAt(s: string, i: int) {
    YearAt(s, i) && Boundary(s, i) && Boundary(s, i + 4)
  }

  /** Whole-word years never overlap or touch: the four digits leave no word boundary
      inside them. */
  lemma WholeYearsApart(s: string, i: int)
    requires WholeYearAt(s, i)
    ensures forall j | i < j <= i + 4 :: !WholeYearAt(s, j)
  {
    forall j | i < j <= i + 4 ensures !WholeYearAt(s, j) {
      if j < i + 4 {
        assert WordAt(s, j - 1) && WordAt(s, j);
      } else if YearAt(s, j) {
        assert WordAt(s, j - 1) && WordAt(s, j);
      }
    }
  }

  /** re.findall(r'\b(?:19|20)\d{2}\b', ...) over s from i, as the positions of the matches
      in left-to-right order; the scan resumes after each match. */
  function YearsFrom(s: string, i: nat): (r: seq<nat>)
    requires i <= |s|
    ensures forall k | 0 <= k < |r| :: i <= r[k] && WholeYearAt(s, r[k])
    ensures forall k, l | 0 <= k < l < |r| :: r[k] < r[l]
    ensures forall j | i <= j && WholeYearAt(s, j) :: j in r
    decreases |s| - i
  {
    if i + 4 > |s| then []
    else if WholeYearAt(s, i) then
      WholeYearsApart(s, i);
      [i] + YearsFrom(s, i + 4)
    else YearsFrom(s, i + 1)
  }

  /** years[-1] for years = re.findall(...): where the last whole-word year starts. */
  function LastYear(s: string): (r: Option<nat>)
    ensures r.Some? ==> WholeYearAt(s, r.value) && forall j | r.value < j :: !WholeYearAt(s, j)
    ensures r.None? ==> forall j :: !WholeYearAt(s, j)
  {
    var ys := YearsFrom(s, 0);
    if |ys| == 0 then None else Some(ys[|ys| - 1])
  }

  /** re.search(r'(19|20)\d{2}', s) from i: the first year-like run of digits, words or not. */
  function FirstYearFrom(s: string, i: nat): (r: Option<nat>)
    ensures r.Some? ==> i <= r.value && YearAt(s, r.value)
    ensures r.Some? ==> forall j | i <= j < r.value :: !YearAt(s, j)
    ensures r.None? ==> forall j | i <= j :: !YearAt(s, j)
    decreases |s| - i
  {
    if i + 4 > |s| then None
    else if YearAt(s, i) then Some(i)
    else FirstYearFrom(s, i + 1)
  }

  function FirstYear(s: string): (r: Option<nat>)
    ensures r.Some? ==> YearAt(s, r.value) && forall j | 0 <= j < r.value :: !YearAt(s, j)
    ensures r.None? ==> forall j :: !YearAt(s, j)
  {
    FirstYearFrom(s, 0)
  }

  /** A name without the digits 1 and 2 has no year in it. */
  lemma NoYearLikeRun(s: string)
    requires forall j | 0 <= j < |s| :: s[j] != '1' && s[j] != '2'
    ensures FirstYear(s).None? && LastYear(s).None?
  {
  }

  /** The first year-like run is pinned down by a match and the absence of earlier ones. */
  lemma FirstYearIs(s: string, i: nat)
    requires YearAt(s, i) && forall j | 0 <= j < i :: !YearAt(s, j)
    ensures FirstYear(s) == Some(i)
  {
  }

  /** The year string the scripts keep: the text of the last whole-word year, if any. */
  function LastYearText(s: string): (r: Option<string>)
    ensures r.Some? ==> |r.value| == 4 && AllDigits(r.value) && YearAt(r.value, 0)
  {
    match LastYear(s)
    case None => None
    case Some(i) => Some(s[i..i + 4])
  }

  /** The year string re.search finds: the first year-like run, if any. */
  function FirstYearText(s: string): (r: Option<string>)
    ensures r.Some? ==> |r.value| == 4 && AllDigits(r.value) && YearAt(r.value, 0)
  {
    match FirstYear(s)
    case None => None
    case Some(i) => Some(s[i..i + 4])
  }

  predicate OccurrenceAt(s: string, t: string, j: int) {
    0 <= j && j + |t| <= |s| && s[j..j + |t|] == t
  }

  /** str.find(t) on s from i: the first occurrence at or after i, or -1. */
  function FindFrom(s: string, t: string, i: nat): (r: int)
    ensures r == -1 || (i <= r && OccurrenceAt(s, t, r))
    ensures r == -1 ==> forall j | i <= j :: !OccurrenceAt(s, t, j)
    ensures r != -1 ==> forall j | i <= j < r :: !OccurrenceAt(s, t, j)
    decreases |s| - i
  {
    if i + |t| > |s| then -1
    else if s[i..i + |t|] == t then i
    else FindFrom(s, t, i + 1)
  }

  /** str.find(t). */
  function Find(s: string, t: string): (r: int)
    ensures r == -1 || OccurrenceAt(s, t, r)
    ensures r == -1 ==> forall j :: !OccurrenceAt(s, t, j)
    ensures r != -1 ==> forall j | 0 <= j < r :: !OccurrenceAt(s, t, j)
  {
    FindFrom(s, t, 0)
  }

  /** name.find(year) lands exactly where re.search found the year: no earlier place
      spells the same four digits, or the search would have stopped there. */
  lemma FindLocatesFirstYear(s: string)
    requires FirstYear(s).Some?
    ensures Find(s, s[FirstYear(s).value..FirstYear(s).value + 4]) == FirstYear(s).value
  {
    var i := FirstYear(s).value;
    var y := s[i..i + 4];
    assert OccurrenceAt(s, y, i);
    var r := Find(s, y);
    if r != i {
      assert r < i;
      assert s[r..r + 4] == y;
      assert s[r] == y[0] && s[r + 1] == y[1] && s[r + 2] == y[2] && s[r + 3] == y[3];
      assert YearAt(s, r);
    }
  }

  predicate YearTailChar(c: char) {
    IsDigit(c) || c == ')'
  }

  /** A keyword that can neither contain the "(" of a trailing " (yyyy)", nor end in the
      space before it, nor fit inside the digits and ")" after it. */
  predicate SparesYearSuffix(kw: string) {
    |kw| > 0 && '(' !in kw && kw[|kw| - 1] != ' '
    && !(YearTailChar(kw[0]) && YearTailChar(kw[|kw| - 1]))
  }

  /** Every match of such a keyword ends before a trailing " (" + y + ")". */
  lemma MatchBeforeYearSuffix(s: string, y: string, kw: string, j: int)
    requires AllDigits(y) && EndsWith(s, " (" + y + ")")
    requires SparesYearSuffix(kw) && MatchAt(s, kw, j)
    ensures j + |kw| <= |s| - |y| - 3
  {
    var k := |s| - |y| - 2;
    var t := " (" + y + ")";
    assert s[k - 1] == t[0] == ' ';
    assert s[k] == t[1] == '(';
    forall p | k < p < |s| ensures YearTailChar(s[p]) {
      assert s[p] == t[p - k + 1];
      if p - k <= |y| {
        assert t[p - k + 1] == y[p - k - 1];
      }
    }
    if j <= k < j + |kw| {
      ParenInKeyword(s, kw, j, k);
    } else if k < j {
      KeywordEndsLike(s, kw, j);
    } else if j + |kw| == k {
      KeywordEndsInSpace(s, kw, j);
    }
  }

  lemma ParenInKeyword(s: string, kw: string, j: int, k: int)
    requires OccursAt(s, kw, j) && j <= k < j + |kw| && s[k] == '('
    ensures '(' in kw
  {
    assert Lower(s[j + (k - j)]) == Lower(kw[k - j]);
  }

  lemma KeywordEndsInSpace(s: string, kw: string, j: int)
    requires OccursAt(s, kw, j) && |kw| > 0 && s[j + |kw| - 1] == ' '
    ensures kw[|kw| - 1] == ' '
  {
    assert Lower(s[j + (|kw| - 1)]) == Lower(kw[|kw| - 1]);
  }

  lemma KeywordEndsLike(s: string, kw: string, j: int)
    requires OccursAt(s, kw, j) && |kw| > 0
    requires YearTailChar(s[j]) && YearTailChar(s[j + |kw| - 1])
    ensures YearTailChar(kw[0]) && YearTailChar(kw[|kw| - 1])
  {
    assert Lower(s[j + 0]) == Lower(kw[0]);
    assert Lower(s[j + (|kw| - 1)]) == Lower(kw[|kw| - 1]);
  }

  /** One keyword pass leaves a trailing " (yyyy)" in place. */
  lemma SubKeepsYearSuffix(s: string, y: string, kw: string)
    requires AllDigits(y) && EndsWith(s, " (" + y + ")")
    requires SparesYearSuffix(kw)
    ensures EndsWith(Sub(s, [kw]), " (" + y + ")")
  {
    var k := |s| - |y| - 3;
    forall j, q | 0 <= j < |s| && 0 <= q < |[kw]| && MatchAt(s, [kw][q], j)
      ensures j + |[kw][q]| <= k
    {
      MatchBeforeYearSuffix(s, y, kw, j);
    }
    SubKeepsTail(s, [kw], k);
  }

  /** All keyword passes together leave a trailing " (yyyy)" in place. */
  lemma {:induction false} RemoveEachKeepsYearSuffix(s: string, y: string, kws: seq<string>)
    requires AllDigits(y) && EndsWith(s, " (" + y + ")")
    requires forall kw | kw in kws :: SparesYearSuffix(kw)
    ensures EndsWith(RemoveEach(s, kws), " (" + y + ")")
    decreases |kws|
  {
    if |kws| > 0 {
      SubKeepsYearSuffix(s, y, kws[0]);
      RemoveEachKeepsYearSuffix(Sub(s, [kws[0]]), y, kws[1..]);
    }
  }

  /** Separator replacement leaves a trailing " (yyyy)" as it is. */
  lemma SeparatorsKeepYearTag(t: string, y: string)
    requires AllDigits(y)
    ensures ReplaceSeparators(t + " (" + y + ")") == ReplaceSeparators(t) + " (" + y + ")"
  {
    var f := t + " (" + y + ")";
    var r := ReplaceSeparators(t) + " (" + y + ")";
    forall i | 0 <= i < |f| ensures ReplaceSeparators(f)[i] == r[i] {
      if |t| + 2 <= i < |t| + 2 + |y| {
        assert f[i] == y[i - |t| - 2];
      }
    }
  }

  /** A trailing "(yyyy)" is the last whole-word year of a name. */
  lemma LastYearIsTag(u: string, y: string)
    requires |y| == 4 && YearAt(y, 0)
    ensures LastYearText(u + " (" + y + ")") == Some(y)
  {
    var s := u + " (" + y + ")";
    var p := |u| + 2;
    assert s[p..p + 4] == y;
    assert forall m | 0 <= m < 4 :: s[p + m] == y[m];
    assert s[p - 1] == '(' && s[p + 4] == ')';
    assert WholeYearAt(s, p);
    WholeYearsApart(s, p);
    var v := LastYear(s).value;
    assert v == p;
  }

  /** A file name already in the form "Title (yyyy)": after separator replacement it still
      ends in " (yyyy)", and that year is its last whole-word year. */
  lemma CanonicalFileName(f: string, t: string, y: string)
    requires f == t + " (" + y + ")" && |y| == 4 && YearAt(y, 0)
    ensures LastYearText(ReplaceSeparators(f)) == Some(y)
    ensures EndsWith(ReplaceSeparators(f), " (" + y + ")")
  {
    SeparatorsKeepYearTag(t, y);
    TaggedText(ReplaceSeparators(t), y);
  }

  lemma TaggedText(u: string, y: string)
    requires |y| == 4 && YearAt(y, 0)
    ensures LastYearText(u + " (" + y + ")") == Some(y)
    ensures EndsWith(u + " (" + y + ")", " (" + y + ")")
  {
    LastYearIsTag(u, y);
    EndsWithAppend(u, " (" + y + ")");
  }

  /** " (yyyy)" is a space followed by the tag "(yyyy)". */
  lemma SpacedYearTag(y: string)
    ensures " (" + y + ")" == " " + ("(" + y + ")")
  {
  }

  /** A year tag "(yyyy)" holds no white space. */
  lemma NoSpaceYearTag(y: string)
    requires AllDigits(y)
    ensures NoSpace("(" + y + ")")
  {
    var t := "(" + y + ")";
    forall i | 0 <= i < |t| ensures !IsSpace(t[i]) {
      if 0 < i < |t| - 1 {
        assert t[i] == y[i - 1];
      }
    }
  }

  /** The characters of head + " (" + y + ")". */
  lemma YearTagChars(head: string, y: string)
    requires AllDigits(y)
    ensures forall c | c in head + " (" + y + ")" :: c in head || c == ' ' || c == '(' || c == ')' || IsDigit(c)
  {
    var t := head + " (" + y + ")";
    forall c | c in t ensures c in head || c == ' ' || c == '(' || c == ')' || IsDigit(c) {
      var m :| 0 <= m < |t| && t[m] == c;
      if m < |head| {
        assert c == head[m];
      } else if |head| + 2 <= m < |head| + 2 + |y| {
        assert c == y[m - |head| - 2];
      }
    }
  }
}
