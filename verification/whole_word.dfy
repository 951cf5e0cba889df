/** Whole-word, case-insensitive keyword removal: what re.sub does with the pattern
    \b(?:k1|k2|...)\b, the re.IGNORECASE flag and an empty replacement. */
module WholeWord {
  import opened Wrappers
  import opened Text

  /** The regex class \w on ASCII. */
  predicate IsWordChar(c: char) {
    ('a' <= c <= 'z') || ('A' <= c <= 'Z') || ('0' <= c <= '9') || c == '_'
  }

  predicate WordAt(s: string, i: int) {
    0 <= i < |s| && IsWordChar(s[i])
  }

  /** The regex \b at position i: exactly one of s[i-1], s[i] is a word character
      (positions outside s count as non-word). */
  predicate Boundary(s: string, i: int) {
    WordAt(s, i - 1) != WordAt(s, i)
  }

  /** kw occurs in s at i, ignoring ASCII case. */
  predicate OccursAt(s: string, kw: string, i: int) {
    0 <= i && i + |kw| <= |s| && forall m | 0 <= m < |kw| :: Lower(s[i + m]) == Lower(kw[m])
  }

  /** The escaped keyword kw, wrapped in \b ... \b, matches s at i. Keywords are never
      empty in the scripts; an empty keyword is treated as never matching, which gives the
      same replacement result as Python's empty matches replaced by the empty string. */
  predicate MatchAt(s: string, kw: string, i: int) {
    |kw| > 0 && OccursAt(s, kw, i) && Boundary(s, i) && Boundary(s, i + |kw|)
  }

  /** The alternative the regex engine picks at i: the first one in list order that matches. */
  function FirstAlt(s: string, alts: seq<string>, i: int): (r: Option<nat>)
    ensures r.Some? ==> r.value < |alts| && MatchAt(s, alts[r.value], i)
    ensures r.Some? ==> forall k | 0 <= k < r.value :: !MatchAt(s, alts[k], i)
    ensures r.None? <==> forall k | 0 <= k < |alts| :: !MatchAt(s, alts[k], i)
    decreases |alts|
  {
    if |alts| == 0 then None
    else if MatchAt(s, alts[0], i) then Some(0)
    else match FirstAlt(s, alts[1..], i)
      case None => None
      case Some(k) => Some(k + 1)
  }

  /** re.sub scanning s from i: at each position the first matching alternative is
      dropped and the scan resumes after it; otherwise one character is kept. Word
      boundaries are always judged on the original string. */
  function SubFrom(s: string, alts: seq<string>, i: nat): (r: string)
    requires i <= |s|
    ensures |r| <= |s| - i
    decreases |s| - i
  {
    if i == |s| then []
    else match FirstAlt(s, alts, i)
      case Some(k) => SubFrom(s, alts, i + |alts[k]|)
      case None => [s[i]] + SubFrom(s, alts, i + 1)
  }

  /** re.sub(r'\b(?:a1|a2|...)\b', '', s, flags=re.IGNORECASE). */
  function Sub(s: string, alts: seq<string>): (r: string)
    ensures |r| <= |s|
  {
    SubFrom(s, alts, 0)
  }

  /** The scan only deletes: every character it outputs comes from the scanned text. */
  lemma {:induction false} SubFromChars(s: string, alts: seq<string>, i: nat)
    requires i <= |s|
    ensures forall c | c in SubFrom(s, alts, i) :: c in s[i..]
    decreases |s| - i
  {
    if i < |s| {
      match FirstAlt(s, alts, i)
      case Some(k) =>
        SubFromChars(s, alts, i + |alts[k]|);
        forall c | c in s[i + |alts[k]|..] ensures c in s[i..] {
          var m :| i + |alts[k]| <= m < |s| && s[m] == c;
          assert s[i..][m - i] == c;
        }
      case None =>
        SubFromChars(s, alts, i + 1);
        forall c | c in s[i + 1..] ensures c in s[i..] {
          var m :| i + 1 <= m < |s| && s[m] == c;
          assert s[i..][m - i] == c;
        }
    }
  }

  lemma SubChars(s: string, alts: seq<string>)
    ensures forall c | c in Sub(s, alts) :: c in s
  {
    SubFromChars(s, alts, 0);
    assert s[0..] == s;
  }

  /** Where nothing matches, the scan copies the text unchanged. */
  lemma {:induction false} SubKeepsPrefix(s: string, alts: seq<string>, i: nat, k: nat)
    requires i <= k <= |s|
    requires forall j, q | i <= j < k && 0 <= q < |alts| :: !MatchAt(s, alts[q], j)
    ensures SubFrom(s, alts, i) == s[i..k] + SubFrom(s, alts, k)
    decreases k - i
  {
    if i < k {
      assert FirstAlt(s, alts, i).None?;
      SubKeepsPrefix(s, alts, i + 1, k);
      assert s[i..k] == [s[i]] + s[i + 1..k];
      Associative([s[i]], s[i + 1..k], SubFrom(s, alts, k));
    }
  }

  /** Text where no alternative matches is left alone by re.sub. */
  lemma SubNoMatch(s: string, alts: seq<string>)
    requires forall j, q | 0 <= j < |s| && 0 <= q < |alts| :: !MatchAt(s, alts[q], j)
    ensures Sub(s, alts) == s
  {
    SubKeepsPrefix(s, alts, 0, |s|);
    assert s[0..|s|] == s;
  }

  /** Whatever the scan makes of s[k..] ends its output from any earlier i, as long as
      no match starting before k reaches past k. */
  lemma {:induction false} SubKeepsSuffix(s: string, alts: seq<string>, i: nat, k: nat)
    requires i <= k <= |s|
    requires Contained(s, alts, i, k)
    ensures EndsWith(SubFrom(s, alts, i), SubFrom(s, alts, k))
    decreases k - i
  {
    if i == k {
      EndsWithSelf(SubFrom(s, alts, k));
    } else {
      NextContained(s, alts, i, k);
      SubKeepsSuffix(s, alts, Next(s, alts, i), k);
      NextEndsWith(s, alts, i, SubFrom(s, alts, k));
    }
  }

  /** Where the scan goes on after position i: past the match there, or to i + 1. */
  function Next(s: string, alts: seq<string>, i: nat): (n: nat)
    requires i < |s|
    ensures i < n <= |s|
  {
    match FirstAlt(s, alts, i)
    case Some(q) => SubStepMatch(s, alts, i, q); i + |alts[q]|
    case None => i + 1
  }

  /** No match starting in [i, k) reaches past k. */
  ghost predicate Contained(s: string, alts: seq<string>, i: nat, k: nat) {
    forall j, q | i <= j < k && 0 <= q < |alts| && MatchAt(s, alts[q], j) :: j + |alts[q]| <= k
  }

  lemma NextContained(s: string, alts: seq<string>, i: nat, k: nat)
    requires i < k <= |s| && Contained(s, alts, i, k)
    ensures Next(s, alts, i) <= k && Contained(s, alts, Next(s, alts, i), k)
  {
  }

  /** Whatever the output from the next scan position ends with, the output from i ends
      with too. */
  lemma NextEndsWith(s: string, alts: seq<string>, i: nat, t: string)
    requires i < |s| && EndsWith(SubFrom(s, alts, Next(s, alts, i)), t)
    ensures EndsWith(SubFrom(s, alts, i), t)
  {
    match FirstAlt(s, alts, i)
    case Some(q) =>
      SubStepMatch(s, alts, i, q);
    case None =>
      SubStepKeep(s, alts, i);
      EndsWithCons(s[i], SubFrom(s, alts, i + 1), t);
  }

  lemma SubStepMatch(s: string, alts: seq<string>, i: nat, q: nat)
    requires i < |s| && FirstAlt(s, alts, i) == Some(q)
    ensures q < |alts| && MatchAt(s, alts[q], i)
    ensures i + |alts[q]| <= |s| && SubFrom(s, alts, i) == SubFrom(s, alts, i + |alts[q]|)
  {
    MatchFits(s, alts[q], i);
    SubFromMatch(s, alts, i, q, SubFrom(s, alts, i + |alts[q]|));
  }

  lemma SubFromMatch(s: string, alts: seq<string>, i: nat, q: nat, t: string)
    requires i < |s| && FirstAlt(s, alts, i) == Some(q) && q < |alts| && i + |alts[q]| <= |s|
    requires t == SubFrom(s, alts, i + |alts[q]|)
    ensures SubFrom(s, alts, i) == t
  {
  }

  lemma MatchFits(s: string, kw: string, i: int)
    requires MatchAt(s, kw, i)
    ensures 0 <= i && i + |kw| <= |s| && |kw| > 0
  {
  }

  lemma SubStepKeep(s: string, alts: seq<string>, i: nat)
    requires i < |s| && FirstAlt(s, alts, i).None?
    ensures SubFrom(s, alts, i) == [s[i]] + SubFrom(s, alts, i + 1)
  {
  }

  /** A tail of s that no match can touch comes out of re.sub unchanged. */
  lemma SubKeepsTail(s: string, alts: seq<string>, k: nat)
    requires k <= |s|
    requires forall j, q | 0 <= j < |s| && 0 <= q < |alts| && MatchAt(s, alts[q], j) :: j + |alts[q]| <= k
    ensures EndsWith(Sub(s, alts), s[k..])
  {
    assert Contained(s, alts, 0, k);
    SubKeepsSuffix(s, alts, 0, k);
    SubKeepsPrefix(s, alts, k, |s|);
    assert SubFrom(s, alts, |s|) == [];
    assert s[k..|s|] + [] == s[k..];
  }

  /** A hyphen only matches \b-\b when it sits between two word characters, as in
      "WEB-DL"; a free-standing " - " is never removed. */
  lemma HyphenMatch(s: string, i: int)
    ensures MatchAt(s, "-", i) <==> 0 <= i < |s| && s[i] == '-' && WordAt(s, i - 1) && WordAt(s, i + 1)
  {
    if MatchAt(s, "-", i) {
      assert Lower(s[i + 0]) == Lower("-"[0]);
    }
    if 0 <= i < |s| && s[i] == '-' {
      assert "-"[0] == '-';
    }
  }

  /** A keyword that contains a character s lacks (in any case) never matches s. */
  lemma AbsentCharNeverMatches(s: string, kw: string, c: char, i: int)
    requires c in kw
    requires forall j | 0 <= j < |s| :: Lower(s[j]) != Lower(c)
    ensures !MatchAt(s, kw, i)
  {
    var m :| 0 <= m < |kw| && kw[m] == c;
    if 0 <= i && i + |kw| <= |s| {
      assert Lower(s[i + m]) != Lower(kw[m]);
    }
  }

  /** So such a keyword leaves the text unchanged: after the scripts replace '.' and '_'
      by spaces, keywords such as "DD5.1" and "_" can never remove anything. */
  lemma AbsentCharInert(s: string, kw: string, c: char)
    requires c in kw
    requires forall j | 0 <= j < |s| :: Lower(s[j]) != Lower(c)
    ensures Sub(s, [kw]) == s
  {
    forall j, q | 0 <= j < |s| && 0 <= q < |[kw]| ensures !MatchAt(s, [kw][q], j) {
      AbsentCharNeverMatches(s, kw, c, j);
    }
    SubNoMatch(s, [kw]);
  }

  /** Every character of s, case-folded, lies in the alphabet a. */
  predicate Within(s: string, a: set<char>) {
    forall j | 0 <= j < |s| :: Lower(s[j]) in a
  }

  /** Some character of kw at or after position m lies, case-folded, outside a. Written
      as a recursion over positions so that it can be decided for a literal keyword. */
  predicate OutsideFrom(kw: string, a: set<char>, m: nat)
    decreases |kw| - m
  {
    m < |kw| && (Lower(kw[m]) !in a || OutsideFrom(kw, a, m + 1))
  }

  predicate Outside(kw: string, a: set<char>) {
    OutsideFrom(kw, a, 0)
  }

  lemma {:induction false} OutsideWitness(kw: string, a: set<char>, m: nat)
    requires OutsideFrom(kw, a, m)
    ensures exists p | m <= p < |kw| :: Lower(kw[p]) !in a
    decreases |kw| - m
  {
    if Lower(kw[m]) in a {
      OutsideWitness(kw, a, m + 1);
    }
  }

  /** A keyword with a character outside the alphabet of s never matches s. */
  lemma OutsideNeverMatches(s: string, kw: string, a: set<char>, i: int)
    requires Within(s, a) && Outside(kw, a)
    ensures !MatchAt(s, kw, i)
  {
    OutsideWitness(kw, a, 0);
    var p :| 0 <= p < |kw| && Lower(kw[p]) !in a;
    if 0 <= i && i + |kw| <= |s| {
      assert Lower(s[i + p]) in a;
    }
  }

  /** The keyword passes leave s alone when every keyword has a character outside the
      alphabet of s. */
  lemma {:induction false} RemoveEachInert(s: string, kws: seq<string>, a: set<char>)
    requires Within(s, a)
    requires forall k | 0 <= k < |kws| :: Outside(kws[k], a)
    ensures RemoveEach(s, kws) == s
    decreases |kws|
  {
    if |kws| > 0 {
      forall j, q | 0 <= j < |s| && 0 <= q < |[kws[0]]| ensures !MatchAt(s, [kws[0]][q], j) {
        OutsideNeverMatches(s, kws[0], a, j);
      }
      SubNoMatch(s, [kws[0]]);
      RemoveEachInert(s, kws[1..], a);
    }
  }

  /** Keywords before position n that are inert on s can be skipped. */
  lemma {:induction false} RemoveEachSkip(s: string, kws: seq<string>, n: nat, a: set<char>)
    requires n <= |kws| && Within(s, a)
    requires forall k | 0 <= k < n :: Outside(kws[k], a)
    ensures RemoveEach(s, kws) == RemoveEach(s, kws[n..])
    decreases n
  {
    if n > 0 {
      forall j, q | 0 <= j < |s| && 0 <= q < |[kws[0]]| ensures !MatchAt(s, [kws[0]][q], j) {
        OutsideNeverMatches(s, kws[0], a, j);
      }
      SubNoMatch(s, [kws[0]]);
      assert kws[1..][n - 1..] == kws[n..];
      RemoveEachSkip(s, kws[1..], n - 1, a);
    }
  }

  /** When every keyword but the one at n is inert (those before it on s, those after it
      on what its pass leaves), the whole fold is that one pass. */
  lemma RemoveEachOnly(s: string, kws: seq<string>, n: nat, a: set<char>, b: set<char>)
    requires n < |kws| && Within(s, a)
    requires forall k | 0 <= k < n :: Outside(kws[k], a)
    requires Within(Sub(s, [kws[n]]), b)
    requires forall k | n < k < |kws| :: Outside(kws[k], b)
    ensures RemoveEach(s, kws) == Sub(s, [kws[n]])
  {
    RemoveEachSkip(s, kws, n, a);
    var rest := kws[n + 1..];
    assert kws[n..][0] == kws[n] && kws[n..][1..] == rest;
    assert forall k | 0 <= k < |rest| :: Outside(rest[k], b) by {
      forall k | 0 <= k < |rest| ensures Outside(rest[k], b) {
        assert rest[k] == kws[n + 1 + k];
      }
    }
    RemoveEachInert(Sub(s, [kws[n]]), rest, b);
  }

  /** "CH" is removed only as a word of its own: it stays inside "Channel". */
  lemma ChannelKeepsCh()
    ensures Sub("Channel 5", ["CH"]) == "Channel 5"
  {
    var s := "Channel 5";
    forall j, q | 0 <= j < |s| && 0 <= q < 1 ensures !MatchAt(s, ["CH"][q], j) {
      assert ["CH"][q] == "CH";
      assert Lower(s[7]) != Lower("CH"[0]);
    }
    SubNoMatch(s, ["CH"]);
  }

  /** A free-standing "ch" goes, in any case, and the spaces around it stay. */
  lemma LoneChRemoved()
    ensures Sub("Movie ch 2020", ["CH"]) == "Movie  2020"
  {
    var s, alts := "Movie ch 2020", ["CH"];
    JoinLiterals();
    LoneChMatchesOnce();
    assert FirstAlt(s, alts, 6) == Some(0);
    SubKeepsPrefix(s, alts, 8, |s|);
    SubKeepsPrefix(s, alts, 0, 6);
    assert SubFrom(s, alts, |s|) == [];
  }

  /** "ch" matches "Movie ch 2020" at 6 and nowhere else. */
  lemma LoneChMatchesOnce()
    ensures MatchAt("Movie ch 2020", "CH", 6)
    ensures forall j, q | (0 <= j < 6 || 8 <= j < 13) && 0 <= q < 1 :: !MatchAt("Movie ch 2020", ["CH"][q], j)
  {
    var s := "Movie ch 2020";
    forall j, q | (0 <= j < 6 || 8 <= j < |s|) && 0 <= q < 1 ensures !MatchAt(s, ["CH"][q], j) {
      assert ["CH"][q] == "CH";
      assert Lower(s[j]) != Lower("CH"[0]);
    }
    forall m | 0 <= m < 2 ensures Lower(s[6 + m]) == Lower("CH"[m]) {
      if m == 0 {
      } else {
      }
    }
  }

  lemma JoinLiterals()
    ensures "Movie ch 2020"[0..6] + "Movie ch 2020"[8..13] == "Movie  2020"
  {
  }

  /** An alternation none of whose alternatives fits the alphabet of s changes nothing. */
  lemma SubInert(s: string, alts: seq<string>, a: set<char>)
    requires Within(s, a)
    requires forall k | 0 <= k < |alts| :: Outside(alts[k], a)
    ensures Sub(s, alts) == s
  {
    forall j, q | 0 <= j < |s| && 0 <= q < |alts| ensures !MatchAt(s, alts[q], j) {
      OutsideNeverMatches(s, alts[q], a, j);
    }
    SubNoMatch(s, alts);
  }

  /** The last position below n where w matches as a whole word. */
  function LastMatchBelow(s: string, w: string, n: nat): (r: Option<nat>)
    requires n <= |s|
    ensures r.Some? ==> r.value < n && MatchAt(s, w, r.value)
    ensures r.Some? ==> forall k | r.value < k < n :: !MatchAt(s, w, k)
    ensures r.None? <==> forall k | 0 <= k < n :: !MatchAt(s, w, k)
    decreases n
  {
    if n == 0 then None
    else if MatchAt(s, w, n - 1) then Some(n - 1)
    else LastMatchBelow(s, w, n - 1)
  }

  /** The last whole-word occurrence of w in s, if any. */
  function LastMatch(s: string, w: string): (r: Option<nat>)
    ensures r.Some? ==> MatchAt(s, w, r.value) && forall k | r.value < k :: !MatchAt(s, w, k)
    ensures r.None? <==> forall k :: !MatchAt(s, w, k)
  {
    LastMatchBelow(s, w, |s|)
  }

  /** for word in kws: s = re.sub(r'\b' + re.escape(word) + r'\b', '', s, flags=re.IGNORECASE),
      one keyword after the other, each pass seeing the previous pass's output. */
  function RemoveEach(s: string, kws: seq<string>): (r: string)
    ensures |r| <= |s|
    decreases |kws|
  {
    if |kws| == 0 then s else RemoveEach(Sub(s, [kws[0]]), kws[1..])
  }

  /** The keyword passes only delete: no character appears that was not there before. */
  lemma {:induction false} RemoveEachChars(s: string, kws: seq<string>)
    ensures forall c | c in RemoveEach(s, kws) :: c in s
    decreases |kws|
  {
    if |kws| > 0 {
      SubChars(s, [kws[0]]);
      RemoveEachChars(Sub(s, [kws[0]]), kws[1..]);
    }
  }

  /** Removing one list and then another is removing their concatenation. */
  lemma {:induction false} RemoveEachAppend(s: string, a: seq<string>, b: seq<string>)
    ensures RemoveEach(s, a + b) == RemoveEach(RemoveEach(s, a), b)
    decreases |a|
  {
    if |a| == 0 {
      assert a + b == b;
    } else {
      assert (a + b)[0] == a[0];
      assert (a + b)[1..] == a[1..] + b;
      RemoveEachAppend(Sub(s, [a[0]]), a[1..], b);
    }
  }

  /** Every character of w is a word character, as in a year. */
  predicate AllWordChars(w: string) {
    forall m | 0 <= m < |w| :: IsWordChar(w[m])
  }

  /** Position i does not lie strictly inside a run of word characters. */
  predicate AtWordEdge(s: string, i: int) {
    !WordAt(s, i - 1) || !WordAt(s, i)
  }

  /** t holds no whole-word occurrence of w. */
  ghost predicate NoMatch(t: string, w: string) {
    forall j :: !MatchAt(t, w, j)
  }

  /** Case folding keeps word characters word characters, and the others not. */
  lemma LowerWord(c: char)
    ensures IsWordChar(Lower(c)) <==> IsWordChar(c)
  {
  }

  /** A character that an all-word keyword matches, ignoring case, is a word character. */
  lemma MatchedCharIsWord(t: string, w: string, j: int, m: int)
    requires OccursAt(t, w, j) && AllWordChars(w) && 0 <= m < |w|
    ensures IsWordChar(t[j + m])
  {
    LowerWord(w[m]);
    LowerWord(t[j + m]);
  }

  /** Where the run of word characters starting at i ends. */
  function WordEnd(s: string, i: nat): (e: nat)
    requires i <= |s|
    ensures i <= e <= |s| && !WordAt(s, e)
    ensures forall k | i <= k < e :: WordAt(s, k)
    ensures WordAt(s, i) ==> i < e
    decreases |s| - i
  {
    if i < |s| && IsWordChar(s[i]) then WordEnd(s, i + 1) else i
  }

  /** A match in p + v that starts inside v, not glued to a word character of p, is a
      match in v. */
  lemma MatchShift(p: string, v: string, w: string, j: int)
    requires MatchAt(p + v, w, j) && j >= |p|
    requires j > |p| || |p| == 0 || !IsWordChar(p[|p| - 1])
    ensures MatchAt(v, w, j - |p|)
  {
    var t := p + v;
    var k := j - |p|;
    forall m | 0 <= m < |w| ensures Lower(v[k + m]) == Lower(w[m]) {
      assert t[j + m] == v[k + m];
    }
    assert WordAt(t, j - 1) == WordAt(v, k - 1);
    assert WordAt(t, j) == WordAt(v, k);
    assert WordAt(t, j + |w|) == WordAt(v, k + |w|);
    assert WordAt(t, j + |w| - 1) == WordAt(v, k + |w| - 1);
  }

  /** A non-empty run of word characters w does not match whole, followed by text that
      is empty or starts with a non-word character and holds no match: together they
      hold no match either. */
  lemma RunThenRest(run: string, v: string, w: string)
    requires |run| > 0 && AllWordChars(run) && |w| > 0 && AllWordChars(w)
    requires !(|run| == |w| && OccursAt(run, w, 0))
    requires |v| == 0 || !IsWordChar(v[0])
    requires NoMatch(v, w)
    ensures NoMatch(run + v, w)
  {
    var t := run + v;
    forall j | MatchAt(t, w, j) ensures false {
      if j < |run| {
        assert WordAt(t, j);
        if j > 0 {
          assert WordAt(t, j - 1);
        }
        if |w| < |run| {
          MatchedCharIsWord(t, w, 0, |w| - 1);
        } else if |w| > |run| {
          MatchedCharIsWord(t, w, 0, |run|);
        } else {
          assert forall m | 0 <= m < |w| :: t[m] == run[m];
          assert OccursAt(run, w, 0);
        }
      } else if j == |run| {
        MatchedCharIsWord(t, w, j, 0);
      } else {
        MatchShift(run, v, w, j);
      }
    }
  }

  /** A non-word character followed by text without a match holds no match. */
  lemma NonWordThenRest(c: char, v: string, w: string)
    requires !IsWordChar(c) && |w| > 0 && AllWordChars(w)
    requires NoMatch(v, w)
    ensures NoMatch([c] + v, w)
  {
    forall j | MatchAt([c] + v, w, j) ensures false {
      if j == 0 {
        MatchedCharIsWord([c] + v, w, 0, 0);
      } else {
        MatchShift([c], v, w, j);
      }
    }
  }

  /** The scan from a non-word character keeps that character first. */
  lemma ScanKeepsNonWord(s: string, w: string, i: nat)
    requires i < |s| && !IsWordChar(s[i]) && |w| > 0 && AllWordChars(w)
    ensures FirstAlt(s, [w], i).None?
    ensures SubFrom(s, [w], i) == [s[i]] + SubFrom(s, [w], i + 1)
  {
    if MatchAt(s, w, i) {
      MatchedCharIsWord(s, w, i, 0);
    }
    SubStepKeep(s, [w], i);
  }

  /** Removing an all-word keyword leaves no whole-word occurrence of it behind: the text
      on both sides of a deleted match ends and starts with non-word characters, so the
      deletions never join two pieces into a new match. */
  lemma {:induction false} SubFromLeavesNoMatch(s: string, w: string, i: nat)
    requires i <= |s| && |w| > 0 && AllWordChars(w) && AtWordEdge(s, i)
    ensures NoMatch(SubFrom(s, [w], i), w)
    decreases |s| - i
  {
    if i == |s| {
      assert SubFrom(s, [w], i) == [];
    } else if !IsWordChar(s[i]) {
      ScanKeepsNonWord(s, w, i);
      SubFromLeavesNoMatch(s, w, i + 1);
      NonWordThenRest(s[i], SubFrom(s, [w], i + 1), w);
    } else if MatchAt(s, w, i) {
      assert FirstAlt(s, [w], i) == Some(0);
      SubStepMatch(s, [w], i, 0);
      MatchedCharIsWord(s, w, i, |w| - 1);
      SubFromLeavesNoMatch(s, w, i + |w|);
    } else {
      var e := WordEnd(s, i);
      SkipRun(s, w, i, e);
      SubFromLeavesNoMatch(s, w, e);
      if e < |s| {
        ScanKeepsNonWord(s, w, e);
      }
      RunThenRest(s[i..e], SubFrom(s, [w], e), w);
    }
  }

  /** A run of word characters that is not a match is copied by the scan as it is. */
  lemma SkipRun(s: string, w: string, i: nat, e: nat)
    requires i < e <= |s| && !WordAt(s, e) && |w| > 0 && AllWordChars(w)
    requires forall k | i <= k < e :: WordAt(s, k)
    requires AtWordEdge(s, i) && !MatchAt(s, w, i)
    ensures SubFrom(s, [w], i) == s[i..e] + SubFrom(s, [w], e)
    ensures |s[i..e]| > 0 && AllWordChars(s[i..e])
    ensures !(|s[i..e]| == |w| && OccursAt(s[i..e], w, 0))
  {
    forall j, q | i <= j < e && 0 <= q < |[w]| ensures !MatchAt(s, [w][q], j) {
      if j > i {
        assert WordAt(s, j - 1) && WordAt(s, j);
      }
    }
    SubKeepsPrefix(s, [w], i, e);
    forall m | 0 <= m < e - i ensures IsWordChar(s[i..e][m]) {
      assert WordAt(s, i + m);
    }
    if |s[i..e]| == |w| && OccursAt(s[i..e], w, 0) {
      assert forall m | 0 <= m < |w| :: s[i..e][m] == s[i + m];
      assert OccursAt(s, w, i);
    }
  }

  /** re.sub of one all-word keyword leaves none of its whole-word occurrences. */
  lemma SubRemovesWord(s: string, w: string)
    requires |w| > 0 && AllWordChars(w)
    ensures forall j :: !MatchAt(Sub(s, [w]), w, j)
  {
    SubFromLeavesNoMatch(s, w, 0);
  }

  /** str.strip() cuts s down to a slice with only whitespace around it. */
  lemma StripIsSlice(s: string) returns (a: nat, b: nat)
    ensures a <= b <= |s| && Strip(s) == s[a..b]
    ensures forall i | 0 <= i < a :: IsSpace(s[i])
    ensures forall i | b <= i < |s| :: IsSpace(s[i])
  {
    var m := StripRight(s);
    StripLeftDrops(m);
    a, b := |m| - |StripLeft(m)|, |m|;
  }

  /** A whole-word match inside a slice that is cut at non-word characters is a whole-word
      match of the full text. */
  lemma MatchInSlice(t: string, a: nat, b: nat, w: string, j: int)
    requires a <= b <= |t| && !WordAt(t, a - 1) && !WordAt(t, b)
    requires MatchAt(t[a..b], w, j)
    ensures MatchAt(t, w, a + j)
  {
    var u := t[a..b];
    forall m | 0 <= m < |w| ensures Lower(t[a + j + m]) == Lower(w[m]) {
      assert u[j + m] == t[a + j + m];
    }
    assert WordAt(u, j - 1) == WordAt(t, a + j - 1);
    assert WordAt(u, j + |w|) == WordAt(t, a + j + |w|);
  }

  /** Trimming whitespace cannot create a whole-word match. */
  lemma StripKeepsNoMatch(t: string, w: string)
    requires NoMatch(t, w)
    ensures NoMatch(Strip(t), w)
  {
    var a, b := StripIsSlice(t);
    forall j | MatchAt(Strip(t), w, j) ensures false {
      MatchInSlice(t, a, b, w, j);
    }
  }

  /** Conversely, a whole-word match of the full text lying inside a slice cut at non-word
      characters is a whole-word match of the slice. */
  lemma MatchOfSlice(t: string, a: nat, b: nat, w: string, j: int)
    requires a <= b <= |t| && !WordAt(t, a - 1) && !WordAt(t, b)
    requires MatchAt(t, w, j) && a <= j && j + |w| <= b
    ensures MatchAt(t[a..b], w, j - a)
  {
    var u := t[a..b];
    forall m | 0 <= m < |w| ensures Lower(u[j - a + m]) == Lower(w[m]) {
      assert u[j - a + m] == t[j + m];
    }
    assert WordAt(u, j - a - 1) == WordAt(t, j - 1);
    assert WordAt(u, j - a + |w|) == WordAt(t, j + |w|);
  }
}
