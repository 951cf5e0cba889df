/** The words of a text in the sense of the regex \b: its maximal runs of word
    characters. What a whole-word keyword pass and the whitespace clean-up do to a name
    is stated exactly as what they do to this list. */
module WordList {
  import opened Text
  import opened Wrappers
  import opened WholeWord

  /** The maximal runs of word characters of s, left to right. */
  function Words(s: string): (r: seq<string>)
    ensures forall k | 0 <= k < |r| :: |r[k]| > 0 && AllWordChars(r[k])
    decreases |s|
  {
    if |s| == 0 then []
    else if !IsWordChar(s[0]) then Words(s[1..])
    else
      var e := WordEnd(s, 0);
      PrefixIsWord(s, e);
      [s[..e]] + Words(s[e..])
  }

  lemma PrefixIsWord(s: string, e: nat)
    requires e <= |s| && forall k | 0 <= k < e :: WordAt(s, k)
    ensures AllWordChars(s[..e])
  {
    forall m | 0 <= m < e ensures IsWordChar(s[..e][m]) {
      assert WordAt(s, m);
    }
  }

  /** No character of s is a word character. */
  predicate NoWordChars(s: string) {
    forall i | 0 <= i < |s| :: !IsWordChar(s[i])
  }

  lemma SpaceIsNoWord(c: char)
    requires IsSpace(c)
    ensures !IsWordChar(c)
  {
  }

  /** Text without word characters holds no words. */
  lemma {:induction false} NoWords(s: string)
    requires NoWordChars(s)
    ensures Words(s) == []
    decreases |s|
  {
    if |s| > 0 {
      assert NoWordChars(s[1..]) by {
        forall i | 0 <= i < |s| - 1 ensures !IsWordChar(s[1..][i]) {
          assert s[1..][i] == s[i + 1];
        }
      }
      NoWords(s[1..]);
    }
  }

  /** A non-empty text of word characters only is one word. */
  lemma OneWord(s: string)
    requires |s| > 0 && AllWordChars(s)
    ensures Words(s) == [s]
  {
    var e := WordEnd(s, 0);
    if e < |s| {
      assert WordAt(s, e);
    }
    assert s[..e] == s && s[e..] == [];
  }

  /** The run of word characters from i ends where the first non-word character is. */
  lemma {:induction false} WordEndAt(s: string, i: nat, e: nat)
    requires i <= e <= |s| && !WordAt(s, e)
    requires forall k | i <= k < e :: WordAt(s, k)
    ensures WordEnd(s, i) == e
    decreases e - i
  {
    if i < e {
      WordEndAt(s, i + 1, e);
    }
  }

  /** Appending y does not prolong a run of x that ends inside x or before a non-word
      character. */
  lemma {:induction false} WordEndPrefix(x: string, y: string, i: nat)
    requires i <= |x|
    requires |y| == 0 || !IsWordChar(y[0]) || WordEnd(x, i) < |x|
    ensures WordEnd(x + y, i) == WordEnd(x, i)
    decreases |x| - i
  {
    if i < |x| {
      assert (x + y)[i] == x[i];
      if IsWordChar(x[i]) {
        WordEndPrefix(x, y, i + 1);
      }
    } else if |y| > 0 {
      assert (x + y)[i] == y[0];
    }
  }

  /** The words of x + y are those of x followed by those of y, unless the junction
      falls inside a word. */
  lemma {:induction false} WordsAppend(x: string, y: string)
    requires |x| == 0 || |y| == 0 || !IsWordChar(x[|x| - 1]) || !IsWordChar(y[0])
    ensures Words(x + y) == Words(x) + Words(y)
    decreases |x|
  {
    var t := x + y;
    if |x| == 0 {
      assert t == y;
    } else if |y| == 0 {
      assert t == x;
    } else if !IsWordChar(x[0]) {
      assert t[0] == x[0] && t[1..] == x[1..] + y;
      WordsAppend(x[1..], y);
    } else {
      var e := WordEnd(x, 0);
      if IsWordChar(y[0]) {
        assert !WordAt(x, |x| - 1);
      }
      WordEndPrefix(x, y, 0);
      assert t[0] == x[0];
      assert t[..e] == x[..e] && t[e..] == x[e..] + y;
      WordsAppend(x[e..], y);
      Associative([x[..e]], Words(x[e..]), Words(y));
    }
  }

  /** A run of word characters is one block of word characters. */
  lemma RunIsWord(s: string, i: nat, e: nat)
    requires i <= e <= |s| && forall k | i <= k < e :: WordAt(s, k)
    ensures AllWordChars(s[i..e])
  {
    forall m | 0 <= m < e - i ensures IsWordChar(s[i..e][m]) {
      assert WordAt(s, i + m);
    }
  }

  /** Non-word characters in front of a text add no words. */
  lemma NoWordsThen(n: string, y: string)
    requires NoWordChars(n)
    ensures Words(n + y) == Words(y)
  {
    WordsAppend(n, y);
    NoWords(n);
  }

  /** A non-word character in front of a text adds no word. */
  lemma NonWordCons(c: char, y: string)
    requires !IsWordChar(c)
    ensures Words([c] + y) == Words(y)
  {
    assert ([c] + y)[0] == c && ([c] + y)[1..] == y;
  }

  /** A run of word characters ended by a non-word character (or the end) is one word. */
  lemma RunThenWords(run: string, y: string)
    requires |run| > 0 && AllWordChars(run)
    requires |y| == 0 || !IsWordChar(y[0])
    ensures Words(run + y) == [run] + Words(y)
  {
    WordsAppend(run, y);
    OneWord(run);
  }

  /** Squeezing whitespace keeps the words, after any prefix without whitespace. */
  lemma {:induction false} CollapseKeepsWordsAfter(p: string, t: string)
    requires NoSpace(p)
    ensures Words(p + Collapse(t)) == Words(p + t)
    decreases |t|
  {
    if |t| == 0 {
      assert Collapse(t) == t;
    } else if !IsSpace(t[0]) {
      CollapseVisibleStep(p, t);
      CollapseKeepsWordsAfter(p + [t[0]], t[1..]);
    } else {
      var u := StripLeft(t[1..]);
      CollapseKeepsWordsAfter([], u);
      CollapseSpaceStep(p, t, Collapse(u));
    }
  }

  /** Collapse copies a visible first character. */
  lemma CollapseVisibleStep(p: string, t: string)
    requires |t| > 0 && !IsSpace(t[0])
    ensures p + Collapse(t) == (p + [t[0]]) + Collapse(t[1..])
    ensures p + t == (p + [t[0]]) + t[1..]
  {
    CollapseUnfold(t, [t[0]], t[1..]);
    Associative(p, [t[0]], Collapse(t[1..]));
    assert t == [t[0]] + t[1..];
    Associative(p, [t[0]], t[1..]);
  }

  /** Collapse turns a leading run of whitespace into one space, which adds no word. */
  lemma CollapseSpaceStep(p: string, t: string, cu: string)
    requires |t| > 0 && IsSpace(t[0]) && cu == Collapse(StripLeft(t[1..]))
    requires Words([] + cu) == Words([] + StripLeft(t[1..]))
    ensures Words(p + Collapse(t)) == Words(p + t)
  {
    assert Collapse(t) == [' '] + cu;
    assert [] + cu == cu && [] + StripLeft(t[1..]) == StripLeft(t[1..]);
    WordsAfterSpace(p, cu);
    WordsAfterSpaces(p, t);
  }

  /** A space after p ends p's last word. */
  lemma WordsAfterSpace(p: string, c: string)
    ensures Words(p + ([' '] + c)) == Words(p) + Words(c)
  {
    WordsAppend(p, [' '] + c);
    NoWordsThen([' '], c);
  }

  /** A run of whitespace after p ends p's last word and adds none. */
  lemma WordsAfterSpaces(p: string, t: string)
    requires |t| > 0 && IsSpace(t[0])
    ensures Words(p + t) == Words(p) + Words(StripLeft(t[1..]))
  {
    var u := StripLeft(t[1..]);
    StripLeftDrops(t[1..]);
    var n := |t| - |u|;
    assert t == t[..n] + u;
    assert NoWordChars(t[..n]) by {
      forall i | 0 <= i < n ensures !IsWordChar(t[..n][i]) {
        SpaceIsNoWord(t[i]);
      }
    }
    SpaceIsNoWord(t[0]);
    WordsAppend(p, t);
    NoWordsThen(t[..n], u);
  }

  /** re.sub(r'\s+', ' ', s) keeps the words of s. */
  lemma CollapseKeepsWords(s: string)
    ensures Words(Collapse(s)) == Words(s)
  {
    CollapseKeepsWordsAfter([], s);
    assert [] + Collapse(s) == Collapse(s) && [] + s == s;
  }

  /** str.strip() keeps the words of s. */
  lemma StripKeepsWords(s: string)
    ensures Words(Strip(s)) == Words(s)
  {
    var a, b := StripIsSlice(s);
    SliceKeepsWords(s, a, b);
  }

  /** Cutting whitespace off both ends keeps the words. */
  lemma SliceKeepsWords(s: string, a: nat, b: nat)
    requires a <= b <= |s|
    requires forall i | 0 <= i < a :: IsSpace(s[i])
    requires forall i | b <= i < |s| :: IsSpace(s[i])
    ensures Words(s[a..b]) == Words(s)
  {
    SpacesNoWords(s, 0, a);
    SpacesNoWords(s, b, |s|);
    SliceSplit(s, a, b);
    SpacesAround(s[..a], s[a..b], s[b..]);
  }

  lemma SliceSplit(s: string, a: nat, b: nat)
    requires a <= b <= |s|
    ensures s == s[..a] + (s[a..b] + s[b..])
  {
  }

  /** A stretch of whitespace holds no word character. */
  lemma SpacesNoWords(s: string, i: nat, j: nat)
    requires i <= j <= |s| && forall k | i <= k < j :: IsSpace(s[k])
    ensures NoWordChars(s[i..j])
  {
    forall k | 0 <= k < j - i ensures !IsWordChar(s[i..j][k]) {
      SpaceIsNoWord(s[i + k]);
    }
  }

  /** Text without word characters on either side adds no words. */
  lemma SpacesAround(x: string, m: string, z: string)
    requires NoWordChars(x) && NoWordChars(z)
    ensures Words(x + (m + z)) == Words(m)
  {
    NoWordsThen(x, m + z);
    WordsAppend(m, z);
    NoWords(z);
    assert Words(m) + [] == Words(m);
  }

  /** Normalising whitespace keeps the words. */
  lemma NormalizeKeepsWords(s: string)
    ensures Words(Normalize(s)) == Words(s)
  {
    CollapseKeepsWords(s);
    StripKeepsWords(Collapse(s));
  }

  /** w is, ignoring case, one of the alternatives. */
  predicate IsAlt(w: string, alts: seq<string>) {
    exists q | 0 <= q < |alts| :: |w| == |alts[q]| && OccursAt(w, alts[q], 0)
  }

  /** The words that are none of the alternatives, in their order. */
  function Untagged(ws: seq<string>, alts: seq<string>): (r: seq<string>)
    ensures forall w | w in r :: w in ws && !IsAlt(w, alts)
    ensures forall w | w in ws && !IsAlt(w, alts) :: w in r
    decreases |ws|
  {
    if |ws| == 0 then []
    else
      assert forall w | w in ws :: w == ws[0] || w in ws[1..];
      (if IsAlt(ws[0], alts) then [] else [ws[0]]) + Untagged(ws[1..], alts)
  }

  lemma UntaggedCons(w: string, ws: seq<string>, alts: seq<string>)
    ensures Untagged([w] + ws, alts) == (if IsAlt(w, alts) then [] else [w]) + Untagged(ws, alts)
  {
    assert ([w] + ws)[0] == w && ([w] + ws)[1..] == ws;
  }

  /** Every alternative that matches s somewhere is made of word characters only. */
  ghost predicate WordAlts(s: string, alts: seq<string>) {
    forall q, j | 0 <= q < |alts| && MatchAt(s, alts[q], j) :: AllWordChars(alts[q])
  }

  /** Under WordAlts, no alternative starts at a non-word character. */
  lemma NoAltAtNonWord(s: string, alts: seq<string>, i: nat)
    requires i < |s| && !IsWordChar(s[i]) && WordAlts(s, alts)
    ensures SubFrom(s, alts, i) == [s[i]] + SubFrom(s, alts, i + 1)
  {
    forall q | 0 <= q < |alts| ensures !MatchAt(s, alts[q], i) {
      if MatchAt(s, alts[q], i) {
        MatchedCharIsWord(s, alts[q], i, 0);
      }
    }
    SubStepKeep(s, alts, i);
  }

  /** A whole-word match of an all-word alternative covers exactly one word, and that
      word is an alternative. */
  lemma MatchIsRun(s: string, alts: seq<string>, q: nat, i: nat)
    requires q < |alts| && MatchAt(s, alts[q], i) && WordAlts(s, alts)
    ensures WordEnd(s, i) == i + |alts[q]|
    ensures IsAlt(s[i..i + |alts[q]|], alts)
  {
    var a := alts[q];
    var e := i + |a|;
    forall k | i <= k < e ensures WordAt(s, k) {
      MatchedCharIsWord(s, a, i, k - i);
    }
    WordEndAt(s, i, e);
    var run := s[i..e];
    forall m | 0 <= m < |a| ensures Lower(run[m]) == Lower(a[m]) {
      assert run[m] == s[i + m];
    }
    assert |run| == |a| && OccursAt(run, a, 0);
  }

  /** A run of word characters at which no alternative matches is copied whole, and is
      itself no alternative. */
  lemma KeepRun(s: string, alts: seq<string>, i: nat)
    requires i < |s| && WordAt(s, i) && AtWordEdge(s, i) && FirstAlt(s, alts, i).None?
    ensures WordEnd(s, i) <= |s|
    ensures SubFrom(s, alts, i) == s[i..WordEnd(s, i)] + SubFrom(s, alts, WordEnd(s, i))
    ensures !IsAlt(s[i..WordEnd(s, i)], alts)
  {
    var e := WordEnd(s, i);
    forall j, q | i <= j < e && 0 <= q < |alts| ensures !MatchAt(s, alts[q], j) {
      if j > i {
        assert WordAt(s, j - 1) && WordAt(s, j);
      }
    }
    SubKeepsPrefix(s, alts, i, e);
    var run := s[i..e];
    if IsAlt(run, alts) {
      var q :| 0 <= q < |alts| && |run| == |alts[q]| && OccursAt(run, alts[q], 0);
      AltRunMatches(s, alts[q], i);
    }
  }

  /** A whole run of word characters that equals w, ignoring case, is a whole-word match
      of w when it starts at a word edge. */
  lemma AltRunMatches(s: string, w: string, i: nat)
    requires i < |s| && WordAt(s, i) && AtWordEdge(s, i)
    requires |s[i..WordEnd(s, i)]| == |w| && OccursAt(s[i..WordEnd(s, i)], w, 0)
    ensures MatchAt(s, w, i)
  {
    var e := WordEnd(s, i);
    var run := s[i..e];
    forall m | 0 <= m < |w| ensures Lower(s[i + m]) == Lower(w[m]) {
      assert run[m] == s[i + m];
    }
    assert WordAt(s, e - 1);
  }

  /** The words of s[i..], for i at a word edge, are its first run (if it starts with
      one) and the words after it. */
  lemma WordsAtRun(s: string, i: nat)
    requires i < |s| && WordAt(s, i)
    ensures Words(s[i..]) == [s[i..WordEnd(s, i)]] + Words(s[WordEnd(s, i)..])
  {
    var e := WordEnd(s, i);
    var run := s[i..e];
    assert s[i..] == run + s[e..];
    RunIsWord(s, i, e);
    if e < |s| {
      assert s[e..][0] == s[e];
    }
    RunThenWords(run, s[e..]);
  }

  /** One re.sub pass of an alternation of all-word alternatives deletes exactly the
      words that equal an alternative (ignoring case) and keeps every other word, in
      order. */
  lemma {:induction false} SubFromWords(s: string, alts: seq<string>, i: nat)
    requires i <= |s| && AtWordEdge(s, i) && WordAlts(s, alts)
    ensures Words(SubFrom(s, alts, i)) == Untagged(Words(s[i..]), alts)
    decreases |s| - i
  {
    if i == |s| {
      assert s[i..] == [];
    } else if !IsWordChar(s[i]) {
      SubFromWords(s, alts, i + 1);
      SubWordsNonWord(s, alts, i);
    } else {
      SubFromWords(s, alts, WordEnd(s, i));
      SubWordsRun(s, alts, i);
    }
  }

  /** The step of SubFromWords at a non-word character, which is kept. */
  lemma SubWordsNonWord(s: string, alts: seq<string>, i: nat)
    requires i < |s| && !IsWordChar(s[i]) && WordAlts(s, alts)
    requires Words(SubFrom(s, alts, i + 1)) == Untagged(Words(s[i + 1..]), alts)
    ensures Words(SubFrom(s, alts, i)) == Untagged(Words(s[i..]), alts)
  {
    NoAltAtNonWord(s, alts, i);
    NonWordStep(s, i, SubFrom(s, alts, i + 1), alts);
  }

  /** A non-word character in front of both sides changes neither side's words. */
  lemma NonWordStep(s: string, i: nat, a: string, alts: seq<string>)
    requires i < |s| && !IsWordChar(s[i])
    requires Words(a) == Untagged(Words(s[i + 1..]), alts)
    ensures Words([s[i]] + a) == Untagged(Words(s[i..]), alts)
  {
    assert s[i..] == [s[i]] + s[i + 1..];
    NonWordCons(s[i], a);
    NonWordCons(s[i], s[i + 1..]);
  }

  /** The step of SubFromWords at a run of word characters: gone when it is an
      alternative, copied otherwise. */
  lemma SubWordsRun(s: string, alts: seq<string>, i: nat)
    requires i < |s| && WordAt(s, i) && AtWordEdge(s, i) && WordAlts(s, alts)
    requires Words(SubFrom(s, alts, WordEnd(s, i))) == Untagged(Words(s[WordEnd(s, i)..]), alts)
    ensures Words(SubFrom(s, alts, i)) == Untagged(Words(s[i..]), alts)
  {
    WordsAtRun(s, i);
    UntaggedCons(s[i..WordEnd(s, i)], Words(s[WordEnd(s, i)..]), alts);
    match FirstAlt(s, alts, i)
    case Some(q) =>
      SubWordsDrop(s, alts, i, q);
    case None =>
      SubWordsKeep(s, alts, i);
  }

  /** A run that is an alternative is deleted, and so is its word. */
  lemma SubWordsDrop(s: string, alts: seq<string>, i: nat, q: nat)
    requires i < |s| && FirstAlt(s, alts, i) == Some(q) && WordAlts(s, alts)
    ensures WordEnd(s, i) <= |s| && IsAlt(s[i..WordEnd(s, i)], alts)
    ensures SubFrom(s, alts, i) == SubFrom(s, alts, WordEnd(s, i))
  {
    MatchIsRun(s, alts, q, i);
    DropAt(s, alts, i, q, WordEnd(s, i));
  }

  /** The substitution resumes at e, just past the alternative it removed at i. */
  lemma DropAt(s: string, alts: seq<string>, i: nat, q: nat, e: nat)
    requires i < |s| && FirstAlt(s, alts, i) == Some(q) && e == i + |alts[q]|
    ensures e <= |s| && SubFrom(s, alts, i) == SubFrom(s, alts, e)
  {
    MatchFits(s, alts[q], i);
    SubFromMatch(s, alts, i, q, SubFrom(s, alts, e));
  }

  /** A run no alternative matches is copied, and stays one word in the output. */
  lemma SubWordsKeep(s: string, alts: seq<string>, i: nat)
    requires i < |s| && WordAt(s, i) && AtWordEdge(s, i) && WordAlts(s, alts)
    requires FirstAlt(s, alts, i).None?
    ensures WordEnd(s, i) <= |s| && !IsAlt(s[i..WordEnd(s, i)], alts)
    ensures Words(SubFrom(s, alts, i)) == [s[i..WordEnd(s, i)]] + Words(SubFrom(s, alts, WordEnd(s, i)))
  {
    var e := WordEnd(s, i);
    KeepRun(s, alts, i);
    RunIsWord(s, i, e);
    if e < |s| {
      NoAltAtNonWord(s, alts, e);
    }
    RunThenWords(s[i..e], SubFrom(s, alts, e));
  }

  /** re.sub of the alternation, on the whole text. */
  lemma SubWords(s: string, alts: seq<string>)
    requires WordAlts(s, alts)
    ensures Words(Sub(s, alts)) == Untagged(Words(s), alts)
  {
    SubFromWords(s, alts, 0);
    assert s[0..] == s;
  }

  /** A whole-word match of an all-word keyword is one of the words of the text. */
  lemma MatchIsWord(t: string, w: string, j: int)
    requires MatchAt(t, w, j) && AllWordChars(w)
    ensures t[j..j + |w|] in Words(t)
  {
    var e := j + |w|;
    forall k | j <= k < e ensures IsWordChar(t[k]) {
      MatchedCharIsWord(t, w, j, k - j);
    }
    MatchedCharIsWord(t, w, j, 0);
    MatchedCharIsWord(t, w, j, |w| - 1);
    EdgedRunIsWord(t, j, e);
  }

  /** A non-empty run of word characters with no word character on either side is
      one of the words. */
  lemma EdgedRunIsWord(t: string, j: nat, e: nat)
    requires j < e <= |t|
    requires forall k | j <= k < e :: IsWordChar(t[k])
    requires !WordAt(t, j - 1) && !WordAt(t, e)
    ensures t[j..e] in Words(t)
  {
    RunIsWord(t, j, e);
    SliceSplit(t, j, e);
    if e < |t| {
      assert t[e..][0] == t[e];
    }
    RunBetween(t[..j], t[j..e], t[e..]);
  }

  /** A run of word characters between two non-word characters is a word. */
  lemma RunBetween(x: string, run: string, z: string)
    requires |run| > 0 && AllWordChars(run)
    requires |x| == 0 || !IsWordChar(x[|x| - 1])
    requires |z| == 0 || !IsWordChar(z[0])
    ensures run in Words(x + (run + z))
  {
    WordsAppend(x, run + z);
    RunThenWords(run, z);
  }

  /** A whole-word match of an all-word alternative is a word of the text that is an
      alternative. */
  lemma MatchIsAltWord(t: string, alts: seq<string>, q: nat, j: int)
    requires q < |alts| && AllWordChars(alts[q]) && MatchAt(t, alts[q], j)
    ensures t[j..j + |alts[q]|] in Words(t) && IsAlt(t[j..j + |alts[q]|], alts)
  {
    MatchIsWord(t, alts[q], j);
    var run := t[j..j + |alts[q]|];
    forall m | 0 <= m < |alts[q]| ensures Lower(run[m]) == Lower(alts[q][m]) {
      assert run[m] == t[j + m];
    }
    assert |run| == |alts[q]| && OccursAt(run, alts[q], 0);
  }

  /** A text none of whose words is an alternative holds no whole-word match of an
      all-word alternative. */
  lemma NoAltMatch(t: string, alts: seq<string>, q: nat, j: int)
    requires q < |alts| && AllWordChars(alts[q])
    requires forall w | w in Words(t) :: !IsAlt(w, alts)
    ensures !MatchAt(t, alts[q], j)
  {
    if MatchAt(t, alts[q], j) {
      MatchIsAltWord(t, alts, q, j);
    }
  }
}
