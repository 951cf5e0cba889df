/** The cleaner of rename_movies_subtitles_advanced.py: the last whole-word year is found
    before the tags go, every whole-word copy of it is then deleted, and it is appended
    as " (yyyy)". */
module SubtitlesAdvanced {
  import opened Wrappers
  import opened Text
  import opened WholeWord
  import opened Years
  import opened Keywords
  import opened Canonical
  import opened Paths
  import opened Listing

  /** The name after separator replacement, tag removal, collapsing and trimming, before
      the year is handled. */
  function Kept(filename: string): (r: string)
    ensures Trimmed(r) && SingleSpaced(r)
    ensures '.' !in r && '_' !in r
    ensures forall c | c in r :: c == ' ' || !IsSpace(c)
  {
    var name := ReplaceSeparators(filename);
    RemoveEachChars(name, SubtitlesAdvanced);
    CollapseKeepsVisible(RemoveEach(name, SubtitlesAdvanced));
    Strip(Collapse(RemoveEach(name, SubtitlesAdvanced)))
  }

  /** clean_movie_name(name). */
  function CleanMovieName(filename: string): (r: string)
    ensures Trimmed(r)
    ensures '.' !in r && '_' !in r
    ensures LastYearText(ReplaceSeparators(filename)).Some? ==>
      EndsWithWord(r, "(" + LastYearText(ReplaceSeparators(filename)).value + ")")
  {
    var kept := Kept(filename);
    match LastYearText(ReplaceSeparators(filename))
    case None => Strip(kept)
    case Some(y) =>
      var body := Strip(Sub(kept, [y]));
      SubChars(kept, [y]);
      AppendYearTag(body, y);
      Strip(body + " (" + y + ")")
  }

  /** Appending " (yyyy)" to a trimmed body and trimming again gives a name that ends in
      the word "(yyyy)" and has no '.' or '_' the body did not have. */
  lemma AppendYearTag(body: string, y: string)
    requires Trimmed(body) && AllDigits(y)
    ensures EndsWithWord(Strip(body + " (" + y + ")"), "(" + y + ")")
    ensures '.' !in body && '_' !in body ==>
      '.' !in Strip(body + " (" + y + ")") && '_' !in Strip(body + " (" + y + ")")
  {
    var t := "(" + y + ")";
    var s := body + " (" + y + ")";
    TagAfterBody(body, y);
    NoSpaceYearTag(y);
    if |body| == 0 {
      assert s == " " + t;
    }
    StripKeepsWord(s, t);
    YearTagChars(body, y);
  }

  lemma TagAfterBody(body: string, y: string)
    ensures body + " (" + y + ")" == body + (" " + ("(" + y + ")"))
    ensures EndsWith(body + " (" + y + ")", " " + ("(" + y + ")"))
  {
  }

  /** Deleting the whole-word year from a name that ends in "(yyyy)" leaves the
      parentheses behind: the year is a word of its own between them. */
  lemma SubOpensYearTag(s: string, y: string)
    requires |y| == 4 && AllDigits(y) && EndsWith(s, "(" + y + ")")
    ensures EndsWith(Sub(s, [y]), "()")
  {
    var k := |s| - 6;
    var t := "(" + y + ")";
    assert s[k..] == t;
    assert s[k] == '(' && s[k + 5] == ')';
    assert forall m | 0 <= m < 4 :: s[k + 1 + m] == y[m];
    YearTagContained(s, y, k);
    SubKeepsSuffix(s, [y], 0, k);
    YearTagScan(s, y, k);
  }

  /** No match of the year before the "(" of the tag reaches into it. */
  lemma YearTagContained(s: string, y: string, k: nat)
    requires |y| == 4 && AllDigits(y) && k < |s| && s[k] == '('
    ensures Contained(s, [y], 0, k)
  {
    forall j, q | 0 <= j < k && 0 <= q < |[y]| && MatchAt(s, [y][q], j)
      ensures j + |[y][q]| <= k
    {
      if j + 4 > k {
        ParenInKeyword(s, y, j, k);
      }
    }
  }

  /** The scan from the "(" of a closing "(yyyy)" deletes the year and keeps both
      parentheses. */
  lemma YearTagScan(s: string, y: string, k: nat)
    requires |y| == 4 && AllDigits(y) && k + 6 == |s|
    requires s[k] == '(' && s[k + 5] == ')'
    requires forall m | 0 <= m < 4 :: s[k + 1 + m] == y[m]
    ensures SubFrom(s, [y], k) == "()"
  {
    assert Lower(s[k]) != Lower(y[0]);
    assert FirstAlt(s, [y], k).None?;
    assert OccursAt(s, y, k + 1);
    assert s[k + 1] == y[0] && s[k + 4] == y[3];
    assert WordAt(s, k + 1) && WordAt(s, k + 4);
    assert FirstAlt(s, [y], k + 1) == Some(0);
    assert SubFrom(s, [y], k + 5) == ")";
  }

  /** Cleaning an already canonical "Title (yyyy)" again does not give it back: the year
      is deleted from inside its own parentheses and appended once more, so the result
      ends in "() (yyyy)". */
  lemma CleanTwiceOpensTag(t: string, y: string)
    requires |y| == 4 && YearAt(y, 0)
    ensures EndsWith(CleanMovieName(t + " (" + y + ")"), "() (" + y + ")")
  {
    var f := t + " (" + y + ")";
    CanonicalFileName(t + " (" + y + ")", t, y);
    CleanOpensTag(f, y);
  }

  /** The same, for any file name whose separator-replaced form ends in " (yyyy)". */
  lemma CleanOpensTag(filename: string, y: string)
    requires |y| == 4 && AllDigits(y)
    requires LastYearText(ReplaceSeparators(filename)) == Some(y)
    requires EndsWith(ReplaceSeparators(filename), " (" + y + ")")
    ensures EndsWith(CleanMovieName(filename), "() (" + y + ")")
  {
    KeptEndsWithTag(filename, y);
    CleanWithYear(filename, y);
    KeptOpensTag(Kept(filename), y);
  }

  /** The year steps on a kept text that ends in "(yyyy)". */
  lemma KeptOpensTag(kept: string, y: string)
    requires |y| == 4 && AllDigits(y) && EndsWith(kept, "(" + y + ")")
    ensures EndsWith(Strip(Strip(Sub(kept, [y])) + " (" + y + ")"), "() (" + y + ")")
  {
    SubOpensYearTag(kept, y);
    var body := Strip(Sub(kept, [y]));
    StripKeepsSuffix(Sub(kept, [y]), "()");
    OpenTagThenYear(body, y);
    StripKeepsSuffix(body + " (" + y + ")", "() (" + y + ")");
  }

  /** The tag passes and the spacing steps leave a trailing "(yyyy)" in place. */
  lemma KeptEndsWithTag(filename: string, y: string)
    requires |y| == 4 && AllDigits(y)
    requires EndsWith(ReplaceSeparators(filename), " (" + y + ")")
    ensures EndsWith(Kept(filename), "(" + y + ")")
  {
    var tag := "(" + y + ")";
    var name := ReplaceSeparators(filename);
    SubtitlesAdvancedSparesYear();
    RemoveEachKeepsYearSuffix(name, y, SubtitlesAdvanced);
    SpacedYearTag(y);
    NoSpaceYearTag(y);
    NormalizeKeepsWord(RemoveEach(name, SubtitlesAdvanced), tag);
    WordEndsWith(Kept(filename), tag);
  }

  lemma OpenTagThenYear(body: string, y: string)
    requires EndsWith(body, "()")
    ensures EndsWith(body + " (" + y + ")", "() (" + y + ")")
  {
    var s := body + " (" + y + ")";
    var t := "() (" + y + ")";
    assert s[|s| - |t|..] == body[|body| - 2..] + " (" + y + ")";
  }

  /** Appending the tag to a trimmed body: the tag alone when the body is empty, the two
      joined by a space otherwise. */
  lemma TagJoin(body: string, y: string)
    requires Trimmed(body) && |y| == 4 && AllDigits(y)
    ensures Strip(body + " (" + y + ")") == if |body| == 0 then "(" + y + ")" else body + " (" + y + ")"
  {
    var s := body + " (" + y + ")";
    var tag := "(" + y + ")";
    if |body| == 0 {
      assert s == " " + tag;
      StripKeepsSuffix(s, tag);
      assert s[..|s| - |tag|] == " ";
    } else {
      assert Trimmed(s);
    }
  }

  /** With a year, the cleaned name passes the renamed-folder test exactly when something
      besides the "(yyyy)" tag is left of it. */
  lemma CleanIsRenamedUnlessBare(filename: string)
    requires LastYearText(ReplaceSeparators(filename)).Some?
    ensures var y := LastYearText(ReplaceSeparators(filename)).value;
      IsRenamed(CleanMovieName(filename)) <==> CleanMovieName(filename) != "(" + y + ")"
  {
    var y := LastYearText(ReplaceSeparators(filename)).value;
    CleanWithYear(filename, y);
    OneLineBody(Kept(filename), y);
    TaggedIsRenamed(Strip(Sub(Kept(filename), [y])), y);
  }

  lemma OneLineBody(kept: string, y: string)
    requires forall c | c in kept :: c == ' ' || !IsSpace(c)
    ensures '\n' !in Strip(Sub(kept, [y]))
  {
    SubChars(kept, [y]);
  }

  lemma CleanWithYear(filename: string, y: string)
    requires LastYearText(ReplaceSeparators(filename)) == Some(y)
    ensures CleanMovieName(filename) == Strip(Strip(Sub(Kept(filename), [y])) + " (" + y + ")")
  {
  }

  /** A trimmed one-line body with the tag appended is canonical unless it is empty. */
  lemma TaggedIsRenamed(body: string, y: string)
    requires Trimmed(body) && '\n' !in body && |y| == 4 && AllDigits(y)
    ensures IsRenamed(Strip(body + " (" + y + ")")) <==> Strip(body + " (" + y + ")") != "(" + y + ")"
  {
    TagJoin(body, y);
    if |body| > 0 {
      CanonicalIsRenamed(body, y);
    }
  }

  /** One folder of rename_folders_and_files. */
  function FolderPlanFor(e: Entry): (r: Option<FolderPlan>)
    ensures r.Some? ==> r.value.cleaned == CleanMovieName(r.value.movie)
    ensures r.Some? ==> e.kind.Folder? && !IsRenamed(e.name)
  {
    GuardedPlan(e, CleanMovieName)
  }

  /** rename_folders_and_files: the folder pass, then the loose-file pass over the same
      base listing (the folder pass renames folders only, so the regular files are
      unchanged). */
  function Run(entries: seq<Entry>): (r: seq<Rename>)
    ensures forall q | q in r && q.dir == [] :: exists e | e in entries :: q.from == e.name
    ensures forall q | q in r && q.dir == [] :: !IsRenamed(q.from)
    ensures forall e | e in entries && FolderPlanFor(e).Some? :: Rename([], e.name, FolderPlanFor(e).value.cleaned) in r
    ensures forall e | e in entries && e.kind.RegularFile? && IsVideoName(e.name) :: Rename([], e.name, CleanMovieName(e.name) + Suffix(e.name)) in r
  {
    forall q | q in LoosePass(entries, CleanMovieName) ensures !IsRenamed(q.from) {
      var e :| e in entries && e.kind.RegularFile? && IsVideoName(e.name) && q.from == e.name && q.to == CleanMovieName(e.name) + Suffix(e.name);
      VideoNameNotRenamed(e.name);
    }
    FolderPass(entries, FolderPlanFor) + LoosePass(entries, CleanMovieName)
  }

  /** A folder this pass renames, after a movie name with a year, is skipped by the next
      run, unless the new name is the bare tag "(yyyy)". */
  lemma RenamedFolderIsSkipped(e: Entry, later: seq<string>)
    requires FolderPlanFor(e).Some?
    requires var p := FolderPlanFor(e).value;
      LastYearText(ReplaceSeparators(p.movie)).Some?
      && p.cleaned != "(" + LastYearText(ReplaceSeparators(p.movie)).value + ")"
    ensures FolderPlanFor(Entry(FolderPlanFor(e).value.cleaned, Folder(later))).None?
  {
    CleanIsRenamedUnlessBare(FolderPlanFor(e).value.movie);
  }

  /** After cleaning, the year found in the file name occurs as a whole word only inside
      the trailing "(yyyy)" tag: every other copy was deleted, and the deletions never
      glue two pieces of the name into a new one. */
  lemma CleanLeavesYearOnlyInTag(filename: string)
    requires LastYearText(ReplaceSeparators(filename)).Some?
    ensures var y := LastYearText(ReplaceSeparators(filename)).value;
      var r := CleanMovieName(filename);
      forall j | MatchAt(r, y, j) :: j == |r| - 5
  {
    var y := LastYearText(ReplaceSeparators(filename)).value;
    CleanWithYear(filename, y);
    YearBodyHasNoYear(Kept(filename), y);
  }

  /** The body that precedes the tag holds no whole-word copy of the year, so in the
      joined name the year matches only inside the tag. */
  lemma YearBodyHasNoYear(kept: string, y: string)
    requires |y| == 4 && AllDigits(y)
    ensures var body := Strip(Sub(kept, [y]));
      forall j | MatchAt(Strip(body + " (" + y + ")"), y, j) :: j == |Strip(body + " (" + y + ")")| - 5
  {
    var body := Strip(Sub(kept, [y]));
    DigitsAreWordChars(y);
    SubRemovesWord(kept, y);
    StripKeepsNoMatch(Sub(kept, [y]), y);
    TagJoin(body, y);
    if |body| == 0 {
      BareTagOnlyMatch(y);
    } else {
      TagOnlyMatch(body, y);
    }
  }

  lemma DigitsAreWordChars(y: string)
    requires AllDigits(y)
    ensures AllWordChars(y)
  {
  }

  /** In "(yyyy)" the year matches only between the parentheses. */
  lemma BareTagOnlyMatch(y: string)
    requires |y| == 4 && AllDigits(y)
    ensures forall j | MatchAt("(" + y + ")", y, j) :: j == 1
  {
    var t := "(" + y + ")";
    DigitsAreWordChars(y);
    forall j | MatchAt(t, y, j) ensures j == 1 {
      MatchedCharIsWord(t, y, j, 0);
    }
  }

  /** In body + " (yyyy)", with no whole-word year in the body, the year matches only
      inside the tag. */
  lemma TagOnlyMatch(body: string, y: string)
    requires |y| == 4 && AllDigits(y) && NoMatch(body, y)
    ensures forall j | MatchAt(body + " (" + y + ")", y, j) :: j == |body| + 2
  {
    var t := body + " (" + y + ")";
    var n := |body|;
    DigitsAreWordChars(y);
    assert t[..n] == body;
    assert t[n] == ' ' && t[n + 1] == '(' && t[n + 6] == ')';
    assert t[n + 2] == y[0];
    forall j | MatchAt(t, y, j) ensures j == n + 2 {
      MatchedCharIsWord(t, y, j, 0);
      if j < n {
        if j + 4 <= n {
          MatchOfSlice(t, 0, n, y, j);
        } else {
          MatchedCharIsWord(t, y, j, n - j);
        }
      } else if j == n + 3 {
        assert WordAt(t, n + 2);
      }
    }
  }
  /** The year is cut out after the spacing was normalised, and nothing collapses again:
      a year in the middle of the name leaves its two neighbouring spaces behind. */
  lemma MidYearLeavesDoubleSpace()
    ensures CleanMovieName("Up.2020.Top.mkv") == "Up  Top (2020)"
  {
    UpTopSeparated();
    UpTopKept();
    UpTopYear();
    UpTopBody();
    UpTopTagged();
  }

  // The steps of MidYearLeavesDoubleSpace follow, one literal fact per lemma.

  lemma UpTopTagged()
    ensures Strip("Up  Top" + " (" + "2020" + ")") == "Up  Top (2020)"
  {
    assert "Up  Top" + " (" + "2020" + ")" == "Up  Top (2020)";
    assert Trimmed("Up  Top (2020)");
  }

  lemma UpTopSeparated()
    ensures ReplaceSeparators("Up.2020.Top.mkv") == "Up 2020 Top mkv"
  {
    var r := ReplaceSeparators("Up.2020.Top.mkv");
    assert forall i | 0 <= i < |r| :: r[i] == "Up 2020 Top mkv"[i];
  }

  /** Only "mkv" matches among the keywords. */
  lemma UpTopKept()
    ensures Kept("Up.2020.Top.mkv") == "Up 2020 Top"
  {
    UpTopSeparated();
    UpTopFold();
    UpTopStrip();
    KeptIs("Up.2020.Top.mkv", "Up 2020 Top mkv", "Up 2020 Top ");
  }

  /** Kept, one step at a time. */
  lemma KeptIs(filename: string, name: string, removed: string)
    requires ReplaceSeparators(filename) == name && RemoveEach(name, SubtitlesAdvanced) == removed
    ensures Kept(filename) == Strip(Collapse(removed))
  {
  }

  lemma UpTopFold()
    ensures RemoveEach("Up 2020 Top mkv", SubtitlesAdvanced) == "Up 2020 Top "
  {
    UpTopMkv();
    UpTopInert();
    RemoveEachOnly("Up 2020 Top mkv", SubtitlesAdvanced, 27, UpTopMkvChars, UpTopChars);
  }

  lemma UpTopStrip()
    ensures Strip(Collapse("Up 2020 Top ")) == "Up 2020 Top"
  {
    UpTopCollapse();
    UpTopTrim();
  }

  lemma UpTopCollapse()
    ensures Collapse("Up 2020 Top ") == "Up 2020 Top "
  {
    assert SingleSpaced("Up 2020 Top ");
    CollapseFixesSingleSpaced("Up 2020 Top ");
  }

  lemma UpTopTrim()
    ensures Strip("Up 2020 Top ") == "Up 2020 Top"
  {
    var a, b := StripIsSlice("Up 2020 Top ");
    assert a == 0 && b == 11;
  }

  const UpTopMkvChars: set<char> := {'u', 'p', ' ', '2', '0', 't', 'o', 'm', 'k', 'v'}
  const UpTopChars: set<char> := {'u', 'p', ' ', '2', '0', 't', 'o'}

  lemma UpTopInert()
    ensures SubtitlesAdvanced[27] == "mkv"
    ensures Within("Up 2020 Top mkv", UpTopMkvChars) && Within("Up 2020 Top ", UpTopChars)
    ensures forall k | 0 <= k < 27 :: Outside(SubtitlesAdvanced[k], UpTopMkvChars)
    ensures forall k | 27 < k < |SubtitlesAdvanced| :: Outside(SubtitlesAdvanced[k], UpTopChars)
  {
    UpTopHead();
    UpTopMiddle();
    UpTopTail();
  }

  /** The keyword checks, in three parts to keep each small. */
  lemma UpTopHead()
    ensures forall k | 0 <= k < 14 :: Outside(SubtitlesAdvanced[k], UpTopMkvChars)
  {
  }

  lemma UpTopMiddle()
    ensures forall k | 14 <= k < 27 :: Outside(SubtitlesAdvanced[k], UpTopMkvChars)
  {
  }

  lemma UpTopTail()
    ensures forall k | 27 < k < |SubtitlesAdvanced| :: Outside(SubtitlesAdvanced[k], UpTopChars)
  {
  }

  lemma UpTopMkv()
    ensures Sub("Up 2020 Top mkv", ["mkv"]) == "Up 2020 Top "
  {
    var s, alts := "Up 2020 Top mkv", ["mkv"];
    forall j, q | 0 <= j < 12 && 0 <= q < 1 ensures !MatchAt(s, alts[q], j) {
      assert alts[q] == "mkv";
      assert Lower(s[j]) != Lower("mkv"[0]);
    }
    forall m | 0 <= m < 3 ensures Lower(s[12 + m]) == Lower("mkv"[m]) {
    }
    assert FirstAlt(s, alts, 12) == Some(0);
    SubKeepsPrefix(s, alts, 0, 12);
    assert SubFrom(s, alts, 15) == [];
    assert s[0..12] == "Up 2020 Top ";
  }

  /** The only whole-word year is the one at 3. */
  lemma UpTopYear()
    ensures LastYearText("Up 2020 Top mkv") == Some("2020")
  {
    var s := "Up 2020 Top mkv";
    assert WholeYearAt(s, 3);
    forall j | 3 < j ensures !WholeYearAt(s, j) {
      if j < 7 {
        assert WordAt(s, j - 1) && WordAt(s, j);
      } else if j + 4 <= |s| {
        assert !IsDigit(s[j]);
      }
    }
    assert s[3..7] == "2020";
  }

  /** Cutting the year leaves "Up", two spaces and "Top". */
  lemma UpTopBody()
    ensures Sub("Up 2020 Top", ["2020"]) == "Up  Top"
    ensures Strip(Sub("Up 2020 Top", ["2020"])) == "Up  Top"
  {
    var s, alts := "Up 2020 Top", ["2020"];
    forall j, q | (0 <= j < 3 || 7 <= j < |s|) && 0 <= q < 1 ensures !MatchAt(s, alts[q], j) {
      assert alts[q] == "2020";
      assert Lower(s[j]) != Lower("2020"[0]);
    }
    forall m | 0 <= m < 4 ensures Lower(s[3 + m]) == Lower("2020"[m]) {
    }
    assert FirstAlt(s, alts, 3) == Some(0);
    SubKeepsPrefix(s, alts, 7, |s|);
    SubKeepsPrefix(s, alts, 0, 3);
    assert SubFrom(s, alts, |s|) == [];
    assert s[7..11] + [] == s[7..11];
    UpTopJoin();
  }

  lemma UpTopJoin()
    ensures "Up 2020 Top"[0..3] + "Up 2020 Top"[7..11] == "Up  Top"
    ensures Strip("Up  Top") == "Up  Top"
  {
    assert Trimmed("Up  Top");
  }

  /** The extension is a word of its own after the separators are replaced, so a name
      that ends in "(yyyy)" before its extension is treated like one that ends in it:
      "mkv" is deleted, the year is cut out of its parentheses and appended again. */
  lemma ExtensionOpensTag()
    ensures CleanMovieName("Movie (2020).mkv") == "Movie () (2020)"
  {
    MovieTagSeparated();
    MovieTagKept();
    MovieTagYear();
    MovieTagBody();
    MovieTagTagged();
  }

  // The steps of ExtensionOpensTag follow, one literal fact per lemma.

  lemma MovieTagSeparated()
    ensures ReplaceSeparators("Movie (2020).mkv") == "Movie (2020) mkv"
  {
    var r := ReplaceSeparators("Movie (2020).mkv");
    assert forall i | 0 <= i < |r| :: r[i] == "Movie (2020) mkv"[i];
  }

  lemma MovieTagKept()
    ensures Kept("Movie (2020).mkv") == "Movie (2020)"
  {
    MovieTagSeparated();
    MovieTagFold();
    MovieTagStrip();
    KeptIs("Movie (2020).mkv", "Movie (2020) mkv", "Movie (2020) ");
  }

  lemma MovieTagFold()
    ensures RemoveEach("Movie (2020) mkv", SubtitlesAdvanced) == "Movie (2020) "
  {
    MovieTagMkv();
    MovieTagInert();
    RemoveEachOnly("Movie (2020) mkv", SubtitlesAdvanced, 27, MovieTagMkvChars, MovieTagChars);
  }

  lemma MovieTagStrip()
    ensures Strip(Collapse("Movie (2020) ")) == "Movie (2020)"
  {
    MovieTagCollapse();
    MovieTagTrim();
  }

  lemma MovieTagCollapse()
    ensures Collapse("Movie (2020) ") == "Movie (2020) "
  {
    assert SingleSpaced("Movie (2020) ");
    CollapseFixesSingleSpaced("Movie (2020) ");
  }

  lemma MovieTagTrim()
    ensures Strip("Movie (2020) ") == "Movie (2020)"
  {
    var a, b := StripIsSlice("Movie (2020) ");
    assert a == 0 && b == 12;
  }

  const MovieTagMkvChars: set<char> := {'m', 'o', 'v', 'i', 'e', ' ', '(', '2', '0', ')', 'k'}
  const MovieTagChars: set<char> := {'m', 'o', 'v', 'i', 'e', ' ', '(', '2', '0', ')'}

  lemma MovieTagInert()
    ensures SubtitlesAdvanced[27] == "mkv"
    ensures Within("Movie (2020) mkv", MovieTagMkvChars) && Within("Movie (2020) ", MovieTagChars)
    ensures forall k | 0 <= k < 27 :: Outside(SubtitlesAdvanced[k], MovieTagMkvChars)
    ensures forall k | 27 < k < |SubtitlesAdvanced| :: Outside(SubtitlesAdvanced[k], MovieTagChars)
  {
    MovieTagHead();
    MovieTagMiddle();
    MovieTagTail();
  }

  /** The keyword checks, in three parts to keep each small. */
  lemma MovieTagHead()
    ensures forall k | 0 <= k < 14 :: Outside(SubtitlesAdvanced[k], MovieTagMkvChars)
  {
  }

  lemma MovieTagMiddle()
    ensures forall k | 14 <= k < 27 :: Outside(SubtitlesAdvanced[k], MovieTagMkvChars)
  {
  }

  lemma MovieTagTail()
    ensures forall k | 27 < k < |SubtitlesAdvanced| :: Outside(SubtitlesAdvanced[k], MovieTagChars)
  {
  }

  lemma MovieTagMkv()
    ensures Sub("Movie (2020) mkv", ["mkv"]) == "Movie (2020) "
  {
    var s, alts := "Movie (2020) mkv", ["mkv"];
    forall j, q | 0 <= j < 13 && 0 <= q < 1 ensures !MatchAt(s, alts[q], j) {
      assert alts[q] == "mkv";
      if j == 0 {
        assert Lower(s[1]) != Lower("mkv"[1]);
      } else {
        assert Lower(s[j]) != Lower("mkv"[0]);
      }
    }
    forall m | 0 <= m < 3 ensures Lower(s[13 + m]) == Lower("mkv"[m]) {
    }
    assert FirstAlt(s, alts, 13) == Some(0);
    SubKeepsPrefix(s, alts, 0, 13);
    assert SubFrom(s, alts, 16) == [];
    assert s[0..13] == "Movie (2020) ";
  }

  /** The only whole-word year is the one inside the parentheses. */
  lemma MovieTagYear()
    ensures LastYearText("Movie (2020) mkv") == Some("2020")
  {
    var s := "Movie (2020) mkv";
    assert WholeYearAt(s, 7);
    forall j | 7 < j ensures !WholeYearAt(s, j) {
      if j < 11 {
        assert WordAt(s, j - 1) && WordAt(s, j);
      } else if j + 4 <= |s| {
        assert !IsDigit(s[j]);
      }
    }
    assert s[7..11] == "2020";
  }

  /** Cutting the year leaves the empty parentheses. */
  lemma MovieTagBody()
    ensures Sub("Movie (2020)", ["2020"]) == "Movie ()"
    ensures Strip(Sub("Movie (2020)", ["2020"])) == "Movie ()"
  {
    var s, alts := "Movie (2020)", ["2020"];
    forall j, q | (0 <= j < 7 || 11 <= j < |s|) && 0 <= q < 1 ensures !MatchAt(s, alts[q], j) {
      assert alts[q] == "2020";
      assert Lower(s[j]) != Lower("2020"[0]);
    }
    forall m | 0 <= m < 4 ensures Lower(s[7 + m]) == Lower("2020"[m]) {
    }
    assert FirstAlt(s, alts, 7) == Some(0);
    SubKeepsPrefix(s, alts, 11, |s|);
    SubKeepsPrefix(s, alts, 0, 7);
    assert SubFrom(s, alts, |s|) == [];
    assert s[11..12] + [] == s[11..12];
    MovieTagJoin();
  }

  lemma MovieTagJoin()
    ensures "Movie (2020)"[0..7] + "Movie (2020)"[11..12] == "Movie ()"
    ensures Strip("Movie ()") == "Movie ()"
  {
    assert Trimmed("Movie ()");
  }

  lemma MovieTagTagged()
    ensures Strip("Movie ()" + " (" + "2020" + ")") == "Movie () (2020)"
  {
    assert "Movie ()" + " (" + "2020" + ")" == "Movie () (2020)";
    assert Trimmed("Movie () (2020)");
  }

  /** A container word can come back: the "mkv" pass deletes the extension word of
      "X mk-v.mkv", and the later "-" pass joins "mk" and "v" into a new "mkv", which
      is left in the cleaned name. */
  lemma MkvRejoined()
    ensures CleanMovieName("X mk-v.mkv") == "X mkv"
  {
    MkvSeparated();
    MkvNoYear();
    MkvKept();
    assert Trimmed("X mkv");
  }

  // The steps of MkvRejoined follow, one literal fact per lemma.

  lemma MkvSeparated()
    ensures ReplaceSeparators("X mk-v.mkv") == "X mk-v mkv"
  {
    var r := ReplaceSeparators("X mk-v.mkv");
    assert forall i | 0 <= i < |r| :: r[i] == "X mk-v mkv"[i];
  }

  lemma MkvNoYear()
    ensures LastYearText("X mk-v mkv") == None
  {
    var s := "X mk-v mkv";
    forall j ensures !WholeYearAt(s, j) {
      if 0 <= j < |s| {
        assert !IsDigit(s[j]);
      }
    }
  }

  lemma MkvKept()
    ensures Kept("X mk-v.mkv") == "X mkv"
  {
    MkvSeparated();
    MkvFold();
    MkvStrip();
    KeptIs("X mk-v.mkv", "X mk-v mkv", "X mkv ");
  }

  lemma MkvStrip()
    ensures Strip(Collapse("X mkv ")) == "X mkv"
  {
    MkvCollapsed();
    MkvStripped();
  }

  lemma MkvCollapsed()
    ensures Collapse("X mkv ") == "X mkv "
  {
    assert SingleSpaced("X mkv ");
    CollapseFixesSingleSpaced("X mkv ");
  }

  lemma MkvStripped()
    ensures Strip("X mkv ") == "X mkv"
  {
    var a, b := StripIsSlice("X mkv ");
    assert a == 0 && b == 5;
  }

  const MkvChars: set<char> := {'x', ' ', 'm', 'k', '-', 'v'}
  const JoinedChars: set<char> := {'x', ' ', 'm', 'k', 'v'}

  /** The keywords before "mkv" are inert, "mkv" takes the extension word, and the
      rest of the list is the "-" pass. */
  lemma MkvFold()
    ensures RemoveEach("X mk-v mkv", SubtitlesAdvanced) == "X mkv "
  {
    MkvInertBefore();
    MkvDropped();
    MkvHyphenPass();
    FoldFrom("X mk-v mkv", SubtitlesAdvanced, MkvChars, 27, "X mk-v ", "X mkv ");
  }

  /** The fold over a list whose first n keywords are inert is the pass of keyword n
      followed by the fold over the rest. */
  lemma FoldFrom(s: string, kws: seq<string>, a: set<char>, n: nat, t: string, u: string)
    requires n < |kws| && Within(s, a)
    requires forall k | 0 <= k < n :: Outside(kws[k], a)
    requires Sub(s, [kws[n]]) == t && RemoveEach(t, kws[n + 1..]) == u
    ensures RemoveEach(s, kws) == u
  {
    RemoveEachSkip(s, kws, n, a);
    assert kws[n..][0] == kws[n] && kws[n..][1..] == kws[n + 1..];
  }

  lemma MkvHyphenPass()
    ensures RemoveEach("X mk-v ", SubtitlesAdvanced[28..]) == "X mkv "
  {
    var rest := SubtitlesAdvanced[28..];
    MkvInertAfter();
    assert forall k | 0 <= k < 3 :: rest[k] == SubtitlesAdvanced[28 + k];
    assert forall k | 3 < k < |rest| :: rest[k] == SubtitlesAdvanced[28 + k];
    MkvJoined();
    RemoveEachOnly("X mk-v ", rest, 3, MkvChars, JoinedChars);
  }

  lemma MkvInertBefore()
    ensures SubtitlesAdvanced[27] == "mkv"
    ensures Within("X mk-v mkv", MkvChars)
    ensures forall k | 0 <= k < 27 :: Outside(SubtitlesAdvanced[k], MkvChars)
  {
    MkvInertHead();
    MkvInertMiddle();
  }

  lemma MkvInertHead()
    ensures forall k | 0 <= k < 14 :: Outside(SubtitlesAdvanced[k], MkvChars)
  {
  }

  lemma MkvInertMiddle()
    ensures forall k | 14 <= k < 27 :: Outside(SubtitlesAdvanced[k], MkvChars)
  {
  }

  lemma MkvInertAfter()
    ensures SubtitlesAdvanced[31] == "-"
    ensures Within("X mk-v ", MkvChars) && Within("X mkv ", JoinedChars)
    ensures forall k | 28 <= k < 31 :: Outside(SubtitlesAdvanced[k], MkvChars)
    ensures forall k | 31 < k < |SubtitlesAdvanced| :: Outside(SubtitlesAdvanced[k], JoinedChars)
  {
  }

  /** "mkv" matches only the extension word, not the "mk" of "mk-v". */
  lemma MkvDropped()
    ensures Sub("X mk-v mkv", ["mkv"]) == "X mk-v "
  {
    var s, alts := "X mk-v mkv", ["mkv"];
    forall j, q | 0 <= j < 7 && 0 <= q < 1 ensures !MatchAt(s, alts[q], j) {
      assert alts[q] == "mkv";
      if j == 2 {
        assert Lower(s[4]) != Lower("mkv"[2]);
      } else {
        assert Lower(s[j]) != Lower("mkv"[0]);
      }
    }
    forall m | 0 <= m < 3 ensures Lower(s[7 + m]) == Lower("mkv"[m]) {
    }
    assert FirstAlt(s, alts, 7) == Some(0);
    SubKeepsPrefix(s, alts, 0, 7);
    assert SubFrom(s, alts, 10) == [];
    assert s[0..7] == "X mk-v ";
  }

  /** "-" between "k" and "v" is a whole-word match, and deleting it joins them. */
  lemma MkvJoined()
    ensures Sub("X mk-v ", ["-"]) == "X mkv "
  {
    var s, alts := "X mk-v ", ["-"];
    MkvHyphenOnce();
    assert FirstAlt(s, alts, 4) == Some(0);
    SubKeepsPrefix(s, alts, 5, |s|);
    SubKeepsPrefix(s, alts, 0, 4);
    assert SubFrom(s, alts, |s|) == [];
    MkvJoin();
  }

  lemma MkvHyphenOnce()
    ensures MatchAt("X mk-v ", "-", 4)
    ensures forall j, q | (0 <= j < 4 || 5 <= j < 7) && 0 <= q < 1 :: !MatchAt("X mk-v ", ["-"][q], j)
  {
    var s := "X mk-v ";
    HyphenMatch(s, 4);
    forall j, q | (0 <= j < 4 || 5 <= j < |s|) && 0 <= q < 1 ensures !MatchAt(s, ["-"][q], j) {
      assert ["-"][q] == "-";
      HyphenMatch(s, j);
    }
  }

  lemma MkvJoin()
    ensures "X mk-v "[0..4] + "X mk-v "[5..7] == "X mkv "
  {
  }
}
