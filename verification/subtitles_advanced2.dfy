/** rename_movies_subtitles_advanced2.py: the last whole-word year is wrapped in
    parentheses where it stands, a leftover-cleaning step edits only the stem of a file
    name, and a third pass walks the whole tree with it. */
module SubtitlesAdvanced2 {
  import opened Wrappers
  import opened Text
  import opened WholeWord
  import opened Years
  import opened Keywords
  import opened Canonical
  import opened Paths
  import opened Listing

  /** The name after separator replacement, tag removal, collapsing and trimming. */
  function Kept(filename: string): (r: string)
    ensures Trimmed(r) && SingleSpaced(r)
    ensures '.' !in r && '_' !in r
  {
    var name := ReplaceSeparators(filename);
    RemoveEachChars(name, SubtitlesAdvanced2);
    CollapseKeepsVisible(RemoveEach(name, SubtitlesAdvanced2));
    Strip(Collapse(RemoveEach(name, SubtitlesAdvanced2)))
  }

  /** re.sub(rf'\b{year}\b(?!.*\b{year}\b)', f'({year})', s): the lookahead lets only the
      last whole-word occurrence through, and that one is put in parentheses in place. */
  function Wrap(s: string, y: string): (r: string)
    requires |y| == 4 && AllDigits(y)
    ensures LastMatch(s, y).None? ==> r == s
    ensures LastMatch(s, y).Some? ==>
      var j := LastMatch(s, y).value;
      |r| == |s| + 2 && OccurrenceAt(r, "(" + y + ")", j)
      && r[..j] + r[j + 1..j + 5] + r[j + 6..] == s
  {
    match LastMatch(s, y)
    case None => s
    case Some(j) =>
      var r := s[..j] + "(" + y + ")" + s[j + 4..];
      WrapParts(s, y, j, r);
      r
  }

  lemma WrapParts(s: string, y: string, j: nat, r: string)
    requires |y| == 4 && OccursAt(s, y, j) && AllDigits(y)
    requires r == s[..j] + "(" + y + ")" + s[j + 4..]
    ensures OccurrenceAt(r, "(" + y + ")", j)
    ensures r[..j] + r[j + 1..j + 5] + r[j + 6..] == s
  {
    assert r[j + 1..j + 5] == y;
    assert s[j..j + 4] == y by {
      forall m | 0 <= m < 4 ensures s[j + m] == y[m] {
        assert Lower(s[j + m]) == Lower(y[m]);
      }
    }
    assert s == s[..j] + s[j..j + 4] + s[j + 4..];
  }

  /** The lookahead pattern matches at j exactly when j is the last whole-word
      occurrence: whole-word copies of a four-digit year never overlap. */
  lemma WrapPatternIsLastMatch(s: string, y: string, j: int)
    requires |y| == 4 && AllDigits(y)
    ensures (MatchAt(s, y, j) && forall k | j + |y| <= k :: !MatchAt(s, y, k)) <==> LastMatch(s, y) == Some(j)
  {
    if MatchAt(s, y, j) && forall k | j + |y| <= k :: !MatchAt(s, y, k) {
      forall k | j < k < j + 4 ensures !MatchAt(s, y, k) {
        assert Lower(s[j + (k - 1 - j)]) == Lower(y[k - 1 - j]);
        if MatchAt(s, y, k) {
          assert Lower(s[k + 0]) == Lower(y[0]);
          assert WordAt(s, k - 1) && WordAt(s, k);
        }
      }
    }
  }

  /** Wrapping inserts two parentheses next to digits: no whitespace is added, moved or
      exposed at either end, and no other character appears. */
  lemma WrapKeepsShape(s: string, y: string)
    requires |y| == 4 && AllDigits(y) && Trimmed(s) && SingleSpaced(s)
    ensures Trimmed(Wrap(s, y)) && SingleSpaced(Wrap(s, y))
    ensures forall c | c in Wrap(s, y) :: c in s || c == '(' || c == ')'
  {
    if LastMatch(s, y).Some? {
      var j := LastMatch(s, y).value;
      WrapSplices(s, y, j);
      SpliceShape(s, j, Wrap(s, y));
    }
  }

  lemma WrapSplices(s: string, y: string, j: nat)
    requires |y| == 4 && AllDigits(y) && LastMatch(s, y) == Some(j)
    ensures j + 4 <= |s| && forall m | j <= m < j + 4 :: IsDigit(s[m])
    ensures Wrap(s, y) == s[..j] + "(" + s[j..j + 4] + ")" + s[j + 4..]
  {
    forall m | j <= m < j + 4 ensures s[m] == y[m - j] {
      assert Lower(s[j + (m - j)]) == Lower(y[m - j]);
    }
    assert s[j..j + 4] == y;
  }

  /** Parentheses put around four digits of a trimmed, single-spaced string. */
  lemma SpliceShape(s: string, j: nat, r: string)
    requires j + 4 <= |s| && forall m | j <= m < j + 4 :: IsDigit(s[m])
    requires r == s[..j] + "(" + s[j..j + 4] + ")" + s[j + 4..]
    requires Trimmed(s) && SingleSpaced(s)
    ensures Trimmed(r) && SingleSpaced(r)
    ensures forall c | c in r :: c in s || c == '(' || c == ')'
  {
    SplicePoints(s, j, r);
    forall i | 0 <= i < |r| && IsSpace(r[i]) ensures r[i] == ' ' && (i + 1 == |r| || !IsSpace(r[i + 1])) {
      if i < j {
        assert r[i] == s[i];
      } else {
        assert r[i] == s[i - 2];
      }
    }
    forall c | c in r ensures c in s || c == '(' || c == ')' {
      var m :| 0 <= m < |r| && r[m] == c;
      if m < j {
        assert c == s[m];
      } else if j + 1 <= m < j + 5 {
        assert c == s[m - 1];
      } else if j + 6 <= m {
        assert c == s[m - 2];
      }
    }
  }

  lemma SplicePoints(s: string, j: nat, r: string)
    requires j + 4 <= |s|
    requires r == s[..j] + "(" + s[j..j + 4] + ")" + s[j + 4..]
    ensures |r| == |s| + 2 && r[j] == '(' && r[j + 5] == ')'
    ensures forall m | 0 <= m < j :: r[m] == s[m]
    ensures forall m | j + 1 <= m < j + 5 :: r[m] == s[m - 1]
    ensures forall m | j + 6 <= m < |r| :: r[m] == s[m - 2]
  {
  }

  /** The year step: nothing when "(yyyy)" is already there, the wrap otherwise. */
  function PlaceYear(kept: string, y: string): (r: string)
    requires |y| == 4 && AllDigits(y) && Trimmed(kept) && SingleSpaced(kept)
    ensures Trimmed(r) && SingleSpaced(r)
    ensures '.' !in kept && '_' !in kept ==> '.' !in r && '_' !in r
    ensures Find(kept, "(" + y + ")") != -1 ==> r == kept
  {
    if Find(kept, "(" + y + ")") != -1 then kept
    else
      WrapKeepsShape(kept, y);
      Wrap(kept, y)
  }

  /** clean_movie_name(name). */
  function CleanMovieName(filename: string): (r: string)
    ensures Trimmed(r) && SingleSpaced(r)
    ensures '.' !in r && '_' !in r
    ensures LastYearText(ReplaceSeparators(filename)).None? ==> r == Kept(filename)
    ensures LastYearText(ReplaceSeparators(filename)).Some? ==>
      var y := LastYearText(ReplaceSeparators(filename)).value;
      Find(Kept(filename), "(" + y + ")") != -1 ==> r == Kept(filename)
  {
    var kept := Kept(filename);
    var year := LastYearText(ReplaceSeparators(filename));
    WithYear(kept, year)
  }

  /** The last steps of clean_movie_name on the kept text, given the year found. */
  function WithYear(kept: string, year: Option<string>): (r: string)
    requires Trimmed(kept) && SingleSpaced(kept) && '.' !in kept && '_' !in kept
    requires year.Some? ==> |year.value| == 4 && AllDigits(year.value)
    ensures Trimmed(r) && SingleSpaced(r)
    ensures '.' !in r && '_' !in r
    ensures year.None? ==> r == kept
    ensures year.Some? && Find(kept, "(" + year.value + ")") != -1 ==> r == kept
  {
    match year
    case None => Strip(kept)
    case Some(y) => Strip(PlaceYear(kept, y))
  }

  /** When the year is not yet in parentheses, its last whole-word occurrence in the
      cleaned text is wrapped where it stands: taking the two parentheses out again gives
      the cleaned text back, so nothing is moved or dropped. */
  lemma CleanWrapsLastYear(filename: string)
    requires LastYearText(ReplaceSeparators(filename)).Some?
    requires Find(Kept(filename), "(" + LastYearText(ReplaceSeparators(filename)).value + ")") == -1
    ensures var y := LastYearText(ReplaceSeparators(filename)).value;
      var kept := Kept(filename);
      var r := CleanMovieName(filename);
      (LastMatch(kept, y).None? ==> r == kept)
      && (LastMatch(kept, y).Some? ==>
        var j := LastMatch(kept, y).value;
        OccurrenceAt(r, "(" + y + ")", j) && r[..j] + r[j + 1..j + 5] + r[j + 6..] == kept)
  {
    var y := LastYearText(ReplaceSeparators(filename)).value;
    var kept := Kept(filename);
    assert CleanMovieName(filename) == WithYear(kept, Some(y)) == Strip(PlaceYear(kept, y));
    assert PlaceYear(kept, y) == Wrap(kept, y);
  }

  /** An already canonical "Title (yyyy)" gets no second pair of parentheses: the tag
      survives the cleaning, is found, and the year step does nothing. */
  lemma CleanKeepsExistingTag(t: string, y: string)
    requires |y| == 4 && YearAt(y, 0)
    ensures CleanMovieName(t + " (" + y + ")") == Kept(t + " (" + y + ")")
    ensures EndsWith(CleanMovieName(t + " (" + y + ")"), "(" + y + ")")
  {
    CanonicalFileName(t + " (" + y + ")", t, y);
    CleanKeepsTag(t + " (" + y + ")", y);
  }

  lemma CleanKeepsTag(filename: string, y: string)
    requires |y| == 4 && AllDigits(y)
    requires LastYearText(ReplaceSeparators(filename)) == Some(y)
    requires EndsWith(ReplaceSeparators(filename), " (" + y + ")")
    ensures CleanMovieName(filename) == Kept(filename)
    ensures EndsWith(CleanMovieName(filename), "(" + y + ")")
  {
    KeptEndsWithTag(filename, y);
    TagFound(Kept(filename), "(" + y + ")");
  }

  /** The tag passes and the spacing steps leave a trailing "(yyyy)" in place. */
  lemma KeptEndsWithTag(filename: string, y: string)
    requires |y| == 4 && AllDigits(y)
    requires EndsWith(ReplaceSeparators(filename), " (" + y + ")")
    ensures EndsWith(Kept(filename), "(" + y + ")")
  {
    var tag := "(" + y + ")";
    var name := ReplaceSeparators(filename);
    SubtitlesAdvanced2SparesYear();
    RemoveEachKeepsYearSuffix(name, y, SubtitlesAdvanced2);
    SpacedYearTag(y);
    NoSpaceYearTag(y);
    NormalizeKeepsWord(RemoveEach(name, SubtitlesAdvanced2), tag);
    WordEndsWith(Kept(filename), tag);
  }

  /** str.find finds a suffix. */
  lemma TagFound(s: string, t: string)
    requires EndsWith(s, t)
    ensures Find(s, t) != -1
  {
    assert OccurrenceAt(s, t, |s| - |t|);
  }

  /** The stem part of final_clean_name: tags removed, every '-' turned into a space, the
      spacing normalised. */
  function CleanStem(stem: string): (r: string)
    ensures '-' !in r && Trimmed(r) && SingleSpaced(r)
    ensures forall c | c in r :: c == ' ' || (c in stem && c != '-')
  {
    var kept := RemoveEach(stem, SubtitlesAdvanced2);
    RemoveEachChars(stem, SubtitlesAdvanced2);
    CollapseKeepsVisible(SpaceOut(kept, {'-'}));
    Strip(Collapse(SpaceOut(kept, {'-'})))
  }

  /** final_clean_name(name): only the pathlib stem is cleaned; the suffix is put back as
      it was. */
  function FinalCleanName(name: string): (r: string)
    ensures EndsWith(r, Suffix(name))
    ensures Suffix(name) == [] ==> r == CleanStem(name)
    ensures Suffix(name) != [] && |CleanStem(Stem(name))| > 0 ==>
      Suffix(r) == Suffix(name) && Stem(r) == CleanStem(Stem(name))
  {
    StemSuffix(name);
    if Suffix(name) == [] then
      assert Stem(name) == name by {
        assert Stem(name) + [] == Stem(name);
      }
      Reattach(CleanStem(Stem(name)), Suffix(name))
    else
      Reattach(CleanStem(Stem(name)), Suffix(name))
  }

  /** If the whole stem is tags, nothing is left in front of the extension and pathlib no
      longer sees a suffix: "1080p.mkv" becomes the hidden name ".mkv". */
  lemma EmptyStemLosesSuffix()
    ensures FinalCleanName("1080p.mkv") == ".mkv" && Suffix(".mkv") == ""
  {
    StemOf1080p();
    TagOnlyStem();
    HiddenNameHasNoSuffix();
  }

  lemma HiddenNameHasNoSuffix()
    ensures Suffix(".mkv") == ""
  {
    assert RFind(".mkv", '.') == 0;
  }

  lemma StemOf1080p()
    ensures Stem("1080p.mkv") == "1080p" && Suffix("1080p.mkv") == ".mkv"
  {
    var name := "1080p.mkv";
    assert RFind(name, '.') == 5;
    assert name[..5] == "1080p" && name[5..] == ".mkv";
  }

  lemma TagOnlyStem()
    ensures CleanStem("1080p") == ""
  {
    TagOnlyFold();
    assert SpaceOut([], {'-'}) == [];
  }

  lemma TagOnlyFold()
    ensures RemoveEach("1080p", SubtitlesAdvanced2) == ""
  {
    TagOnlySub();
    assert forall k | 1 <= k < |SubtitlesAdvanced2| :: Outside(SubtitlesAdvanced2[k], {});
    RemoveEachOnly("1080p", SubtitlesAdvanced2, 0, {'1', '0', '8', 'p'}, {});
  }

  lemma TagOnlySub()
    ensures Sub("1080p", [SubtitlesAdvanced2[0]]) == ""
  {
    var s := "1080p";
    assert SubtitlesAdvanced2[0] == "1080p";
    assert MatchAt(s, "1080p", 0);
    assert SubFrom(s, ["1080p"], 0) == SubFrom(s, ["1080p"], 5) == [];
  }

  /** A name that is already clean is left as it is: no tag to remove, no '-', no
      whitespace to normalise in its stem. */
  lemma CleanNameIsFixed(name: string)
    requires RemoveEach(Stem(name), SubtitlesAdvanced2) == Stem(name)
    requires '-' !in Stem(name) && Trimmed(Stem(name)) && SingleSpaced(Stem(name))
    ensures FinalCleanName(name) == name
  {
    CleanStemFixed(Stem(name));
    StemSuffix(name);
    if Suffix(name) == [] {
      assert Stem(name) == name;
    }
  }

  lemma CleanStemFixed(stem: string)
    requires RemoveEach(stem, SubtitlesAdvanced2) == stem
    requires '-' !in stem && Trimmed(stem) && SingleSpaced(stem)
    ensures CleanStem(stem) == stem
  {
    NoDashUnchanged(stem);
    CollapseFixesSingleSpaced(stem);
  }

  lemma NoDashUnchanged(s: string)
    requires '-' !in s
    ensures SpaceOut(s, {'-'}) == s
  {
    var r := SpaceOut(s, {'-'});
    forall i | 0 <= i < |s| ensures r[i] == s[i] {
      assert s[i] != '-';
    }
  }

  /** name.lower().endswith(('.mkv', '.mp4', '.avi', '.srt')). */
  predicate IsMediaName(name: string) {
    IsVideoName(name) || IsSubtitleName(name)
  }

  /** The cleanup of one directory's files, with final_clean_name as `clean`. */
  function CleanupDir(dir: seq<string>, files: seq<string>, clean: string -> string): (r: seq<Rename>)
    ensures forall q | q in r ::
      q.dir == dir && q.from in files && IsMediaName(q.from) && q.to == clean(q.from) && q.to != q.from
    ensures forall f | f in files && IsMediaName(f) && clean(f) != f :: Rename(dir, f, clean(f)) in r
  {
    if |files| == 0 then []
    else
      var f := files[0];
      (if IsMediaName(f) && clean(f) != f then [Rename(dir, f, clean(f))] else [])
      + CleanupDir(dir, files[1..], clean)
  }

  /** The second pass: every media file anywhere in the tree whose name final_clean_name
      changes is renamed to the cleaned name in its own directory; nothing else is. */
  function CleanupPass(walk: seq<WalkDir>): (r: seq<Rename>)
    ensures forall q | q in r :: exists w | w in walk ::
      q.dir == w.path && q.from in w.files && IsMediaName(q.from) && q.to == FinalCleanName(q.from) && q.to != q.from
    ensures forall w, f | w in walk && f in w.files && IsMediaName(f) && FinalCleanName(f) != f ::
      Rename(w.path, f, FinalCleanName(f)) in r
  {
    if |walk| == 0 then []
    else CleanupDir(walk[0].path, walk[0].files, FinalCleanName) + CleanupPass(walk[1..])
  }

  /** One folder of rename_folders_and_files: canonical folders are skipped, the last
      video and the last ".srt" in the listing are chosen, and the cleaner gets the whole
      movie file name, extension included. */
  function FolderPlanFor(e: Entry): (r: Option<FolderPlan>)
    ensures r.Some? ==> r.value.cleaned == CleanMovieName(r.value.movie)
    ensures r.Some? ==> e.kind.Folder? && !IsRenamed(e.name)
  {
    GuardedPlan(e, CleanMovieName)
  }

  /** rename_folders_and_files: the folder pass and the loose-file pass over the base
      listing, then the cleanup pass over the tree as os.walk then finds it. */
  function Run(entries: seq<Entry>, walk: seq<WalkDir>): (r: seq<Rename>)
    ensures forall q | q in r && q.dir == [] && q in FolderPass(entries, FolderPlanFor) + LoosePass(entries, CleanMovieName) :: !IsRenamed(q.from)
    ensures forall q | q in r && q !in FolderPass(entries, FolderPlanFor) + LoosePass(entries, CleanMovieName) :: q.from != q.to && IsMediaName(q.from)
    ensures forall e | e in entries && FolderPlanFor(e).Some? :: Rename([], e.name, FolderPlanFor(e).value.cleaned) in r
    ensures forall e | e in entries && e.kind.RegularFile? && IsVideoName(e.name) :: Rename([], e.name, CleanMovieName(e.name) + Suffix(e.name)) in r
  {
    forall q | q in LoosePass(entries, CleanMovieName) ensures !IsRenamed(q.from) {
      var e :| e in entries && e.kind.RegularFile? && IsVideoName(e.name) && q.from == e.name && q.to == CleanMovieName(e.name) + Suffix(e.name);
      VideoNameNotRenamed(e.name);
    }
    FolderPass(entries, FolderPlanFor) + LoosePass(entries, CleanMovieName) + CleanupPass(walk)
  }
}
