/** The cleaner of rename_movies_subtitles.py, which rename_movies_basic.py repeats line
    for line: the first year-like run of digits ends the title, everything from it on is
    replaced by " (yyyy)", then the standard tags go and the spacing is normalised. */
module Subtitles {
  import opened Wrappers
  import opened Text
  import opened WholeWord
  import opened Years
  import opened Keywords
  import opened Canonical
  import opened Paths
  import opened Listing

  /** The year step: with a year, the text before it (trimmed) followed by " (yyyy)";
      without one, the name as it is. The year is looked up a second time with str.find,
      which lands on the same place. */
  function Truncate(name: string): (r: string)
    ensures FirstYear(name).None? ==> r == name
    ensures FirstYear(name).Some? ==>
      var i := FirstYear(name).value;
      r == Strip(name[..i]) + " (" + name[i..i + 4] + ")"
  {
    match FirstYear(name)
    case None => name
    case Some(i) =>
      var year := name[i..i + 4];
      FindLocatesFirstYear(name);
      Strip(Head(name, Find(name, year))) + " (" + year + ")"
  }

  /** clean_movie_name(name). */
  function CleanMovieName(filename: string): (r: string)
    ensures Trimmed(r) && SingleSpaced(r)
    ensures '.' !in r && '_' !in r
  {
    var body := Truncate(ReplaceSeparators(filename));
    TruncateChars(ReplaceSeparators(filename));
    var kept := RemoveEach(body, Standard);
    RemoveEachChars(body, Standard);
    CollapseKeepsVisible(kept);
    Strip(Collapse(kept))
  }

  /** The year step adds no '.' or '_'. */
  lemma TruncateChars(name: string)
    requires '.' !in name && '_' !in name
    ensures '.' !in Truncate(name) && '_' !in Truncate(name)
  {
    if FirstYear(name).Some? {
      var i := FirstYear(name).value;
      var head := Strip(name[..i]);
      assert forall c | c in head :: c in name[..i];
      assert forall c | c in name[..i] :: c in name;
      var y := FirstYearText(name).value;
      assert y == name[i..i + 4];
      var t := head + " (" + y + ")";
      assert Truncate(name) == t;
      YearTagChars(head, y);
      assert '.' !in t;
      assert '_' !in t;
    }
  }

  /** With a year, the cleaned name ends in "(yyyy)" as a word of its own: no keyword
      reaches into it, and whatever followed the year in the file name is gone. */
  lemma CleanEndsWithFirstYear(filename: string)
    requires FirstYearText(ReplaceSeparators(filename)).Some?
    ensures EndsWithWord(CleanMovieName(filename), "(" + FirstYearText(ReplaceSeparators(filename)).value + ")")
  {
    var name := ReplaceSeparators(filename);
    var y := FirstYearText(name).value;
    var body := Truncate(name);
    TruncateEndsWithYear(name);
    YearTagKept(body, y);
    CleanMovieNameSteps(filename, body);
  }

  /** With a year, the truncated name ends in " (yyyy)". */
  lemma TruncateEndsWithYear(name: string)
    requires FirstYearText(name).Some?
    ensures EndsWith(Truncate(name), " (" + FirstYearText(name).value + ")")
  {
    var i := FirstYear(name).value;
    var y := name[i..i + 4];
    assert FirstYearText(name).value == y;
    YearTagSuffix(Strip(name[..i]), y);
  }

  lemma YearTagSuffix(h: string, y: string)
    ensures EndsWith(h + " (" + y + ")", " (" + y + ")")
  {
    assert h + " (" + y + ")" == h + (" (" + y + ")");
    EndsWithAppend(h, " (" + y + ")");
  }

  /** The clean-up as its three passes over the truncated name. */
  lemma CleanMovieNameSteps(filename: string, body: string)
    requires body == Truncate(ReplaceSeparators(filename))
    ensures CleanMovieName(filename) == Strip(Collapse(RemoveEach(body, Standard)))
  {
  }

  /** The keyword pass and the white-space normalisation keep a trailing " (yyyy)". */
  lemma YearTagKept(body: string, y: string)
    requires AllDigits(y) && EndsWith(body, " (" + y + ")")
    ensures EndsWithWord(Strip(Collapse(RemoveEach(body, Standard))), "(" + y + ")")
  {
    StandardSparesYear();
    RemoveEachKeepsYearSuffix(body, y, Standard);
    SpacedYearTag(y);
    NoSpaceYearTag(y);
    NormalizeKeepsWord(RemoveEach(body, Standard), "(" + y + ")");
  }

  /** Without a year nothing is truncated, so the extension stays as a last word. */
  lemma ExtensionSurvivesWithoutYear()
    ensures CleanMovieName("Movie.mkv") == "Movie mkv"
  {
    var name := "Movie mkv";
    MovieMkvSteps();
    StandardInertOnMovieMkv();
    assert Truncate(ReplaceSeparators("Movie.mkv")) == name;
    assert RemoveEach(name, Standard) == name;
    assert Collapse(name) == name;
  }

  lemma MovieMkvSteps()
    ensures ReplaceSeparators("Movie.mkv") == "Movie mkv"
    ensures Truncate("Movie mkv") == "Movie mkv"
    ensures Collapse("Movie mkv") == "Movie mkv" && Trimmed("Movie mkv")
  {
    MovieMkvSeparated();
    MovieMkvHasNoYear();
    MovieMkvSpaced();
  }

  lemma MovieMkvSeparated()
    ensures ReplaceSeparators("Movie.mkv") == "Movie mkv"
  {
    var r := ReplaceSeparators("Movie.mkv");
    assert forall i | 0 <= i < |r| :: r[i] == "Movie mkv"[i];
  }

  lemma MovieMkvHasNoYear()
    ensures FirstYear("Movie mkv").None?
  {
    var name := "Movie mkv";
    assert forall j | 0 <= j < |name| :: name[j] != '1' && name[j] != '2';
    NoYearLikeRun(name);
  }

  lemma MovieMkvSpaced()
    ensures Collapse("Movie mkv") == "Movie mkv" && Trimmed("Movie mkv")
  {
    assert SingleSpaced("Movie mkv");
    CollapseFixesSingleSpaced("Movie mkv");
  }

  lemma StandardInertOnMovieMkv()
    ensures RemoveEach("Movie mkv", Standard) == "Movie mkv"
  {
    assert Within("Movie mkv", MovieMkvChars);
    MovieMkvInertHead();
    MovieMkvInertTail();
    RemoveEachInert("Movie mkv", Standard, MovieMkvChars);
  }

  const MovieMkvChars: set<char> := {'m', 'o', 'v', 'i', 'e', ' ', 'k'}

  lemma MovieMkvInertHead()
    ensures forall k | 0 <= k < 14 :: Outside(Standard[k], MovieMkvChars)
  {
  }

  lemma MovieMkvInertTail()
    ensures forall k | 14 <= k < |Standard| :: Outside(Standard[k], MovieMkvChars)
  {
  }

  /** A cleaned name with a year passes the renamed-folder test, so the next run leaves
      the folder alone, unless nothing but "(yyyy)" is left of it. */
  lemma CleanIsRenamedUnlessBare(filename: string)
    requires FirstYearText(ReplaceSeparators(filename)).Some?
    ensures var y := FirstYearText(ReplaceSeparators(filename)).value;
      IsRenamed(CleanMovieName(filename)) <==> CleanMovieName(filename) != "(" + y + ")"
  {
    var y := FirstYearText(ReplaceSeparators(filename)).value;
    CleanEndsWithFirstYear(filename);
    TitledIsRenamed(CleanMovieName(filename), y);
  }

  /** A trimmed, single-spaced name ending in the word "(yyyy)" is canonical exactly when
      there is more to it than that word. */
  lemma TitledIsRenamed(r: string, y: string)
    requires Trimmed(r) && SingleSpaced(r) && AllDigits(y) && |y| == 4
    requires EndsWithWord(r, "(" + y + ")")
    ensures IsRenamed(r) <==> r != "(" + y + ")"
  {
    var t := "(" + y + ")";
    if r == t {
      assert |r| == 6 && r[5] == ')';
    } else {
      var title := r[..|r| - 7];
      assert r == title + " (" + y + ")";
      assert |title| > 0;
      assert '\n' !in title;
      CanonicalIsRenamed(title, y);
    }
  }

  /** The year can sit inside a longer run of digits: in "11999" the year is 1999, the
      leading 1 stays with the title, and everything after the year goes. */
  lemma YearInsideDigitRun()
    ensures CleanMovieName("Movie.11999.1080p.mkv") == "Movie 1 (1999)"
  {
    DigitRunTruncates();
    StandardInertOnDigitRun();
    DigitRunSpaced();
  }

  lemma DigitRunTruncates()
    ensures ReplaceSeparators("Movie.11999.1080p.mkv") == "Movie 11999 1080p mkv"
    ensures Truncate("Movie 11999 1080p mkv") == "Movie 1 (1999)"
  {
    DigitRunSeparators();
    DigitRunFirstYear();
    DigitRunHead();
    DigitRunJoin();
    var name := "Movie 11999 1080p mkv";
    assert Truncate(name) == Strip(name[..7]) + " (" + name[7..11] + ")";
  }

  lemma DigitRunSeparators()
    ensures ReplaceSeparators("Movie.11999.1080p.mkv") == "Movie 11999 1080p mkv"
  {
    var r := ReplaceSeparators("Movie.11999.1080p.mkv");
    assert forall i | 0 <= i < |r| :: r[i] == "Movie 11999 1080p mkv"[i];
  }

  lemma DigitRunJoin()
    ensures "Movie 1" + " (" + "1999" + ")" == "Movie 1 (1999)"
  {
  }

  lemma DigitRunFirstYear()
    ensures FirstYear("Movie 11999 1080p mkv") == Some(7)
  {
    var name := "Movie 11999 1080p mkv";
    assert YearAt(name, 7);
    assert forall j | 0 <= j < 7 :: !YearAt(name, j);
    FirstYearIs(name, 7);
  }

  lemma DigitRunHead()
    ensures "Movie 11999 1080p mkv"[..7] == "Movie 1" && "Movie 11999 1080p mkv"[7..11] == "1999"
    ensures Strip("Movie 1") == "Movie 1"
  {
    assert Trimmed("Movie 1");
  }

  lemma StandardInertOnDigitRun()
    ensures RemoveEach("Movie 1 (1999)", Standard) == "Movie 1 (1999)"
  {
    assert Within("Movie 1 (1999)", DigitRunChars);
    DigitRunInertHead();
    DigitRunInertTail();
    RemoveEachInert("Movie 1 (1999)", Standard, DigitRunChars);
  }

  const DigitRunChars: set<char> := {'m', 'o', 'v', 'i', 'e', ' ', '1', '(', '9', ')'}

  lemma DigitRunInertHead()
    ensures forall k | 0 <= k < 14 :: Outside(Standard[k], DigitRunChars)
  {
  }

  lemma DigitRunInertTail()
    ensures forall k | 14 <= k < |Standard| :: Outside(Standard[k], DigitRunChars)
  {
  }

  lemma DigitRunSpaced()
    ensures Collapse("Movie 1 (1999)") == "Movie 1 (1999)" && Trimmed("Movie 1 (1999)")
  {
    assert SingleSpaced("Movie 1 (1999)");
    CollapseFixesSingleSpaced("Movie 1 (1999)");
  }

  /** One folder of rename_folders_and_files: canonical folders are skipped, the last
      video and the last ".srt" in the listing are chosen. */
  function FolderPlanFor(e: Entry): (r: Option<FolderPlan>)
    ensures r.Some? ==> r.value.cleaned == CleanMovieName(r.value.movie)
    ensures r.Some? ==> e.kind.Folder? && !IsRenamed(e.name)
  {
    GuardedPlan(e, CleanMovieName)
  }

  /** rename_folders_and_files: the folder pass alone; this script has no loose-file pass. */
  function Run(entries: seq<Entry>): (r: seq<Rename>)
    ensures forall q | q in r && q.dir == [] :: !IsRenamed(q.from)
    ensures forall e | e in entries && FolderPlanFor(e).Some? :: Rename([], e.name, FolderPlanFor(e).value.cleaned) in r
  {
    FolderPass(entries, FolderPlanFor)
  }

  /** A folder renamed after a movie name with a year is skipped by the next run, unless
      the new name is the bare tag "(yyyy)". */
  lemma RenamedFolderIsSkipped(e: Entry, later: seq<string>)
    requires FolderPlanFor(e).Some?
    requires var p := FolderPlanFor(e).value;
      FirstYearText(ReplaceSeparators(p.movie)).Some?
      && p.cleaned != "(" + FirstYearText(ReplaceSeparators(p.movie)).value + ")"
    ensures FolderPlanFor(Entry(FolderPlanFor(e).value.cleaned, Folder(later))).None?
  {
    CleanIsRenamedUnlessBare(FolderPlanFor(e).value.movie);
  }
}
