/** rename_movies_basic.py: the cleaner of rename_movies_subtitles.py (the two are written
    out identically), and a folder pass that takes the first video file it meets and never
    looks at the folder's current name or at subtitles. */
module Basic {
  import opened Wrappers
  import opened Text
  import opened WholeWord
  import opened Paths
  import opened Canonical
  import opened Listing
  import Subtitles

  /** One folder of rename_folders_and_files: any folder holding a video file is planned,
      already canonical or not; the first video in the listing is the movie. */
  function FolderPlanFor(e: Entry): (r: Option<FolderPlan>)
    ensures r.Some? <==> e.kind.Folder? && exists k | 0 <= k < |e.kind.files| :: IsVideoName(e.kind.files[k])
    ensures r.Some? ==> r.value.cleaned == Subtitles.CleanMovieName(r.value.movie) && r.value.subtitle.None?
  {
    FirstVideoPlan(e, Subtitles.CleanMovieName)
  }

  /** rename_folders_and_files: each planned folder is renamed, then its movie file; no
      subtitle is ever renamed. */
  function Run(entries: seq<Entry>): (r: seq<Rename>)
    ensures forall q | q in r && q.dir == [] ::
      exists e | e in entries :: e.kind.Folder? && q.from == e.name && FolderPlanFor(e).Some?
    ensures forall e | e in entries && FolderPlanFor(e).Some? :: Rename([], e.name, FolderPlanFor(e).value.cleaned) in r
  {
    FolderPass(entries, FolderPlanFor)
  }

  /** Unlike the other folder passes, a folder whose name is already canonical is planned
      again when it holds a video. */
  lemma CanonicalFolderIsReplanned(title: string, y: string, movie: string)
    requires |title| > 0 && '\n' !in title && |y| == 4 && Years.AllDigits(y)
    requires IsVideoName(movie)
    ensures IsRenamed(title + " (" + y + ")")
    ensures FolderPlanFor(Entry(title + " (" + y + ")", Folder([movie]))).Some?
  {
    CanonicalIsRenamed(title, y);
  }

  /** The "-" keyword only goes when it joins two word characters: a hyphenated title is
      glued together, a dash between spaces stays. */
  lemma HyphenJoinsWords()
    ensures Sub("Spider-Man", ["-"]) == "SpiderMan"
  {
    var s, alts := "Spider-Man", ["-"];
    HyphenMatchesOnce();
    JoinSpiderMan();
    assert FirstAlt(s, alts, 6) == Some(0);
    SubKeepsPrefix(s, alts, 7, |s|);
    SubKeepsPrefix(s, alts, 0, 6);
    assert SubFrom(s, alts, |s|) == [];
  }

  /** "-" matches "Spider-Man" at 6 and nowhere else. */
  lemma HyphenMatchesOnce()
    ensures MatchAt("Spider-Man", "-", 6)
    ensures forall j, q | (0 <= j < 6 || 7 <= j < 10) && 0 <= q < 1 :: !MatchAt("Spider-Man", ["-"][q], j)
  {
    var s := "Spider-Man";
    HyphenMatch(s, 6);
    forall j, q | (0 <= j < 6 || 7 <= j < |s|) && 0 <= q < 1 ensures !MatchAt(s, ["-"][q], j) {
      assert ["-"][q] == "-";
      HyphenMatch(s, j);
    }
  }

  lemma JoinSpiderMan()
    ensures "Spider-Man"[0..6] + "Spider-Man"[7..10] == "SpiderMan"
  {
  }

  /** A dash between spaces is not between word characters, so it stays. */
  lemma SpacedDashStays()
    ensures Sub("Heat - 1995", ["-"]) == "Heat - 1995"
  {
    var s := "Heat - 1995";
    forall j, q | 0 <= j < |s| && 0 <= q < |["-"]| ensures !MatchAt(s, ["-"][q], j) {
      assert ["-"][q] == "-";
      HyphenMatch(s, j);
    }
    SubNoMatch(s, ["-"]);
  }
}
