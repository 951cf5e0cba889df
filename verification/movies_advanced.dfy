/** rename_movies_advanced.py: the title cleaner, the renamed-folder test and the
    decisions of rename_stuff, with the online title lookup and the subtitle prompt as
    inputs. */
module MoviesAdvanced {
  import opened Wrappers
  import opened Text
  import opened WholeWord
  import opened Keywords
  import opened Years
  import opened Paths
  import opened Canonical
  import opened Listing

  /** clean_title(raw): separators become spaces and whitespace runs are collapsed first;
      only then are the standard tags deleted, and the result is trimmed. */
  function CleanTitle(raw: string): (r: string)
    ensures Trimmed(r)
    ensures '.' !in r && '_' !in r
  {
    var spaced := Collapse(ReplaceSeparators(raw));
    CollapseKeepsVisible(ReplaceSeparators(raw));
    RemoveEachChars(spaced, Standard);
    Strip(RemoveEach(spaced, Standard))
  }

  /** Tags are deleted after the collapse and nothing collapses again, so a deleted word
      leaves its two neighbouring spaces behind. */
  lemma DeletedTagLeavesDoubleSpace()
    ensures CleanTitle("Up.ch.2020") == "Up  2020"
  {
    UpChSteps();
    UpChFold();
    UpChTrimmed();
  }

  // The steps of DeletedTagLeavesDoubleSpace follow, one literal fact per lemma.

  lemma UpChTrimmed()
    ensures Strip("Up  2020") == "Up  2020"
  {
    assert Trimmed("Up  2020");
  }

  lemma UpChSteps()
    ensures ReplaceSeparators("Up.ch.2020") == "Up ch 2020"
    ensures Collapse("Up ch 2020") == "Up ch 2020"
  {
    UpChSeparated();
    UpChCollapsed();
  }

  lemma UpChSeparated()
    ensures ReplaceSeparators("Up.ch.2020") == "Up ch 2020"
  {
    var r := ReplaceSeparators("Up.ch.2020");
    assert forall i | 0 <= i < |r| :: r[i] == "Up ch 2020"[i];
  }

  lemma UpChCollapsed()
    ensures Collapse("Up ch 2020") == "Up ch 2020"
  {
    assert SingleSpaced("Up ch 2020");
    CollapseFixesSingleSpaced("Up ch 2020");
  }

  lemma UpChFold()
    ensures RemoveEach("Up ch 2020", Standard) == "Up  2020"
  {
    UpChSub();
    UpChInert();
    RemoveEachOnly("Up ch 2020", Standard, 25, UpCh, UpNoCh);
  }

  const UpCh: set<char> := {'u', 'p', ' ', 'c', 'h', '2', '0'}
  const UpNoCh: set<char> := {'u', 'p', ' ', '2', '0'}

  lemma UpChInert()
    ensures Standard[25] == "CH"
    ensures Within("Up ch 2020", UpCh) && Within("Up  2020", UpNoCh)
    ensures forall k | 0 <= k < 25 :: Outside(Standard[k], UpCh)
    ensures forall k | 25 < k < |Standard| :: Outside(Standard[k], UpNoCh)
  {
    UpChHead();
    UpChMiddle();
    UpChTail();
  }

  lemma UpChHead()
    ensures forall k | 0 <= k < 13 :: Outside(Standard[k], UpCh)
  {
  }

  lemma UpChMiddle()
    ensures forall k | 13 <= k < 25 :: Outside(Standard[k], UpCh)
  {
  }

  lemma UpChTail()
    ensures forall k | 25 < k < |Standard| :: Outside(Standard[k], UpNoCh)
  {
  }

  lemma UpChSub()
    ensures Sub("Up ch 2020", ["CH"]) == "Up  2020"
  {
    var s, alts := "Up ch 2020", ["CH"];
    forall j, q | (0 <= j < 3 || 5 <= j < |s|) && 0 <= q < 1 ensures !MatchAt(s, alts[q], j) {
      assert alts[q] == "CH";
      assert Lower(s[j]) != Lower("CH"[0]);
    }
    forall m | 0 <= m < 2 ensures Lower(s[3 + m]) == Lower("CH"[m]) {
    }
    assert FirstAlt(s, alts, 3) == Some(0);
    SubKeepsPrefix(s, alts, 5, |s|);
    SubKeepsPrefix(s, alts, 0, 3);
    assert SubFrom(s, alts, |s|) == [];
    assert s[5..10] + [] == s[5..10];
    UpChJoin();
  }

  lemma UpChJoin()
    ensures "Up ch 2020"[0..3] + "Up ch 2020"[5..10] == "Up  2020"
  {
  }

  /** is_renamed(name) is the shared test of the Canonical module; it holds exactly for a
      one-line title followed by " (" + four digits + ")". */
  lemma RenamedShape(title: string, year: string)
    requires |year| == 4
    ensures IsRenamed(title + " (" + year + ")") <==> |title| > 0 && '\n' !in title && AllDigits(year)
  {
    CanonicalIsRenamed(title, year);
  }

  /** The online lookup: for a cleaned title guess, OMDb's Title and Year fields, or
      nothing when the movie is unknown or the request fails. */
  type Lookup = string -> Option<(string, string)>

  /** fetch_omdb_title(raw): the lookup is asked about the cleaned title and its answer is
      formatted as "Title (Year)". */
  function FetchTitle(raw: string, lookup: Lookup): (r: Option<string>)
    ensures r.None? <==> lookup(CleanTitle(raw)).None?
    ensures r.Some? ==> r.value == Formatted(lookup(CleanTitle(raw)).value)
  {
    var answer := lookup(CleanTitle(raw));
    if answer.None? then None else Some(Formatted(answer.value))
  }

  /** f"{title} ({year})". */
  function Formatted(answer: (string, string)): string {
    answer.0 + " (" + answer.1 + ")"
  }

  /** A found title with a four-digit year gives a name the renamed-folder test accepts,
      so a later run skips the folder. */
  lemma FetchedTitleIsRenamed(raw: string, lookup: Lookup)
    requires lookup(CleanTitle(raw)).Some?
    requires var answer := lookup(CleanTitle(raw)).value;
      |answer.0| > 0 && '\n' !in answer.0 && |answer.1| == 4 && AllDigits(answer.1)
    ensures FetchTitle(raw, lookup).Some? && IsRenamed(FetchTitle(raw, lookup).value)
  {
    var answer := lookup(CleanTitle(raw)).value;
    CanonicalIsRenamed(answer.0, answer.1);
  }

  /** Why a folder is left alone, in the order the checks are made. */
  datatype Skip = NotAFolder | AlreadyRenamed | NoMovie | NoNewName | TargetExists

  datatype Decision =
    | Skipped(reason: Skip)
    | Planned(newName: string, movie: string, subs: seq<string>)

  /** new_name for a movie file: its name without the os.path.splitext extension, looked
      up online or cleaned offline. None stands for both None and "" (Python's falsy
      new_name). */
  function NewName(movie: string, online: bool, lookup: Lookup): (r: Option<string>)
    ensures r.Some? ==> |r.value| > 0
  {
    var raw := SplitExt(movie).0;
    var name := if online then FetchTitle(raw, lookup) else Some(CleanTitle(raw));
    if name.Some? && |name.value| > 0 then name else None
  }

  /** Offline, the new name is clean_title of the movie's name without its extension,
      unless that is empty. */
  lemma OfflineNewName(movie: string, lookup: Lookup)
    ensures var t := CleanTitle(SplitExt(movie).0);
      NewName(movie, false, lookup) == if |t| > 0 then Some(t) else None
  {
  }

  /** Online, it is the formatted answer to the lookup, unless there is none or it is
      empty. */
  lemma OnlineNewName(movie: string, lookup: Lookup)
    ensures var t := FetchTitle(SplitExt(movie).0, lookup);
      NewName(movie, true, lookup) == if t.Some? && |t.value| > 0 then t else None
  {
  }

  /** The title guess the lookup is asked about for a folder, if it is asked at all: only
      online, and only for a folder that passed the folder, renamed and movie checks. */
  function Query(e: Entry, online: bool): (r: Option<string>)
    ensures r.Some? <==> (online && e.kind.Folder? && !IsRenamed(e.name)
                          && exists k | 0 <= k < |e.kind.files| :: IsVideoName(e.kind.files[k]))
  {
    if !online || !e.kind.Folder? || IsRenamed(e.name) then None
    else match LastWhere(e.kind.files, IsVideoName)
      case None => None
      case Some(k) => Some(CleanTitle(SplitExt(e.kind.files[k]).0))
  }

  /** One iteration of rename_stuff's loop over the base listing; taken holds the names
      that currently exist in the base directory. Entries that are not folders and folders
      that already look renamed are skipped before anything else is looked at. */
  function Decide(e: Entry, taken: set<string>, online: bool, lookup: Lookup): (r: Decision)
    ensures !e.kind.Folder? ==> r == Skipped(NotAFolder)
    ensures e.kind.Folder? && IsRenamed(e.name) ==> r == Skipped(AlreadyRenamed)
    ensures e.kind.Folder? && !IsRenamed(e.name) ==>
      r == DecideFolder(e.kind.files, taken, Namer(online, lookup))
  {
    if !e.kind.Folder? then Skipped(NotAFolder)
    else if IsRenamed(e.name) then Skipped(AlreadyRenamed)
    else DecideFolder(e.kind.files, taken, Namer(online, lookup))
  }

  /** The cleaning or lookup a run applies to every movie file. */
  function Namer(online: bool, lookup: Lookup): (r: string -> Option<string>)
    ensures forall movie :: r(movie) == NewName(movie, online, lookup)
  {
    (movie: string) => NewName(movie, online, lookup)
  }

  /** The rest of the iteration for a folder that is not yet renamed: the last video is
      the movie, every subtitle is collected, and the folder is planned unless there is no
      movie, no usable new name, or the new name is already taken. newName stands for the
      cleaning or lookup that turns the movie file's name into new_name. */
  function DecideFolder(files: seq<string>, taken: set<string>, newName: string -> Option<string>): (r: Decision)
    ensures r == Skipped(NoMovie) <==> forall k | 0 <= k < |files| :: !IsVideoName(files[k])
    ensures r.Skipped? ==> r.reason in {NoMovie, NoNewName, TargetExists}
    ensures r.Planned? ==> |r.newName| > 0 && r.newName !in taken
    ensures r.Planned? ==> newName(r.movie) == Some(r.newName)
    ensures r.Planned? ==> var k := LastWhere(files, IsVideoName);
      k.Some? && r.movie == files[k.value]
    ensures r.Planned? ==> r.subs == Filter(files, IsSubtitleName)
  {
    match LastWhere(files, IsVideoName)
    case None => Skipped(NoMovie)
    case Some(k) =>
      var movie := files[k];
      match newName(movie)
      case None => Skipped(NoNewName)
      case Some(n) =>
        if |n| == 0 then Skipped(NoNewName)
        else if n in taken then Skipped(TargetExists)
        else Planned(n, movie, Filter(files, IsSubtitleName))
  }

  /** Conversely, a folder with a video whose last video gets a usable new name that is
      not yet taken is planned, with that name, that video and all its subtitles. */
  lemma DecideFolderPlans(files: seq<string>, taken: set<string>, newName: string -> Option<string>, k: nat, n: string)
    requires LastWhere(files, IsVideoName) == Some(k)
    requires newName(files[k]) == Some(n) && |n| > 0 && n !in taken
    ensures DecideFolder(files, taken, newName) == Planned(n, files[k], Filter(files, IsSubtitleName))
  {
  }

  /** The subtitle renames for a planned folder: a sole subtitle is renamed without
      asking; with several, each one only when the user confirms it. Every one goes to
      the same new_name + ".srt". */
  function SubtitleRenames(newName: string, subs: seq<string>, ask: bool, confirm: (string, string) -> bool): (r: seq<Rename>)
    ensures forall q | q in r :: q.dir == [newName] && q.to == newName + ".srt" && q.from in subs
    ensures forall q | q in r :: !ask || confirm(newName, q.from)
    ensures Sources(r) == Filter(subs, (sub: string) => !ask || confirm(newName, sub))
  {
    if |subs| == 0 then []
    else
      var first := if !ask || confirm(newName, subs[0]) then [Rename([newName], subs[0], newName + ".srt")] else [];
      var rest := SubtitleRenames(newName, subs[1..], ask, confirm);
      SourcesStep(first, rest, subs, (sub: string) => !ask || confirm(newName, sub));
      first + rest
  }

  /** One step of SubtitleRenames keeps its sources the filtered listing. */
  lemma SourcesStep(first: seq<Rename>, rest: seq<Rename>, subs: seq<string>, p: string -> bool)
    requires |subs| > 0 && Sources(rest) == Filter(subs[1..], p)
    requires first == [] || (|first| == 1 && first[0].from == subs[0])
    requires first != [] <==> p(subs[0])
    ensures Sources(first + rest) == Filter(subs, p)
  {
    FilterCons(subs, p);
    assert Sources(first + rest) == Sources(first) + Sources(rest);
  }

  /** The names the renames start from, in order. */
  function Sources(renames: seq<Rename>): (r: seq<string>)
    ensures |r| == |renames| && forall i | 0 <= i < |r| :: r[i] == renames[i].from
  {
    seq(|renames|, i requires 0 <= i < |renames| => renames[i].from)
  }

  /** Everything a run leaves behind: the log lines, the renames performed (in order),
      the title guesses sent to the lookup, and the log file's lines, if one is written. */
  datatype Report = Report(log: seq<string>, renames: seq<Rename>, queries: seq<string>, logFile: Option<seq<string>>)

  /** The loop of rename_stuff from a given point on, with the accumulated log, renames
      and queries. */
  function RunFrom(entries: seq<Entry>, taken: set<string>, dryRun: bool, online: bool, lookup: Lookup,
                   confirm: (string, string) -> bool, log: seq<string>, renames: seq<Rename>, queries: seq<string>): (r: Report)
    ensures dryRun ==> r.renames == renames
    ensures !online ==> r.queries == queries
    ensures r.logFile.None?
    ensures log <= r.log && |r.log| <= |log| + |entries|
    decreases |entries|
  {
    if |entries| == 0 then Report(log, renames, queries, None)
    else
      var e := entries[0];
      var queries' := queries + match Query(e, online) case None => [] case Some(q) => [q];
      match Decide(e, taken, online, lookup)
      case Skipped(_) =>
        RunFrom(entries[1..], taken, dryRun, online, lookup, confirm, log, renames, queries')
      case Planned(n, movie, subs) =>
        var log' := log + [e.name + " -> " + n];
        if dryRun then
          RunFrom(entries[1..], taken, dryRun, online, lookup, confirm, log', renames, queries')
        else
          var done := [Rename([], e.name, n), Rename([n], movie, n + Suffix(movie))]
            + SubtitleRenames(n, subs, |subs| > 1, confirm);
          RunFrom(entries[1..], taken - {e.name} + {n}, dryRun, online, lookup, confirm, log', renames + done, queries')
  }

  /** rename_stuff(base_path, dry_run, verify_online): the log file is written only on a
      live run that logged something. */
  function RenameStuff(entries: seq<Entry>, dryRun: bool, online: bool, lookup: Lookup, confirm: (string, string) -> bool): (r: Report)
    ensures dryRun ==> r.renames == [] && r.logFile.None?
    ensures r.logFile.Some? <==> !dryRun && |r.log| > 0
    ensures r.logFile.Some? ==> r.logFile.value == r.log
  {
    var taken := set e | e in entries :: e.name;
    var run := RunFrom(entries, taken, dryRun, online, lookup, confirm, [], [], []);
    run.(logFile := if !dryRun && |run.log| > 0 then Some(run.log) else None)
  }

  /** A dry run does not always preview the live run. Two folders whose movies get the
      same new name are both logged by the dry run, which renames nothing; the live run
      skips the second folder, because the first one now holds the name. */
  lemma DryRunMissesCollision(confirm: (string, string) -> bool)
    ensures var lookup: Lookup := (s: string) => Some(("Heat", "1995"));
      |RenameStuff(Twins(), true, true, lookup, confirm).log| == 2
      && |RenameStuff(Twins(), false, true, lookup, confirm).log| == 1
  {
    var lookup: Lookup := (s: string) => Some(("Heat", "1995"));
    TwinsDryRun(lookup, confirm);
    TwinsLiveRun(lookup, confirm);
  }

  lemma TwinsDryRun(lookup: Lookup, confirm: (string, string) -> bool)
    requires forall s :: lookup(s) == Some(("Heat", "1995"))
    ensures |RenameStuff(Twins(), true, true, lookup, confirm).log| == 2
  {
    var entries := Twins();
    var taken := set e | e in entries :: e.name;
    assert taken == {"a", "b"};
    TwinPlanned(entries[0], "x.mkv", taken, lookup);
    TwinPlanned(entries[1], "y.mkv", taken, lookup);
  }

  lemma TwinsLiveRun(lookup: Lookup, confirm: (string, string) -> bool)
    requires forall s :: lookup(s) == Some(("Heat", "1995"))
    ensures |RenameStuff(Twins(), false, true, lookup, confirm).log| == 1
  {
    var entries := Twins();
    var taken := set e | e in entries :: e.name;
    assert taken == {"a", "b"};
    TwinPlanned(entries[0], "x.mkv", taken, lookup);
    TwinBlocked(entries[1], "y.mkv", taken - {"a"} + {"Heat (1995)"}, lookup);
  }

  /** Two folders, "a" with x.mkv and "b" with y.mkv. */
  function Twins(): (r: seq<Entry>)
    ensures |r| == 2 && r[0].name != r[1].name
  {
    [Entry("a", Folder(["x.mkv"])), Entry("b", Folder(["y.mkv"]))]
  }

  lemma TwinPlanned(e: Entry, movie: string, taken: set<string>, lookup: Lookup)
    requires e.kind == Folder([movie]) && |e.name| == 1 && movie in {"x.mkv", "y.mkv"}
    requires forall s :: lookup(s) == Some(("Heat", "1995"))
    requires "Heat (1995)" !in taken
    ensures Decide(e, taken, true, lookup) == Planned("Heat (1995)", movie, [])
  {
    TwinMovie(movie);
    TwinName(movie, lookup);
    TwinNotRenamed(e.name);
    var f := (m: string) => NewName(m, true, lookup);
    assert f(movie) == Some("Heat (1995)");
    assert DecideFolder([movie], taken, f) == Planned("Heat (1995)", movie, []);
  }

  lemma TwinBlocked(e: Entry, movie: string, taken: set<string>, lookup: Lookup)
    requires e.kind == Folder([movie]) && |e.name| == 1 && movie in {"x.mkv", "y.mkv"}
    requires forall s :: lookup(s) == Some(("Heat", "1995"))
    requires "Heat (1995)" in taken
    ensures Decide(e, taken, true, lookup) == Skipped(TargetExists)
  {
    TwinMovie(movie);
    TwinName(movie, lookup);
    TwinNotRenamed(e.name);
    var f := (m: string) => NewName(m, true, lookup);
    assert f(movie) == Some("Heat (1995)");
    assert DecideFolder([movie], taken, f) == Skipped(TargetExists);
  }

  lemma TwinNotRenamed(name: string)
    requires |name| == 1
    ensures !IsRenamed(name)
  {
  }

  lemma TwinMovie(movie: string)
    requires movie in {"x.mkv", "y.mkv"}
    ensures LastWhere([movie], IsVideoName) == Some(0)
    ensures Filter([movie], IsSubtitleName) == []
  {
    assert LowerStr(movie) == movie;
  }

  lemma TwinName(movie: string, lookup: Lookup)
    requires forall s :: lookup(s) == Some(("Heat", "1995"))
    ensures NewName(movie, true, lookup) == Some("Heat (1995)")
  {
    var raw := SplitExt(movie).0;
    var q := CleanTitle(raw);
    assert lookup(q) == Some(("Heat", "1995"));
    HeatTitle();
    assert FetchTitle(raw, lookup) == Some("Heat (1995)");
  }

  lemma HeatTitle()
    ensures "Heat" + " (" + "1995" + ")" == "Heat (1995)"
  {
  }

  /** The folder names a run's base-level renames go to, in order. */
  function FolderTargets(renames: seq<Rename>): (r: seq<string>)
    ensures forall t | t in r :: exists q | q in renames :: q.dir == [] && q.to == t
  {
    if |renames| == 0 then []
    else (if renames[0].dir == [] then [renames[0].to] else []) + FolderTargets(renames[1..])
  }

  lemma {:induction false} FolderTargetsAppend(a: seq<Rename>, b: seq<Rename>)
    ensures FolderTargets(a + b) == FolderTargets(a) + FolderTargets(b)
    decreases |a|
  {
    if |a| == 0 {
      assert a + b == b;
    } else {
      assert (a + b)[0] == a[0] && (a + b)[1..] == a[1..] + b;
      FolderTargetsAppend(a[1..], b);
      Associative(if a[0].dir == [] then [a[0].to] else [], FolderTargets(a[1..]), FolderTargets(b));
    }
  }

  predicate Distinct(xs: seq<string>) {
    forall i, j | 0 <= i < j < |xs| :: xs[i] != xs[j]
  }

  function Names(entries: seq<Entry>): (r: seq<string>)
    ensures |r| == |entries| && forall i | 0 <= i < |r| :: r[i] == entries[i].name
  {
    seq(|entries|, i requires 0 <= i < |entries| => entries[i].name)
  }

  /** The renames done for one planned folder name only one folder: the first one. */
  lemma PlannedFolderTargets(name: string, n: string, movie: string, subs: seq<Rename>)
    requires forall q | q in subs :: q.dir == [n]
    ensures FolderTargets([Rename([], name, n), Rename([n], movie, n + Suffix(movie))] + subs) == [n]
  {
    var head := [Rename([], name, n), Rename([n], movie, n + Suffix(movie))];
    FolderTargetsAppend(head, subs);
    NoFolderTargets(subs, n);
    assert head[1..][1..] == [];
  }

  lemma {:induction false} NoFolderTargets(subs: seq<Rename>, n: string)
    requires forall q | q in subs :: q.dir == [n]
    ensures FolderTargets(subs) == []
    decreases |subs|
  {
    if |subs| > 0 {
      assert subs[0] in subs;
      NoFolderTargets(subs[1..], n);
    }
  }

  /** The invariant of a live run: listing names are distinct and still present, and the
      folder targets so far are distinct, present, and not the name of a folder still to
      come. */
  predicate Apart(entries: seq<Entry>, taken: set<string>, renames: seq<Rename>) {
    Distinct(Names(entries))
    && (forall e | e in entries :: e.name in taken)
    && (forall t | t in FolderTargets(renames) :: t in taken && forall e | e in entries :: e.name != t)
    && Distinct(FolderTargets(renames))
  }

  lemma ApartRest(entries: seq<Entry>, taken: set<string>, renames: seq<Rename>)
    requires |entries| > 0 && Apart(entries, taken, renames)
    ensures Apart(entries[1..], taken, renames)
  {
    var rest := entries[1..];
    forall i, j | 0 <= i < j < |rest| ensures Names(rest)[i] != Names(rest)[j] {
      assert Names(entries)[i + 1] == Names(rest)[i] && Names(entries)[j + 1] == Names(rest)[j];
    }
  }

  lemma ApartPlanned(entries: seq<Entry>, taken: set<string>, renames: seq<Rename>, n: string, done: seq<Rename>)
    requires |entries| > 0 && Apart(entries, taken, renames)
    requires n !in taken && FolderTargets(done) == [n]
    ensures Apart(entries[1..], taken - {entries[0].name} + {n}, renames + done)
  {
    var e := entries[0];
    var rest := entries[1..];
    ApartRest(entries, taken, renames);
    forall i | 0 <= i < |rest| ensures rest[i].name != e.name {
      assert Names(entries)[i + 1] == rest[i].name && Names(entries)[0] == e.name;
    }
    FolderTargetsAppend(renames, done);
    var targets := FolderTargets(renames);
    assert FolderTargets(renames + done) == targets + [n];
    assert n !in targets;
  }

  /** In a live run no two folders are renamed to the same name: every target is checked
      against the names present at that moment, and each rename adds its target to them. */
  lemma {:induction false} LiveTargetsStayApart(entries: seq<Entry>, taken: set<string>, online: bool, lookup: Lookup,
                                                 confirm: (string, string) -> bool, log: seq<string>, renames: seq<Rename>, queries: seq<string>)
    requires Apart(entries, taken, renames)
    ensures Distinct(FolderTargets(RunFrom(entries, taken, false, online, lookup, confirm, log, renames, queries).renames))
    decreases |entries|
  {
    if |entries| > 0 {
      var e := entries[0];
      var queries' := queries + match Query(e, online) case None => [] case Some(q) => [q];
      match Decide(e, taken, online, lookup)
      case Skipped(_) =>
        ApartRest(entries, taken, renames);
        LiveTargetsStayApart(entries[1..], taken, online, lookup, confirm, log, renames, queries');
      case Planned(n, movie, subs) =>
        var subRenames := SubtitleRenames(n, subs, |subs| > 1, confirm);
        var done := [Rename([], e.name, n), Rename([n], movie, n + Suffix(movie))] + subRenames;
        PlannedFolderTargets(e.name, n, movie, subRenames);
        ApartPlanned(entries, taken, renames, n, done);
        LiveTargetsStayApart(entries[1..], taken - {e.name} + {n}, online, lookup, confirm,
                             log + [e.name + " -> " + n], renames + done, queries');
        LivePlannedStep(entries, taken, online, lookup, confirm, log, renames, queries, n, movie, subs);
    }
  }

  /** One planned folder of a live run: its renames are added and its target joins the
      names present. */
  lemma LivePlannedStep(entries: seq<Entry>, taken: set<string>, online: bool, lookup: Lookup,
                        confirm: (string, string) -> bool, log: seq<string>, renames: seq<Rename>, queries: seq<string>,
                        n: string, movie: string, subs: seq<string>)
    requires |entries| > 0 && Decide(entries[0], taken, online, lookup) == Planned(n, movie, subs)
    ensures var e := entries[0];
      var queries' := queries + match Query(e, online) case None => [] case Some(q) => [q];
      var done := [Rename([], e.name, n), Rename([n], movie, n + Suffix(movie))] + SubtitleRenames(n, subs, |subs| > 1, confirm);
      RunFrom(entries, taken, false, online, lookup, confirm, log, renames, queries).renames
      == RunFrom(entries[1..], taken - {e.name} + {n}, false, online, lookup, confirm,
                 log + [e.name + " -> " + n], renames + done, queries').renames
  {
  }

  /** A base-level rename a followed by the movie rename b inside the renamed folder: a
      folder of the listing that did not look renamed goes to the new name of its last
      video, and that video then takes the folder's new name plus its own extension. */
  ghost predicate MovieStep(entries: seq<Entry>, namer: string -> Option<string>, a: Rename, b: Rename) {
    b.dir == [a.to] && b.to == a.to + Suffix(b.from)
    && namer(b.from) == Some(a.to)
    && exists e | e in entries ::
         e.name == a.from && e.kind.Folder? && !IsRenamed(e.name)
         && var k := LastWhere(e.kind.files, IsVideoName); k.Some? && e.kind.files[k.value] == b.from
  }

  /** Every base-level rename is a planned folder's, and its movie rename comes right
      after it. */
  ghost predicate LiveShape(entries: seq<Entry>, namer: string -> Option<string>, rs: seq<Rename>) {
    forall i | 0 <= i < |rs| && rs[i].dir == [] :: i + 1 < |rs| && MovieStep(entries, namer, rs[i], rs[i + 1])
  }

  lemma ShapeAppend(entries: seq<Entry>, namer: string -> Option<string>, a: seq<Rename>, b: seq<Rename>)
    requires LiveShape(entries, namer, a) && LiveShape(entries, namer, b)
    ensures LiveShape(entries, namer, a + b)
  {
    forall i | 0 <= i < |a + b| && (a + b)[i].dir == []
      ensures i + 1 < |a + b| && MovieStep(entries, namer, (a + b)[i], (a + b)[i + 1])
    {
      if i < |a| {
        assert (a + b)[i] == a[i] && (a + b)[i + 1] == a[i + 1];
      } else {
        assert (a + b)[i] == b[i - |a|] && (a + b)[i + 1] == b[i - |a| + 1];
      }
    }
  }

  /** What holds of a rename for the listing after its first entry holds for the whole
      listing. */
  lemma ShapeWiden(entries: seq<Entry>, namer: string -> Option<string>, rs: seq<Rename>)
    requires |entries| > 0 && LiveShape(entries[1..], namer, rs)
    ensures LiveShape(entries, namer, rs)
  {
    forall i | 0 <= i < |rs| && rs[i].dir == []
      ensures i + 1 < |rs| && MovieStep(entries, namer, rs[i], rs[i + 1])
    {
      var e :| e in entries[1..] && e.name == rs[i].from && e.kind.Folder? && !IsRenamed(e.name)
        && var k := LastWhere(e.kind.files, IsVideoName); k.Some? && e.kind.files[k.value] == rs[i + 1].from;
      assert e in entries;
    }
  }

  /** The renames of one planned folder have that shape. */
  lemma PlannedShape(entries: seq<Entry>, taken: set<string>, online: bool, lookup: Lookup,
                     confirm: (string, string) -> bool, n: string, movie: string, subs: seq<string>)
    requires |entries| > 0 && Decide(entries[0], taken, online, lookup) == Planned(n, movie, subs)
    ensures var e := entries[0];
      LiveShape(entries, Namer(online, lookup),
                [Rename([], e.name, n), Rename([n], movie, n + Suffix(movie))] + SubtitleRenames(n, subs, |subs| > 1, confirm))
  {
    var e := entries[0];
    PlannedMovieStep(entries, taken, online, lookup, n, movie, subs);
    DoneShape(entries, Namer(online, lookup), Rename([], e.name, n), Rename([n], movie, n + Suffix(movie)),
              SubtitleRenames(n, subs, |subs| > 1, confirm));
  }

  /** A folder rename, its movie rename, and renames inside folders. */
  lemma DoneShape(entries: seq<Entry>, namer: string -> Option<string>, a: Rename, b: Rename, rest: seq<Rename>)
    requires MovieStep(entries, namer, a, b) && b.dir != []
    requires forall q | q in rest :: q.dir != []
    ensures LiveShape(entries, namer, [a, b] + rest)
  {
    assert [a, b][0] == a && [a, b][1] == b;
    assert LiveShape(entries, namer, [a, b]);
    assert forall i | 0 <= i < |rest| :: rest[i] in rest;
    ShapeAppend(entries, namer, [a, b], rest);
  }

  lemma PlannedMovieStep(entries: seq<Entry>, taken: set<string>, online: bool, lookup: Lookup,
                         n: string, movie: string, subs: seq<string>)
    requires |entries| > 0 && Decide(entries[0], taken, online, lookup) == Planned(n, movie, subs)
    ensures MovieStep(entries, Namer(online, lookup), Rename([], entries[0].name, n), Rename([n], movie, n + Suffix(movie)))
  {
    var e := entries[0];
    PlannedFacts(e, taken, online, lookup, n, movie, subs);
    assert e in entries;
  }

  /** What a planned decision says about the folder. */
  lemma PlannedFacts(e: Entry, taken: set<string>, online: bool, lookup: Lookup, n: string, movie: string, subs: seq<string>)
    requires Decide(e, taken, online, lookup) == Planned(n, movie, subs)
    ensures e.kind.Folder? && !IsRenamed(e.name)
    ensures Namer(online, lookup)(movie) == Some(n)
    ensures var k := LastWhere(e.kind.files, IsVideoName); k.Some? && e.kind.files[k.value] == movie
  {
  }

  /** In a live run, the renames added from any point on have that shape. */
  lemma {:induction false} LiveRunFromShape(entries: seq<Entry>, taken: set<string>, online: bool, lookup: Lookup,
                                             confirm: (string, string) -> bool, log: seq<string>, renames: seq<Rename>, queries: seq<string>)
    ensures var r := RunFrom(entries, taken, false, online, lookup, confirm, log, renames, queries);
      renames <= r.renames && LiveShape(entries, Namer(online, lookup), r.renames[|renames|..])
    decreases |entries|
  {
    var r := RunFrom(entries, taken, false, online, lookup, confirm, log, renames, queries);
    if |entries| == 0 {
      assert r.renames[|renames|..] == [];
    } else {
      var e := entries[0];
      var queries' := queries + match Query(e, online) case None => [] case Some(q) => [q];
      match Decide(e, taken, online, lookup)
      case Skipped(_) =>
        LiveRunFromShape(entries[1..], taken, online, lookup, confirm, log, renames, queries');
        ShapeWiden(entries, Namer(online, lookup), r.renames[|renames|..]);
      case Planned(n, movie, subs) =>
        var done := [Rename([], e.name, n), Rename([n], movie, n + Suffix(movie))] + SubtitleRenames(n, subs, |subs| > 1, confirm);
        LivePlannedStep(entries, taken, online, lookup, confirm, log, renames, queries, n, movie, subs);
        LiveRunFromShape(entries[1..], taken - {e.name} + {n}, online, lookup, confirm,
                         log + [e.name + " -> " + n], renames + done, queries');
        PlannedShape(entries, taken, online, lookup, confirm, n, movie, subs);
        ShapeCombine(entries, Namer(online, lookup), renames, done, r.renames);
    }
  }

  /** The renames of the first folder, then those of the folders after it. */
  lemma ShapeCombine(entries: seq<Entry>, namer: string -> Option<string>, renames: seq<Rename>, done: seq<Rename>, all: seq<Rename>)
    requires |entries| > 0 && renames + done <= all
    requires LiveShape(entries, namer, done) && LiveShape(entries[1..], namer, all[|renames + done|..])
    ensures renames <= all && LiveShape(entries, namer, all[|renames|..])
  {
    var tail := all[|renames + done|..];
    ShapeWiden(entries, namer, tail);
    ShapeAppend(entries, namer, done, tail);
    assert all[|renames|..] == done + tail;
  }

  /** A whole live run: every folder rename is a planned folder going to its movie's new
      name, and is followed at once by the rename of that movie inside it. */
  lemma LiveRunShape(entries: seq<Entry>, online: bool, lookup: Lookup, confirm: (string, string) -> bool)
    ensures LiveShape(entries, Namer(online, lookup), RenameStuff(entries, false, online, lookup, confirm).renames)
  {
    var taken := set e | e in entries :: e.name;
    LiveRunFromShape(entries, taken, online, lookup, confirm, [], [], []);
    var r := RunFrom(entries, taken, false, online, lookup, confirm, [], [], []);
    assert r.renames[0..] == r.renames;
  }

  /** So a whole live run never sends two folders to the same name. */
  lemma LiveRunTargetsDistinct(entries: seq<Entry>, online: bool, lookup: Lookup, confirm: (string, string) -> bool)
    requires Distinct(Names(entries))
    ensures Distinct(FolderTargets(RenameStuff(entries, false, online, lookup, confirm).renames))
  {
    var taken := set e | e in entries :: e.name;
    assert FolderTargets([]) == [];
    LiveTargetsStayApart(entries, taken, online, lookup, confirm, [], [], []);
  }
}
