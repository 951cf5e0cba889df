/** What the folder-renaming scripts see and do: a directory listing, the choice of movie
    and subtitle inside a folder, and the renames that follow. The listing order is
    whatever os.listdir returned; it is an input here. */
module Listing {
  import opened Wrappers
  import opened Text
  import opened Paths
  import opened Canonical

  /** The kind os.path.isdir / os.path.isfile report for an entry. A folder carries the
      names its own listing returns. */
  datatype Kind = Folder(files: seq<string>) | RegularFile | Other

  datatype Entry = Entry(name: string, kind: Kind)

  /** os.rename of `from` to `to`, both inside the directory reached from the base
      directory through the folder names `dir`. */
  datatype Rename = Rename(dir: seq<string>, from: string, to: string)

  /** One directory as os.walk reports it: the folder names leading to it from the base
      directory, and the names of the files in it. */
  datatype WalkDir = WalkDir(path: seq<string>, files: seq<string>)

  /** The last position whose name satisfies p: what a loop that overwrites a variable on
      every hit leaves behind. */
  function LastWhere(files: seq<string>, p: string -> bool): (r: Option<nat>)
    ensures r.Some? ==> r.value < |files| && p(files[r.value])
    ensures r.Some? ==> forall k | r.value < k < |files| :: !p(files[k])
    ensures r.None? <==> forall k | 0 <= k < |files| :: !p(files[k])
  {
    if |files| == 0 then None
    else if p(files[|files| - 1]) then Some(|files| - 1)
    else LastWhere(files[..|files| - 1], p)
  }

  /** The first position whose name satisfies p: what a loop that stops at the first hit
      with `break` finds. */
  function FirstWhere(files: seq<string>, p: string -> bool): (r: Option<nat>)
    ensures r.Some? ==> r.value < |files| && p(files[r.value])
    ensures r.Some? ==> forall k | 0 <= k < r.value :: !p(files[k])
    ensures r.None? <==> forall k | 0 <= k < |files| :: !p(files[k])
  {
    if |files| == 0 then None
    else if p(files[0]) then Some(0)
    else match FirstWhere(files[1..], p)
      case None => None
      case Some(k) => Some(k + 1)
  }

  /** The names satisfying p, in listing order. */
  function Filter(files: seq<string>, p: string -> bool): (r: seq<string>)
    ensures forall k | 0 <= k < |r| :: p(r[k])
    ensures forall f | f in r :: f in files
    ensures forall f | f in files && p(f) :: f in r
    ensures |r| <= |files|
  {
    if |files| == 0 then []
    else (if p(files[0]) then [files[0]] else []) + Filter(files[1..], p)
  }

  /** Filtering a listing in two parts is filtering each part, the first part's hits
      first: together with FilterOne this fixes the order and the multiplicity of the
      result. */
  lemma {:induction false} FilterAppend(a: seq<string>, b: seq<string>, p: string -> bool)
    ensures Filter(a + b, p) == Filter(a, p) + Filter(b, p)
  {
    if |a| > 0 {
      assert (a + b)[0] == a[0] && (a + b)[1..] == a[1..] + b;
      FilterAppend(a[1..], b, p);
    } else {
      assert a + b == b;
    }
  }

  /** One step of the filter: the first name, if kept, then the filtered rest. */
  lemma FilterCons(files: seq<string>, p: string -> bool)
    requires |files| > 0
    ensures Filter(files, p) == (if p(files[0]) then [files[0]] else []) + Filter(files[1..], p)
  {
  }

  /** A single name is kept exactly when it satisfies p. */
  lemma FilterOne(f: string, p: string -> bool)
    ensures Filter([f], p) == if p(f) then [f] else []
  {
    assert [f][1..] == [];
  }

  /** What a folder pass decides for one folder: its new name, the movie file and the
      subtitle file (if any) that go with it. */
  datatype FolderPlan = FolderPlan(cleaned: string, movie: string, subtitle: Option<string>)

  /** The renames a folder pass performs for a planned folder, in order: the folder
      itself, then the movie inside the renamed folder, then the subtitle. */
  function FolderRenames(folder: string, p: FolderPlan): (r: seq<Rename>)
    ensures |r| == if p.subtitle.Some? then 3 else 2
    ensures r[0].dir == [] && r[0].from == folder && r[0].to == p.cleaned
    ensures forall k | 1 <= k < |r| :: r[k].dir == [p.cleaned]
    ensures r[1].from == p.movie && r[1].to == p.cleaned + Suffix(p.movie)
    ensures p.subtitle.Some? ==> r[2].from == p.subtitle.value && r[2].to == p.cleaned + ".srt"
  {
    [Rename([], folder, p.cleaned), Rename([p.cleaned], p.movie, p.cleaned + Suffix(p.movie))]
    + match p.subtitle
      case None => []
      case Some(sub) => [Rename([p.cleaned], sub, p.cleaned + ".srt")]
  }

  /** A folder pass over the base listing: the planned folders' renames, folder after
      folder in listing order; folders without a plan contribute nothing. */
  function FolderPass(entries: seq<Entry>, plan: Entry -> Option<FolderPlan>): (r: seq<Rename>)
    ensures forall q | q in r && q.dir == [] ::
      exists e | e in entries :: plan(e).Some? && q.from == e.name && q.to == plan(e).value.cleaned
    ensures forall e | e in entries && plan(e).Some? :: Rename([], e.name, plan(e).value.cleaned) in r
    ensures (forall e | e in entries :: plan(e).None?) ==> r == []
  {
    if |entries| == 0 then []
    else
      var e := entries[0];
      (match plan(e) case None => [] case Some(p) => FolderRenames(e.name, p))
      + FolderPass(entries[1..], plan)
  }

  /** A pass over a listing in two parts is the pass over the first part followed by the
      pass over the second: folders are handled in listing order. */
  lemma {:induction false} FolderPassAppend(a: seq<Entry>, b: seq<Entry>, plan: Entry -> Option<FolderPlan>)
    ensures FolderPass(a + b, plan) == FolderPass(a, plan) + FolderPass(b, plan)
  {
    if |a| > 0 {
      assert (a + b)[0] == a[0] && (a + b)[1..] == a[1..] + b;
      FolderPassAppend(a[1..], b, plan);
      var h := match plan(a[0]) case None => [] case Some(p) => FolderRenames(a[0].name, p);
      Associative(h, FolderPass(a[1..], plan), FolderPass(b, plan));
    } else {
      assert a + b == b;
    }
  }

  /** One folder: its renames (folder, movie, subtitle) when it is planned, nothing
      otherwise. */
  lemma FolderPassOne(e: Entry, plan: Entry -> Option<FolderPlan>)
    ensures FolderPass([e], plan) == match plan(e) case None => [] case Some(p) => FolderRenames(e.name, p)
  {
    assert [e][1..] == [];
  }

  /** The renamed movie file keeps its extension, and the subtitle gets ".srt", as long as
      the cleaned name is non-empty and dot-free (which every cleaner guarantees for dots). */
  lemma TargetsKeepExtension(folder: string, p: FolderPlan)
    requires |p.cleaned| > 0 && '.' !in p.cleaned
    ensures var r := FolderRenames(folder, p);
      Suffix(r[1].to) == Suffix(p.movie) && Stem(r[1].to) == p.cleaned
      && (p.subtitle.Some? ==> Suffix(r[2].to) == ".srt" && Stem(r[2].to) == p.cleaned)
  {
    StemSuffix(p.movie);
    RenameKeepsSuffix(p.cleaned, Suffix(p.movie));
    RenameKeepsSuffix(p.cleaned, ".srt");
  }

  /** A video file name never has the canonical folder shape: it ends in a letter or a
      digit of its extension, not in ")". */
  lemma VideoNameNotRenamed(name: string)
    requires IsVideoName(name)
    ensures !IsRenamed(name)
  {
    var low := LowerStr(name);
    assert low[|low| - 1] == Lower(name[|name| - 1]);
    assert low[|low| - 1] in {'v', '4', 'i'};
  }

  /** The folder step of the three subtitle-aware scripts: a folder whose name already has
      the canonical shape is skipped; otherwise the last video file in its listing becomes
      the movie, the last ".srt" file the subtitle, and the new name is the movie name
      cleaned. A folder without a video file is left alone. */
  function GuardedPlan(e: Entry, clean: string -> string): (r: Option<FolderPlan>)
    ensures r.Some? <==> e.kind.Folder? && !IsRenamed(e.name) && exists k | 0 <= k < |e.kind.files| :: IsVideoName(e.kind.files[k])
    ensures r.Some? ==>
      var files := e.kind.files;
      var m := LastWhere(files, IsVideoName).value;
      r.value.movie == files[m] && r.value.cleaned == clean(files[m])
      && (r.value.subtitle.Some? <==> exists k | 0 <= k < |files| :: IsSubtitleName(files[k]))
      && (r.value.subtitle.Some? ==> r.value.subtitle.value == files[LastWhere(files, IsSubtitleName).value])
  {
    if !e.kind.Folder? || IsRenamed(e.name) then None
    else
      var files := e.kind.files;
      match LastWhere(files, IsVideoName)
      case None => None
      case Some(m) =>
        var sub := match LastWhere(files, IsSubtitleName)
          case None => None
          case Some(k) => Some(files[k]);
        Some(FolderPlan(clean(files[m]), files[m], sub))
  }

  /** The folder step of rename_movies_basic.py: no canonical-name guard, the first video
      file in the listing is the movie, and subtitles are not handled. */
  function FirstVideoPlan(e: Entry, clean: string -> string): (r: Option<FolderPlan>)
    ensures r.Some? <==> e.kind.Folder? && exists k | 0 <= k < |e.kind.files| :: IsVideoName(e.kind.files[k])
    ensures r.Some? ==>
      var files := e.kind.files;
      var m := FirstWhere(files, IsVideoName).value;
      r.value.movie == files[m] && r.value.cleaned == clean(files[m]) && r.value.subtitle.None?
  {
    if !e.kind.Folder? then None
    else match FirstWhere(e.kind.files, IsVideoName)
      case None => None
      case Some(m) => Some(FolderPlan(clean(e.kind.files[m]), e.kind.files[m], None))
  }

  /** The loose-file step: every regular video file in the base directory is renamed to
      its cleaned name followed by its own extension, with no guard of any kind. */
  function LoosePass(entries: seq<Entry>, clean: string -> string): (r: seq<Rename>)
    ensures forall q | q in r :: q.dir == []
    ensures forall q | q in r ::
      exists e | e in entries :: e.kind.RegularFile? && IsVideoName(e.name) && q.from == e.name && q.to == clean(e.name) + Suffix(e.name)
    ensures forall e | e in entries && e.kind.RegularFile? && IsVideoName(e.name) ::
      Rename([], e.name, clean(e.name) + Suffix(e.name)) in r
    ensures |r| <= |entries|
  {
    if |entries| == 0 then []
    else
      var e := entries[0];
      (if e.kind.RegularFile? && IsVideoName(e.name) then [Rename([], e.name, clean(e.name) + Suffix(e.name))] else [])
      + LoosePass(entries[1..], clean)
  }
}
