/** rename_movies.py: a cleaner that works on the name without its extension and removes
    all tags in one alternation, the choice of the best-scoring search result, and the
    two-phase rename (through a temporary name) of every media file in a tree. */
module Movies {
  import opened Wrappers
  import opened Text
  import opened WholeWord
  import opened WordList
  import opened Keywords
  import opened Paths
  import opened Listing

  /** re.sub(r'^backup_+', '', name): one leading "backup" together with the run of
      underscores after it. */
  function StripBackup(name: string): (r: string)
    ensures |name| >= 7 && name[..7] == "backup_" ==>
      |r| < |name| - 6 && r == name[|name| - |r|..]
      && (forall i | 6 <= i < |name| - |r| :: name[i] == '_')
      && (|r| == 0 || r[0] != '_')
    ensures !(|name| >= 7 && name[..7] == "backup_") ==> r == name
  {
    if |name| >= 7 && name[..7] == "backup_" then
      var r := DropUnderscores(name[6..]);
      assert name[6] == name[..7][6];
      UnderscoreTail(name, r);
      r
    else name
  }

  /** What DropUnderscores says about the text after "backup", said about the whole name. */
  lemma UnderscoreTail(name: string, r: string)
    requires |name| >= 7 && name[6] == '_'
    requires |r| <= |name| - 6 && r == name[6..][|name| - 6 - |r|..]
    requires |r| == 0 || r[0] != '_'
    requires forall i | 0 <= i < |name| - 6 - |r| :: name[6..][i] == '_'
    ensures |r| < |name| - 6 && r == name[|name| - |r|..]
    ensures forall i | 6 <= i < |name| - |r| :: name[i] == '_'
  {
    var t := name[6..];
    forall i | 6 <= i < |name| - |r| ensures name[i] == '_' {
      assert t[i - 6] == name[i];
    }
  }

  /** The name without its leading underscores. */
  function DropUnderscores(s: string): (r: string)
    ensures |r| <= |s| && r == s[|s| - |r|..]
    ensures |r| == 0 || r[0] != '_'
    ensures forall i | 0 <= i < |s| - |r| :: s[i] == '_'
  {
    if |s| > 0 && s[0] == '_' then DropUnderscores(s[1..]) else s
  }

  const Brackets: set<char> := {'[', ']', '(', ')', '{', '}'}

  /** The first steps of clean_title: extension, "backup_" prefix and brackets gone,
      separators turned into spaces, spacing normalised. */
  function Spaced(filename: string): (r: string)
    ensures forall c | c in Brackets :: c !in r
    ensures '.' !in r && '_' !in r && '-' !in r
    ensures Trimmed(r) && SingleSpaced(r)
    ensures Visible(r) == Delete(Visible(StripBackup(SplitExt(filename).0)), Brackets + {'.', '_', '-'})
    ensures Words(r) == Words(SpaceOut(Delete(StripBackup(SplitExt(filename).0), Brackets), {'.', '_', '-'}))
  {
    var name := StripBackup(SplitExt(filename).0);
    var d := Delete(name, Brackets);
    var r := Separate(d);
    SeparatedVisible(name, r);
    r
  }

  lemma SeparatedVisible(name: string, r: string)
    requires Visible(r) == Delete(Visible(Delete(name, Brackets)), {'.', '_', '-'})
    ensures Visible(r) == Delete(Visible(name), Brackets + {'.', '_', '-'})
  {
    BracketsAreVisible();
    DeleteThenVisible(name, Brackets, {'.', '_', '-'}, r);
  }

  lemma BracketsAreVisible()
    ensures forall c | c in Brackets :: !IsSpace(c)
  {
  }

  /** A bracket-free name with its separators turned into spaces and its spacing
      normalised. */
  function Separate(name: string): (r: string)
    requires forall c | c in Brackets :: c !in name
    ensures forall c | c in Brackets :: c !in r
    ensures '.' !in r && '_' !in r && '-' !in r
    ensures Trimmed(r) && SingleSpaced(r)
    ensures Visible(r) == Delete(Visible(name), {'.', '_', '-'})
    ensures Words(r) == Words(SpaceOut(name, {'.', '_', '-'}))
  {
    var spaced := SpaceOut(name, {'.', '_', '-'});
    var r := Normalize(spaced);
    SeparateFacts(name, spaced, r);
    r
  }

  lemma SeparateFacts(name: string, spaced: string, r: string)
    requires forall c | c in Brackets :: c !in name
    requires spaced == SpaceOut(name, {'.', '_', '-'}) && r == Normalize(spaced)
    ensures forall c | c in Brackets :: c !in r
    ensures '.' !in r && '_' !in r && '-' !in r
    ensures Visible(r) == Delete(Visible(name), {'.', '_', '-'})
    ensures Words(r) == Words(spaced)
  {
    SeparateChars(name, spaced, r);
    NormalizeKeepsWords(spaced);
  }

  lemma SeparateChars(name: string, spaced: string, r: string)
    requires forall c | c in Brackets :: c !in name
    requires spaced == SpaceOut(name, {'.', '_', '-'}) && r == Normalize(spaced)
    ensures forall c | c in Brackets :: c !in r
    ensures forall c | c in {'.', '_', '-'} :: c !in r
    ensures Visible(r) == Delete(Visible(name), {'.', '_', '-'})
  {
    SeparateAvoids(name, spaced, r);
    SeparateVisible(name, spaced, r);
  }

  lemma SeparateAvoids(name: string, spaced: string, r: string)
    requires forall c | c in Brackets :: c !in name
    requires spaced == SpaceOut(name, {'.', '_', '-'}) && r == Normalize(spaced)
    ensures forall c | c in Brackets :: c !in r
    ensures forall c | c in {'.', '_', '-'} :: c !in r
  {
    SpaceOutAvoids(name, spaced);
    NormalizeAvoids(spaced, Brackets);
    NormalizeAvoids(spaced, {'.', '_', '-'});
  }

  lemma SeparateVisible(name: string, spaced: string, r: string)
    requires spaced == SpaceOut(name, {'.', '_', '-'}) && r == Normalize(spaced)
    ensures Visible(r) == Delete(Visible(name), {'.', '_', '-'})
  {
    assert forall c | c in {'.', '_', '-'} :: !IsSpace(c);
    VisibleSpaceOut(name, {'.', '_', '-'});
  }

  lemma SpaceOutAvoids(name: string, spaced: string)
    requires forall c | c in Brackets :: c !in name
    requires spaced == SpaceOut(name, {'.', '_', '-'})
    ensures forall c | c in Brackets :: c !in spaced
    ensures forall c | c in {'.', '_', '-'} :: c !in spaced
  {
    forall c | c in Brackets ensures c !in spaced {
      assert c != ' ' && c !in name;
    }
  }

  /** clean_title(filename): the tags are removed from the spaced name in one pass of the
      alternation, and the spacing is normalised again. */
  function CleanTitle(filename: string): (r: string)
    ensures forall c | c in Brackets :: c !in r
    ensures '.' !in r && '_' !in r && '-' !in r
    ensures Trimmed(r) && SingleSpaced(r)
  {
    var spaced := Spaced(filename);
    SubChars(spaced, Tags);
    Normalize(Sub(spaced, Tags))
  }

  /** clean_title keeps exactly the words of the spaced name that are no tag, in their
      order: a tag goes only as a whole word, in any case, and every other word stays. */
  lemma CleanTitleWords(filename: string)
    ensures Words(CleanTitle(filename)) == Untagged(Words(Spaced(filename)), Tags)
    ensures Words(CleanTitle(filename)) ==
      Untagged(Words(SpaceOut(Delete(StripBackup(SplitExt(filename).0), Brackets), {'.', '_', '-'})), Tags)
  {
    var spaced := Spaced(filename);
    TagsMatchAsWords(spaced);
    SubWords(spaced, Tags);
    NormalizeKeepsWords(Sub(spaced, Tags));
  }

  /** No tag is left anywhere in clean_title's result, not even one that the deletions
      could have brought together. */
  lemma CleanTitleHasNoTag(filename: string)
    ensures forall k, j | 0 <= k < |Tags| :: !MatchAt(CleanTitle(filename), Tags[k], j)
  {
    var r := CleanTitle(filename);
    CleanTitleWords(filename);
    forall k, j | 0 <= k < |Tags| ensures !MatchAt(r, Tags[k], j) {
      TagWordOrInert(r, k, j);
      if AllWordChars(Tags[k]) {
        NoAltMatch(r, Tags, k, j);
      }
    }
  }

  /** On a name without '-' and '.', only tags made of word characters can match. */
  lemma TagsMatchAsWords(s: string)
    requires '-' !in s && '.' !in s
    ensures WordAlts(s, Tags)
  {
    forall q, j | 0 <= q < |Tags| && MatchAt(s, Tags[q], j) ensures AllWordChars(Tags[q]) {
      TagWordOrInert(s, q, j);
    }
  }

  lemma TagWordOrInert(s: string, q: nat, j: int)
    requires '-' !in s && '.' !in s && q < |Tags|
    ensures AllWordChars(Tags[q]) || !MatchAt(s, Tags[q], j)
  {
    ListSizes();
    TagsAreWords();
    DashAndDotTagsInert(s, j);
  }

  /** Every tag is made of word characters, except "WEB-DL", "AAC5.1" and "DDP5.1". */
  lemma TagsAreWords()
    ensures forall k | 0 <= k < |Tags| && k != 2 && k != 11 && k != 24 :: AllWordChars(Tags[k])
  {
    var t := Tags;
    assert forall k | 0 <= k < 2 :: AllWordChars(t[k]);
    assert forall k | 3 <= k < 11 :: AllWordChars(t[k]);
    assert forall k | 12 <= k < 24 :: AllWordChars(t[k]);
    assert forall k | 25 <= k < 27 :: AllWordChars(t[k]);
  }

  /** Only one "backup" goes: a doubled prefix leaves the second one in place. */
  lemma BackupStrippedOnce(t: string)
    ensures StripBackup("backup_backup_" + t) == "backup_" + t
  {
    var name := "backup_backup_" + t;
    assert name[..7] == "backup_";
    assert name[6..] == "_" + ("backup_" + t);
    assert DropUnderscores(name[6..][1..]) == "backup_" + t;
  }

  /** ... so the cleaned title still begins with "backup". */
  /** A separator is a word break: "a.b.mkv" is spaced to "a b", two words, not "ab". */
  lemma SeparatorSplitsWords()
    ensures Spaced("a.b.mkv") == "a b"
    ensures Words(Spaced("a.b.mkv")) == ["a", "b"]
  {
    DottedStem();
    DottedKept();
    DottedSeparators();
    DottedNormal();
    SpacedSteps("a.b.mkv", "a.b", "a.b", "a b", "a b");
    DottedWords();
  }

  lemma DottedStem()
    ensures SplitExt("a.b.mkv").0 == "a.b"
  {
    var name := "a.b.mkv";
    RFindIs(name, '.', 3);
    assert name[0] != '.';
    assert name[..3] == "a.b";
  }

  lemma DottedKept()
    ensures Delete(StripBackup("a.b"), Brackets) == "a.b"
  {
    var s := "a.b";
    assert StripBackup(s) == s;
    assert forall i | 0 <= i < |s| :: s[i] != '[' && s[i] != ']' && s[i] != '(' && s[i] != ')' && s[i] != '{' && s[i] != '}';
    DeleteAbsent(s, Brackets);
  }

  lemma DottedSeparators()
    ensures SpaceOut("a.b", {'.', '_', '-'}) == "a b"
  {
    var r := SpaceOut("a.b", {'.', '_', '-'});
    assert forall i | 0 <= i < |r| :: r[i] == "a b"[i];
  }

  lemma DottedNormal()
    ensures Normalize("a b") == "a b"
  {
    assert SingleSpaced("a b") && Trimmed("a b");
    CollapseFixesSingleSpaced("a b");
  }

  lemma DottedWords()
    ensures Words("a b") == ["a", "b"]
  {
    assert "a b" == "a" + " b";
    WordsAppend("a", " b");
    OneWord("a");
    NonWordCons(' ', "b");
    assert " b" == [' '] + "b";
    OneWord("b");
  }

  lemma DoubleBackupExample()
    ensures CleanTitle("backup_backup_Heat.mkv") == "backup Heat"
  {
    DoubleBackupSpaced();
    DoubleBackupUntagged();
    BackupHeatNormal();
  }

  // The steps of DoubleBackupExample follow, one literal fact per lemma: the solver
  // unfolds a literal name only a few steps deep, so each stage is proved on its own.

  lemma DoubleBackupSpaced()
    ensures Spaced("backup_backup_Heat.mkv") == "backup Heat"
  {
    DoubleBackupStem();
    DoubleBackupStripped();
    NoBracketsInBackupHeat();
    BackupHeatSeparators();
    BackupHeatNormal();
    SpacedSteps("backup_backup_Heat.mkv", "backup_backup_Heat", "backup_Heat", "backup Heat", "backup Heat");
  }

  lemma DoubleBackupStripped()
    ensures StripBackup("backup_backup_Heat") == "backup_Heat"
  {
    BackupStrippedOnce("Heat");
    JoinBackupHeat();
  }

  /** Spaced, step by step. */
  lemma SpacedSteps(filename: string, stem: string, name: string, spaced: string, r: string)
    requires SplitExt(filename).0 == stem
    requires Delete(StripBackup(stem), Brackets) == name
    requires SpaceOut(name, {'.', '_', '-'}) == spaced
    requires Normalize(spaced) == r
    ensures Spaced(filename) == r
  {
  }

  lemma DoubleBackupStem()
    ensures SplitExt("backup_backup_Heat.mkv").0 == "backup_backup_Heat"
  {
    var name := "backup_backup_Heat.mkv";
    RFindIs(name, '.', 18);
    assert name[0] != '.';
    assert name[..18] == "backup_backup_Heat";
  }

  lemma JoinBackupHeat()
    ensures "backup_backup_" + "Heat" == "backup_backup_Heat" && "backup_" + "Heat" == "backup_Heat"
  {
  }

  lemma NoBracketsInBackupHeat()
    ensures Delete("backup_Heat", Brackets) == "backup_Heat"
  {
    var s := "backup_Heat";
    assert forall i | 0 <= i < |s| :: s[i] != '[' && s[i] != ']' && s[i] != '(' && s[i] != ')' && s[i] != '{' && s[i] != '}';
    DeleteAbsent(s, Brackets);
  }

  lemma BackupHeatSeparators()
    ensures SpaceOut("backup_Heat", {'.', '_', '-'}) == "backup Heat"
  {
    var r := SpaceOut("backup_Heat", {'.', '_', '-'});
    assert forall i | 0 <= i < |r| :: r[i] == "backup Heat"[i];
  }

  lemma BackupHeatNormal()
    ensures Normalize("backup Heat") == "backup Heat"
  {
    assert SingleSpaced("backup Heat") && Trimmed("backup Heat");
    CollapseFixesSingleSpaced("backup Heat");
  }

  lemma DoubleBackupUntagged()
    ensures Sub("backup Heat", Tags) == "backup Heat"
  {
    assert Within("backup Heat", BackupHeatChars);
    TagsOutsideBackupHeatA();
    TagsOutsideBackupHeatB();
    TagsOutsideBackupHeatC();
    SubInert("backup Heat", Tags, BackupHeatChars);
  }

  const BackupHeatChars: set<char> := {'b', 'a', 'c', 'k', 'u', 'p', ' ', 'h', 'e', 't'}

  lemma TagsOutsideBackupHeatA()
    ensures forall k | 0 <= k < 9 :: Outside(Tags[k], BackupHeatChars)
  {
  }

  lemma TagsOutsideBackupHeatB()
    ensures forall k | 9 <= k < 18 :: Outside(Tags[k], BackupHeatChars)
  {
  }

  lemma TagsOutsideBackupHeatC()
    ensures forall k | 18 <= k < |Tags| :: Outside(Tags[k], BackupHeatChars)
  {
  }

  /** Deleting characters that do not occur changes nothing. */
  lemma {:induction false} DeleteAbsent(s: string, cs: set<char>)
    requires forall i | 0 <= i < |s| :: s[i] !in cs
    ensures Delete(s, cs) == s
  {
    if |s| > 0 {
      DeleteAbsent(s[1..], cs);
    }
  }

  /** The tags with a '-' or a '.' in them can never match: clean_title has turned every
      '-' and '.' into a space before the tag pass. */
  lemma DottedTagsNeverMatch(filename: string, i: int)
    ensures !MatchAt(Spaced(filename), "WEB-DL", i)
    ensures !MatchAt(Spaced(filename), "AAC5.1", i)
    ensures !MatchAt(Spaced(filename), "DDP5.1", i)
  {
    DashAndDotTagsInert(Spaced(filename), i);
  }

  lemma DashAndDotTagsInert(s: string, i: int)
    requires '-' !in s && '.' !in s
    ensures !MatchAt(s, "WEB-DL", i) && !MatchAt(s, "AAC5.1", i) && !MatchAt(s, "DDP5.1", i)
  {
    AbsentCharNeverMatches(s, "WEB-DL", '-', i);
    AbsentCharNeverMatches(s, "AAC5.1", '.', i);
    AbsentCharNeverMatches(s, "DDP5.1", '.', i);
  }

  /** One entry of OMDb's "Search" list: its "Title" and "Year" fields, either of which
      may be missing. */
  datatype Candidate = Candidate(title: Option<string>, year: Option<string>)

  /** OMDb's answer when the request went through: whether "Response" was "True", and
      the "Search" list (empty when absent). */
  datatype Reply = Reply(found: bool, search: seq<Candidate>)

  /** SequenceMatcher(None, a, b).ratio(), left uninterpreted. */
  type Score = (string, string) -> real

  /** result.get("Title", ''). */
  function TitleOf(c: Candidate): string {
    match c.title
    case None => ""
    case Some(t) => t
  }

  /** The score of every candidate against the query, both lower-cased. */
  function Scores(title: string, cands: seq<Candidate>, score: Score): (r: seq<real>)
    ensures |r| == |cands|
    ensures forall k | 0 <= k < |cands| :: r[k] == score(LowerStr(title), LowerStr(TitleOf(cands[k])))
  {
    seq(|cands|, k requires 0 <= k < |cands| => score(LowerStr(title), LowerStr(TitleOf(cands[k]))))
  }

  /** b is the winner the loop of get_best_match settles on: its score is positive, no
      score is higher, and every earlier score is strictly lower. */
  predicate IsBest(scores: seq<real>, b: int) {
    0 <= b < |scores| && scores[b] > 0.0
    && (forall k | 0 <= k < |scores| :: scores[k] <= scores[b])
    && (forall k | 0 <= k < b :: scores[k] < scores[b])
  }

  /** There is at most one winner. */
  lemma BestIsUnique(scores: seq<real>, a: int, b: int)
    requires IsBest(scores, a) && IsBest(scores, b)
    ensures a == b
  {
  }

  /** The selection loop of get_best_match: best starts as None with best_score 0, and a
      candidate replaces it only with a strictly greater score. */
  method BestMatch(scores: seq<real>) returns (best: Option<nat>)
    ensures best.Some? ==> IsBest(scores, best.value)
    ensures best.None? <==> forall k | 0 <= k < |scores| :: scores[k] <= 0.0
  {
    best := None;
    var bestScore: real := 0.0;
    var i := 0;
    while i < |scores|
      invariant 0 <= i <= |scores|
      invariant best.None? ==> bestScore == 0.0 && forall k | 0 <= k < i :: scores[k] <= 0.0
      invariant best.Some? ==> best.value < i && bestScore == scores[best.value] && bestScore > 0.0
      invariant best.Some? ==> forall k | 0 <= k < i :: scores[k] <= bestScore
      invariant best.Some? ==> forall k | 0 <= k < best.value :: scores[k] < bestScore
    {
      if scores[i] > bestScore {
        best := Some(i);
        bestScore := scores[i];
      }
      i := i + 1;
    }
  }

  /** The same selection as a function, folding the candidates from the left. */
  function Champion(scores: seq<real>): (r: Option<nat>)
    ensures r.Some? ==> r.value < |scores|
    decreases |scores|
  {
    if |scores| == 0 then None
    else
      var n := |scores| - 1;
      match Champion(scores[..n])
      case None => if scores[n] > 0.0 then Some(n) else None
      case Some(b) => if scores[n] > scores[b] then Some(n) else Some(b)
  }

  /** The fold picks the winner, and picks nothing exactly when no score is positive. */
  lemma {:induction false} ChampionIsBest(scores: seq<real>)
    ensures Champion(scores).Some? ==> IsBest(scores, Champion(scores).value)
    ensures Champion(scores).None? <==> forall k | 0 <= k < |scores| :: scores[k] <= 0.0
    decreases |scores|
  {
    if |scores| > 0 {
      var n := |scores| - 1;
      var init := scores[..n];
      ChampionIsBest(init);
      assert forall k | 0 <= k < n :: init[k] == scores[k];
    }
  }

  /** get_best_match(title): None when the request fails, when OMDb reports no match, when
      no candidate scores above 0, or when the winner lacks a "Title" or "Year" field (the
      KeyError is caught); otherwise "Title (Year)" of the winner. */
  function BestTitle(title: string, reply: Option<Reply>, score: Score): (r: Option<string>)
    ensures r.Some? ==> reply.Some? && reply.value.found
    ensures r.Some? ==>
      var cands := reply.value.search;
      exists b | IsBest(Scores(title, cands, score), b) ::
        cands[b].title.Some? && cands[b].year.Some?
        && r.value == cands[b].title.value + " (" + cands[b].year.value + ")"
    ensures reply.Some? && reply.value.found
      && (exists b | IsBest(Scores(title, reply.value.search, score), b) :: reply.value.search[b].title.Some? && reply.value.search[b].year.Some?)
      ==> r.Some?
  {
    match reply
    case None => None
    case Some(rep) =>
      if !rep.found then None
      else
        var scores := Scores(title, rep.search, score);
        ChampionIsBest(scores);
        match Champion(scores)
        case None => None
        case Some(b) =>
          var c := rep.search[b];
          if c.title.Some? && c.year.Some? then Some(c.title.value + " (" + c.year.value + ")")
          else
            forall a | IsBest(scores, a) ensures a == b {
              BestIsUnique(scores, a, b);
            }
            None
  }

  /** Where a file lives: the folders leading to it from the chosen directory, and its
      name. */
  datatype Place = Place(dir: seq<string>, name: string)

  /** The files under the chosen directory, each with its content (an opaque token). */
  type Files = map<Place, nat>

  /** os.rename(source, target) when it goes through: the content moves, replacing
      whatever was at target. */
  function Move(fs: Files, source: Place, target: Place): (r: Files)
    requires source in fs
    ensures target in r && r[target] == fs[source]
    ensures source != target ==> source !in r
    ensures forall p | p != source && p != target :: (p in r <==> p in fs) && (p in r ==> r[p] == fs[p])
    ensures |r| <= |fs|
  {
    if source == target then fs
    else
      var rest := fs - {source};
      assert |rest| == |fs| - 1;
      rest[target := fs[source]]
  }

  /** Moving a file to a free name and back restores the files exactly. */
  lemma MoveBack(fs: Files, a: Place, b: Place)
    requires a in fs && b !in fs
    ensures Move(Move(fs, a, b), b, a) == fs
  {
    var r := Move(Move(fs, a, b), b, a);
    assert forall p | p in fs :: p in r && r[p] == fs[p];
    assert r.Keys == fs.Keys;
  }

  /** Every file of `after` holds content that some file of `before` held. */
  ghost predicate NoNewContent(before: Files, after: Files) {
    forall p | p in after :: exists q | q in before :: before[q] == after[p]
  }

  /** The files in folders outside `dirs` are the same in both. */
  ghost predicate SameOutside(before: Files, after: Files, dirs: set<seq<string>>) {
    forall p: Place | p.dir !in dirs :: (p in after <==> p in before) && (p in after ==> after[p] == before[p])
  }

  /** The files of folder `dir` are the same in both. */
  ghost predicate SameIn(before: Files, after: Files, dir: seq<string>) {
    forall p: Place | p.dir == dir :: (p in after <==> p in before) && (p in after ==> after[p] == before[p])
  }

  lemma MoveKeeps(fs: Files, source: Place, target: Place)
    requires source in fs && source.dir == target.dir
    ensures NoNewContent(fs, Move(fs, source, target))
    ensures SameOutside(fs, Move(fs, source, target), {source.dir})
  {
    var r := Move(fs, source, target);
    forall p | p in r ensures exists q | q in fs :: fs[q] == r[p] {
      if p == target {
        assert fs[source] == r[p];
      } else {
        assert fs[p] == r[p];
      }
    }
  }

  lemma KeepsTrans(a: Files, b: Files, c: Files, dirs: set<seq<string>>, more: set<seq<string>>)
    requires NoNewContent(a, b) && NoNewContent(b, c)
    requires SameOutside(a, b, dirs) && SameOutside(b, c, more)
    ensures NoNewContent(a, c)
    ensures SameOutside(a, c, dirs + more)
  {
    forall p | p in c ensures exists q | q in a :: a[q] == c[p] {
      var q :| q in b && b[q] == c[p];
      var q' :| q' in a && a[q'] == b[q];
    }
  }

  /** What the operating system does with one file's renames: whether the move to the
      temporary name, the move to the final name and the revert go through. */
  datatype Outcome = Outcome(tempOk: bool, finalOk: bool, revertOk: bool)

  /** The run so far: the files, the lines for backup_log.txt, and whether a failed revert
      has ended the run with an exception. */
  datatype State = State(files: Files, log: seq<string>, crashed: bool)

  /** The extension the renames carry: os.path.splitext's, lower-cased. */
  function Ext(file: string): (r: string)
    ensures r == [] || (r[0] == '.' && |r| < |file| && EndsWith(LowerStr(file), r))
  {
    LowerStr(SplitExt(file).1)
  }

  /** The lines a file adds to the log: one when a title was found. */
  function LogLine(file: string, title: Option<string>): (r: seq<string>)
    ensures |r| == if title.Some? then 1 else 0
    ensures title.Some? ==> r[0] == file + " -> " + (title.value + Ext(file))
  {
    match title
    case None => []
    case Some(t) => [file + " -> " + t + Ext(file)]
  }

  /** The title OMDb yields for a file: the best match for its cleaned name. */
  function TitleFor(file: string, lookup: string -> Option<Reply>, score: Score): (r: Option<string>)
    ensures r.Some? ==> lookup(CleanTitle(file)).Some? && lookup(CleanTitle(file)).value.found
  {
    BestTitle(CleanTitle(file), lookup(CleanTitle(file)), score)
  }

  /** One file of rename_files_in_directory: files without a media extension are skipped;
      the rest move to "temp_<cleaned><ext>", then to "<title><ext>" when OMDb yields a
      title, or back to their own name when it does not. A dry run only logs. */
  function ProcessFile(st: State, dir: seq<string>, file: string, dryRun: bool,
                       os: Place -> Outcome, lookup: string -> Option<Reply>, score: Score): (r: State)
    requires !st.crashed
    ensures dryRun ==> r.files == st.files && !r.crashed
    ensures dryRun ==> r.log == st.log + (if HasMediaExtension(file) then LogLine(file, TitleFor(file, lookup, score)) else [])
    ensures r.log == st.log || r.log == st.log + LogLine(file, TitleFor(file, lookup, score))
    ensures r.crashed ==> TitleFor(file, lookup, score).None?
    ensures !HasMediaExtension(file) ==> r == st
    ensures NoNewContent(st.files, r.files) && SameOutside(st.files, r.files, {dir})
    ensures |r.files| <= |st.files|
  {
    if !HasMediaExtension(file) then st
    else
      var title := TitleFor(file, lookup, score);
      var temp := Place(dir, "temp_" + CleanTitle(file) + Ext(file));
      var final := if title.Some? then Some(Place(dir, title.value + Ext(file))) else None;
      TwoPhase(st, Place(dir, file), temp, final, LogLine(file, title), dryRun, os(Place(dir, file)))
  }

  /** The renames of one media file, given its temporary place and, when a title was
      found, its final place and log line. */
  function TwoPhase(st: State, orig: Place, temp: Place, final: Option<Place>, line: seq<string>,
                    dryRun: bool, o: Outcome): (r: State)
    requires !st.crashed && temp.dir == orig.dir
    requires final.Some? ==> final.value.dir == orig.dir
    ensures dryRun ==> r.files == st.files && !r.crashed && r.log == st.log + line
    ensures r.log == st.log || r.log == st.log + line
    ensures r.crashed ==> final.None?
    ensures NoNewContent(st.files, r.files) && SameOutside(st.files, r.files, {orig.dir})
    ensures |r.files| <= |st.files|
  {
    if dryRun then State(st.files, st.log + line, false)
    else if !(orig in st.files && o.tempOk) then st
    else
      var moved := Move(st.files, orig, temp);
      MoveKeeps(st.files, orig, temp);
      match final
      case Some(f) =>
        MoveKeeps(moved, temp, f);
        KeepsTrans(st.files, moved, Move(moved, temp, f), {orig.dir}, {orig.dir});
        State(if o.finalOk then Move(moved, temp, f) else moved, st.log + line, false)
      case None =>
        MoveKeeps(moved, temp, orig);
        KeepsTrans(st.files, moved, Move(moved, temp, orig), {orig.dir}, {orig.dir});
        if temp == orig then State(moved, st.log, false)
        else if o.revertOk then State(Move(moved, temp, orig), st.log, false)
        else State(moved, st.log, true)
  }

  /** When the move to the temporary name fails (or the file is gone), the file is skipped:
      nothing moves and nothing is logged. */
  lemma TempFailureSkips(st: State, orig: Place, temp: Place, final: Option<Place>, line: seq<string>, o: Outcome)
    requires !st.crashed && temp.dir == orig.dir
    requires final.Some? ==> final.value.dir == orig.dir
    requires orig !in st.files || !o.tempOk
    ensures TwoPhase(st, orig, temp, final, line, false, o) == st
  {
  }

  /** With a title and both moves going through, the file's content ends up under its
      final name, its old name is free unless it was the temporary or final one, and the
      line is logged. */
  lemma MatchedFileMoves(st: State, orig: Place, temp: Place, f: Place, line: seq<string>, o: Outcome)
    requires !st.crashed && temp.dir == orig.dir && f.dir == orig.dir
    requires orig in st.files && o.tempOk && o.finalOk
    ensures var r := TwoPhase(st, orig, temp, Some(f), line, false, o);
      f in r.files && r.files[f] == st.files[orig] && r.log == st.log + line
      && (orig != temp && orig != f ==> orig !in r.files)
  {
  }

  /** When the move to the final name fails, the file stays under its temporary name, yet
      the rename is logged as if it had happened. */
  lemma FailedFinalStaysAtTemp(st: State, orig: Place, temp: Place, f: Place, line: seq<string>, o: Outcome)
    requires !st.crashed && temp.dir == orig.dir && f.dir == orig.dir
    requires orig in st.files && o.tempOk && !o.finalOk
    ensures var r := TwoPhase(st, orig, temp, Some(f), line, false, o);
      temp in r.files && r.files[temp] == st.files[orig] && r.log == st.log + line && !r.crashed
  {
  }

  /** Without a title the revert undoes the temporary move exactly, provided nothing
      was at the temporary name before. */
  lemma UnmatchedFileRestored(st: State, orig: Place, temp: Place, line: seq<string>, o: Outcome)
    requires !st.crashed && temp.dir == orig.dir
    requires orig in st.files && o.tempOk && o.revertOk && temp !in st.files
    ensures TwoPhase(st, orig, temp, None, line, false, o) == st
  {
    MoveBack(st.files, orig, temp);
  }

  /** A file that already had the temporary name is lost: the temporary move replaces it
      and the revert takes the content back to the original name. */
  lemma RevertLosesTempOccupant(st: State, orig: Place, temp: Place, line: seq<string>, o: Outcome)
    requires !st.crashed && temp.dir == orig.dir && temp != orig
    requires orig in st.files && o.tempOk && o.revertOk && temp in st.files
    ensures var r := TwoPhase(st, orig, temp, None, line, false, o);
      orig in r.files && r.files[orig] == st.files[orig] && temp !in r.files && |r.files| == |st.files| - 1
  {
    var moved := Move(st.files, orig, temp);
    var r := Move(moved, temp, orig);
    assert moved == (st.files - {orig})[temp := st.files[orig]];
    assert |moved| == |st.files| - 1;
    assert r == (moved - {temp})[orig := st.files[orig]];
    assert |moved - {temp}| == |moved| - 1;
  }

  /** A failed revert raises out of the run: the file stays under its temporary name and
      the run stops. */
  lemma FailedRevertStops(st: State, orig: Place, temp: Place, line: seq<string>, o: Outcome)
    requires !st.crashed && temp.dir == orig.dir && temp != orig
    requires orig in st.files && o.tempOk && !o.revertOk
    ensures var r := TwoPhase(st, orig, temp, None, line, false, o);
      r.crashed && temp in r.files && r.files[temp] == st.files[orig] && r.log == st.log
  {
  }

  /** The log `log` continues `before`. */
  predicate Extends(log: seq<string>, before: seq<string>) {
    |before| <= |log| && log[..|before|] == before
  }

  lemma ExtendsTrans(c: seq<string>, b: seq<string>, a: seq<string>)
    requires Extends(c, b) && Extends(b, a)
    ensures Extends(c, a)
  {
    assert c[..|a|] == c[..|b|][..|a|];
  }

  lemma LineExtends(a: seq<string>, b: seq<string>)
    requires b == a || exists line: seq<string> :: b == a + line
    ensures Extends(b, a)
  {
    if b != a {
      var line: seq<string> :| b == a + line;
      assert b[..|a|] == a;
    }
  }

  /** The files of one folder, in listing order; a failed revert ends the run. */
  function FilesFrom(st: State, dir: seq<string>, files: seq<string>, dryRun: bool,
                     os: Place -> Outcome, lookup: string -> Option<Reply>, score: Score): (r: State)
    ensures dryRun && !st.crashed ==> r.files == st.files && !r.crashed
    ensures r.crashed ==> !dryRun || st.crashed
    ensures Extends(r.log, st.log)
    ensures (forall i | 0 <= i < |files| :: !HasMediaExtension(files[i])) ==> r == st
    ensures NoNewContent(st.files, r.files) && SameOutside(st.files, r.files, {dir})
    ensures |r.files| <= |st.files|
    decreases |files|
  {
    if |files| == 0 || st.crashed then st
    else
      var next := ProcessFile(st, dir, files[0], dryRun, os, lookup, score);
      var r := FilesFrom(next, dir, files[1..], dryRun, os, lookup, score);
      LineExtends(st.log, next.log);
      ExtendsTrans(r.log, next.log, st.log);
      KeepsTrans(st.files, next.files, r.files, {dir}, {dir});
      r
  }

  /** The folders of the walk whose files the run handles: every one but the chosen
      directory itself, which only counts with include_loose. */
  function Visited(walk: seq<WalkDir>, includeLoose: bool): set<seq<string>>
    decreases |walk|
  {
    if |walk| == 0 then {} else Handles(walk[0], includeLoose) + Visited(walk[1..], includeLoose)
  }

  /** The folder of d, unless it is the chosen directory and loose files are left alone. */
  function Handles(d: WalkDir, includeLoose: bool): set<seq<string>> {
    if d.path == [] && !includeLoose then {} else {d.path}
  }

  /** The files of one folder of the walk, or nothing for a skipped root. */
  function VisitDir(st: State, d: WalkDir, dryRun: bool, includeLoose: bool,
                    os: Place -> Outcome, lookup: string -> Option<Reply>, score: Score): (r: State)
    ensures dryRun && !st.crashed ==> r.files == st.files && !r.crashed
    ensures r.crashed ==> !dryRun || st.crashed
    ensures Extends(r.log, st.log)
    ensures (forall i | 0 <= i < |d.files| :: !HasMediaExtension(d.files[i])) ==> r == st
    ensures NoNewContent(st.files, r.files) && SameOutside(st.files, r.files, Handles(d, includeLoose))
    ensures |r.files| <= |st.files|
  {
    if d.path == [] && !includeLoose then st
    else FilesFrom(st, d.path, d.files, dryRun, os, lookup, score)
  }

  /** The walk, folder by folder. */
  function WalkFrom(st: State, walk: seq<WalkDir>, dryRun: bool, includeLoose: bool,
                    os: Place -> Outcome, lookup: string -> Option<Reply>, score: Score): (r: State)
    ensures dryRun && !st.crashed ==> r.files == st.files && !r.crashed
    ensures r.crashed ==> !dryRun || st.crashed
    ensures Extends(r.log, st.log)
    ensures NoMedia(walk) ==> r == st
    ensures NoNewContent(st.files, r.files) && SameOutside(st.files, r.files, Visited(walk, includeLoose))
    ensures |r.files| <= |st.files|
    decreases |walk|
  {
    if |walk| == 0 || st.crashed then st
    else
      var next := VisitDir(st, walk[0], dryRun, includeLoose, os, lookup, score);
      var r := WalkFrom(next, walk[1..], dryRun, includeLoose, os, lookup, score);
      NoMediaSplit(walk);
      ExtendsTrans(r.log, next.log, st.log);
      KeepsTrans(st.files, next.files, r.files, Handles(walk[0], includeLoose), Visited(walk[1..], includeLoose));
      r
  }

  /** No file of the walk has a media extension. */
  predicate NoMedia(walk: seq<WalkDir>) {
    forall k, i | 0 <= k < |walk| && 0 <= i < |walk[k].files| :: !HasMediaExtension(walk[k].files[i])
  }

  /** A walk without media files splits into a first folder and a rest without them. */
  lemma NoMediaSplit(walk: seq<WalkDir>)
    requires |walk| > 0
    ensures NoMedia(walk) ==> NoMedia(walk[1..])
    ensures NoMedia(walk) ==> forall i | 0 <= i < |walk[0].files| :: !HasMediaExtension(walk[0].files[i])
  {
    if NoMedia(walk) {
      forall k, i | 0 <= k < |walk[1..]| && 0 <= i < |walk[1..][k].files|
        ensures !HasMediaExtension(walk[1..][k].files[i])
      {
        assert walk[1..][k] == walk[k + 1];
      }
    }
  }

  /** What a run leaves behind: the files, and backup_log.txt unless the run raised. */
  datatype Report = Report(files: Files, backupLog: Option<seq<string>>)

  /** rename_files_in_directory over a walk of the chosen directory (root first, path []). */
  function RenameFilesInDirectory(files: Files, walk: seq<WalkDir>, dryRun: bool, includeLoose: bool,
                                  os: Place -> Outcome, lookup: string -> Option<Reply>, score: Score): (r: Report)
    ensures dryRun ==> r.files == files && r.backupLog.Some?
    ensures NoNewContent(files, r.files) && SameOutside(files, r.files, Visited(walk, includeLoose))
    ensures !includeLoose ==> SameIn(files, r.files, [])
    ensures NoMedia(walk) ==> r == Report(files, Some([]))
    ensures |r.files| <= |files|
  {
    var st := WalkFrom(State(files, [], false), walk, dryRun, includeLoose, os, lookup, score);
    RootNotVisited(walk);
    Report(st.files, if st.crashed then None else Some(st.log))
  }

  /** Without include_loose the chosen directory itself is never among the visited
      folders. */
  lemma {:induction false} RootNotVisited(walk: seq<WalkDir>)
    ensures [] !in Visited(walk, false)
    decreases |walk|
  {
    if |walk| > 0 {
      RootNotVisited(walk[1..]);
    }
  }
}
