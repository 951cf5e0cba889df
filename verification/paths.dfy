/** File-name splitting as the scripts use it on the plain names os.listdir returns:
    pathlib's PurePath.stem / PurePath.suffix, os.path.splitext, and the extension
    filters for movies and subtitles. */
module Paths {
  import opened Text

  /** str.rfind(c): the last index of c in s, or -1. */
  function RFind(s: string, c: char): (r: int)
    ensures -1 <= r < |s|
    ensures r >= 0 ==> s[r] == c && forall k | r < k < |s| :: s[k] != c
    ensures r == -1 <==> c !in s
  {
    if |s| == 0 then -1
    else if s[|s| - 1] == c then |s| - 1
    else RFind(s[..|s| - 1], c)
  }

  /** The last c is at i when s[i] is c and no c follows. */
  lemma RFindIs(s: string, c: char, i: nat)
    requires i < |s| && s[i] == c
    requires forall k | i < k < |s| :: s[k] != c
    ensures RFind(s, c) == i
  {
  }

  /** PurePath(name).suffix: from the last dot on, unless that dot is the first or the
      last character of the name. */
  function Suffix(name: string): (r: string)
    ensures r == [] || (r[0] == '.' && EndsWith(name, r) && |r| < |name|)
  {
    var i := RFind(name, '.');
    if 0 < i < |name| - 1 then name[i..] else ""
  }

  /** PurePath(name).stem: the name without its suffix. */
  function Stem(name: string): (r: string)
    ensures r <= name && (r == name || name[|r|] == '.')
  {
    var i := RFind(name, '.');
    if 0 < i < |name| - 1 then name[..i] else name
  }

  /** A suffix is either empty or a dot followed by at least one character and no further
      dot, and stem and suffix put back together give the name. */
  lemma StemSuffix(name: string)
    ensures Stem(name) + Suffix(name) == name
    ensures Suffix(name) == [] || (|Suffix(name)| >= 2 && Suffix(name)[0] == '.' && '.' !in Suffix(name)[1..])
    ensures Suffix(name) != [] ==> |Stem(name)| > 0
  {
    var i := RFind(name, '.');
    if 0 < i < |name| - 1 {
      assert name[..i] + name[i..] == name;
      forall c | c in name[i..][1..] ensures c != '.' {
        var k :| 0 <= k < |name[i..][1..]| && name[i..][1..][k] == c;
        assert c == name[i + 1 + k];
      }
    }
  }

  /** os.path.splitext(name) for a name without '/': split at the last dot unless
      everything before that dot is dots (a leading-dot name like ".srt" has no
      extension). Unlike Suffix, a trailing dot counts: "a." splits as ("a", "."). */
  function SplitExt(name: string): (r: (string, string))
    ensures r.1 == [] || (r.1[0] == '.' && EndsWith(name, r.1))
    ensures r.0 == name[..|name| - |r.1|]
  {
    var d := RFind(name, '.');
    if 0 <= d && exists k | 0 <= k < d :: name[k] != '.' then (name[..d], name[d..]) else (name, "")
  }

  lemma SplitExtParts(name: string)
    ensures SplitExt(name).0 + SplitExt(name).1 == name
    ensures SplitExt(name).1 == [] || (SplitExt(name).1[0] == '.' && '.' !in SplitExt(name).1[1..])
  {
    var d := RFind(name, '.');
    if 0 <= d && exists k | 0 <= k < d :: name[k] != '.' {
      assert name[..d] + name[d..] == name;
      forall c | c in name[d..][1..] ensures c != '.' {
        var k :| 0 <= k < |name[d..][1..]| && name[d..][1..][k] == c;
        assert c == name[d + 1 + k];
      }
    } else {
      assert name + [] == name;
    }
  }

  /** For an ordinary name, one that neither starts nor ends with a dot, the two library
      functions agree. */
  lemma SplitExtAgreesWithPathlib(name: string)
    requires |name| > 0 && name[0] != '.' && name[|name| - 1] != '.'
    ensures SplitExt(name) == (Stem(name), Suffix(name))
  {
    var d := RFind(name, '.');
    if d > 0 {
      assert name[0] != '.';
    }
  }

  /** They disagree on a trailing dot: pathlib sees no suffix, splitext splits off ".". */
  lemma TrailingDotDisagrees()
    ensures Suffix("Movie.") == "" && SplitExt("Movie.") == ("Movie", ".")
  {
    var name := "Movie.";
    assert RFind(name, '.') == 5;
    assert name[0] != '.';
    assert name[..5] == "Movie" && name[5..] == ".";
  }

  /** ... and on leading dots: pathlib takes ".mkv" as the suffix of "..mkv", splitext
      takes nothing. */
  lemma LeadingDotsDisagree()
    ensures Suffix("..mkv") == ".mkv" && SplitExt("..mkv") == ("..mkv", "")
  {
    var name := "..mkv";
    assert RFind(name[..2], '.') == 1;
    assert name[..2][..1] == ".";
    assert name[..3][..2] == name[..2] && RFind(name[..3], '.') == 1;
    assert name[..4][..3] == name[..3] && RFind(name[..4], '.') == 1;
    assert name[..4] == name[..|name| - 1] && RFind(name, '.') == 1;
    assert name[1..] == ".mkv";
  }

  predicate EndsWithIgnoringCase(name: string, ext: string) {
    EndsWith(LowerStr(name), ext)
  }

  /** file.lower().endswith(('.mkv', '.mp4', '.avi')). */
  predicate IsVideoName(name: string)
    ensures IsVideoName(name) ==> |name| >= 4 && name[|name| - 4] == '.'
  {
    EndsWithIgnoringCase(name, ".mkv") || EndsWithIgnoringCase(name, ".mp4") || EndsWithIgnoringCase(name, ".avi")
  }

  /** file.lower().endswith('.srt'). */
  predicate IsSubtitleName(name: string)
    ensures IsSubtitleName(name) ==> |name| >= 4 && name[|name| - 4] == '.'
  {
    EndsWithIgnoringCase(name, ".srt")
  }

  /** os.path.splitext(file)[1].lower() in ['.mkv', '.mp4', '.avi', '.srt']. */
  predicate HasMediaExtension(name: string) {
    LowerStr(SplitExt(name).1) in [".mkv", ".mp4", ".avi", ".srt"]
  }

  /** The media test of rename_movies.py accepts only names that the video or the
      subtitle filter of the other scripts would accept too. */
  lemma MediaNameIsVideoOrSubtitle(name: string)
    ensures HasMediaExtension(name) ==> IsVideoName(name) || IsSubtitleName(name)
  {
    var e := SplitExt(name).1;
    if HasMediaExtension(name) {
      var n := |name|;
      assert |LowerStr(e)| == 4;
      assert name[n - 4..] == e;
      assert LowerStr(name)[n - 4..] == LowerStr(e) by {
        forall k | 0 <= k < 4 ensures LowerStr(name)[n - 4..][k] == LowerStr(e)[k] {
          assert e[k] == name[n - 4 + k];
        }
      }
    }
  }

  /** The converse fails: a file called ".mkv" passes the video filter, but splitext
      sees no extension in it, so rename_movies.py skips it. */
  lemma HiddenVideoSkipped()
    ensures IsVideoName(".mkv") && !HasMediaExtension(".mkv")
  {
    var name := ".mkv";
    assert LowerStr(name) == ".mkv";
    assert RFind(name, '.') == 0 by {
      RFindIs(name, '.', 0);
    }
    assert SplitExt(name).1 == "";
  }

  /** A video file with something before its extension keeps that extension as its
      pathlib suffix, which is what the renamed movie file is given. */
  lemma VideoSuffix(name: string)
    requires IsVideoName(name) && |name| > 4
    ensures |Suffix(name)| == 4 && LowerStr(Suffix(name)) in [".mkv", ".mp4", ".avi"]
    ensures Suffix(name) == name[|name| - 4..]
  {
    var low := LowerStr(name);
    var n := |name|;
    assert low[n - 4] == '.' && Lower(name[n - 4]) == '.';
    assert name[n - 4] == '.';
    forall k | n - 4 < k < n ensures name[k] != '.' {
      assert low[k] == Lower(name[k]) && low[k] != '.';
    }
    assert RFind(name, '.') == n - 4;
    assert LowerStr(name[n - 4..]) == low[n - 4..];
  }

  /** The same holds for a subtitle file and the ".srt" extension. */
  lemma SubtitleSuffix(name: string)
    requires IsSubtitleName(name) && |name| > 4
    ensures LowerStr(Suffix(name)) == ".srt"
    ensures Suffix(name) == name[|name| - 4..]
  {
    var low := LowerStr(name);
    var n := |name|;
    assert low[n - 4] == '.' && Lower(name[n - 4]) == '.';
    assert name[n - 4] == '.';
    forall k | n - 4 < k < n ensures name[k] != '.' {
      assert low[k] == Lower(name[k]) && low[k] != '.';
    }
    assert RFind(name, '.') == n - 4;
    assert LowerStr(name[n - 4..]) == low[n - 4..];
  }

  /** A video name never passes the subtitle filter, so the scripts' "elif" for
      subtitles is the plain subtitle filter. */
  lemma VideoIsNotSubtitle(name: string)
    requires IsVideoName(name)
    ensures !IsSubtitleName(name)
  {
    var low := LowerStr(name);
    assert low[|low| - 3] != 's';
  }

  /** Putting a pathlib-shaped extension back after any non-empty stem, dots in it or
      not, gives a name with that suffix and that stem. */
  lemma ReattachSuffix(base: string, ext: string)
    requires |base| > 0 && |ext| >= 2 && ext[0] == '.' && '.' !in ext[1..]
    ensures Suffix(base + ext) == ext && Stem(base + ext) == base
  {
    var name := base + ext;
    forall k | |base| < k < |name| ensures name[k] != '.' {
      assert name[k] == ext[1..][k - |base| - 1];
    }
    assert name[|base|] == '.';
    RFindIs(name, '.', |base|);
    assert name[..|base|] == base && name[|base|..] == ext;
  }

  /** Putting a pathlib-shaped extension (or none) back after a stem: the result ends in
      the extension, is the stem itself when there is none, and has that suffix and that
      stem when the stem is not empty. */
  function Reattach(base: string, ext: string): (r: string)
    requires ext == [] || (|ext| >= 2 && ext[0] == '.' && '.' !in ext[1..])
    ensures EndsWith(r, ext)
    ensures ext == [] ==> r == base
    ensures ext != [] && |base| > 0 ==> Suffix(r) == ext && Stem(r) == base
  {
    if |ext| == 0 then base
    else
      EndsWithAppend(base, ext);
      if |base| > 0 then ReattachSuffix(base, ext); base + ext
      else base + ext
  }

  /** Giving a dot-free, non-empty name an extension of the shape pathlib produces makes
      that extension the new name's suffix and the name its stem: a renamed file keeps
      its extension. */
  lemma RenameKeepsSuffix(cleaned: string, ext: string)
    requires |cleaned| > 0 && '.' !in cleaned
    requires ext == [] || (|ext| >= 2 && ext[0] == '.' && '.' !in ext[1..])
    ensures Suffix(cleaned + ext) == ext && Stem(cleaned + ext) == cleaned
  {
    if ext == [] {
      assert cleaned + ext == cleaned;
    } else {
      ReattachSuffix(cleaned, ext);
    }
  }
}
