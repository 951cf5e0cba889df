/** The release-tag lists the scripts delete from names. Order matters: each list is
    applied left to right, one keyword at a time (or, for Tags, as one alternation). */
module Keywords {
  import opened Years

  /** UNWANTED_KEYWORDS shared by rename_movies_advanced.py, rename_movies_basic.py and
      rename_movies_subtitles.py. */
  const Standard: seq<string> := [
    "1080p", "720p", "2160p", "480p", "10bit", "8bit", "BluRay", "WEBRip", "HDRip",
    "BRRip", "WEB-DL", "x264", "x265", "HEVC", "H264", "AAC", "DD5.1", "DVDRip", "AVC",
    "PSA", "YIFY", "RARBG", "EXTENDED", "PROPER", "REMASTERED", "CH", "-", "_"]

  /** UNWANTED_KEYWORDS of rename_movies_subtitles_advanced.py: the standard tags without
      the trailing "-" and "_", then container words and more release tags. */
  const SubtitlesAdvanced: seq<string> := [
    "1080p", "720p", "2160p", "480p", "10bit", "8bit", "BluRay", "WEBRip", "HDRip",
    "BRRip", "WEB-DL", "x264", "x265", "HEVC", "H264", "AAC", "DD5.1", "DVDRip", "AVC",
    "PSA", "YIFY", "RARBG", "EXTENDED", "PROPER", "REMASTERED", "CH",
    "mp4", "mkv", "avi", "Korean", "AV1Saon", "-", "-[YTS AM]", "NF", "DDP5 1", "Pahe in", "_"]

  /** UNWANTED_KEYWORDS of rename_movies_subtitles_advanced2.py: as above without "_" and
      with four more tags. */
  const SubtitlesAdvanced2: seq<string> := [
    "1080p", "720p", "2160p", "480p", "10bit", "8bit", "BluRay", "WEBRip", "HDRip",
    "BRRip", "WEB-DL", "x264", "x265", "HEVC", "H264", "AAC", "DD5.1", "DVDRip", "AVC",
    "PSA", "YIFY", "RARBG", "EXTENDED", "PROPER", "REMASTERED", "CH",
    "mp4", "mkv", "avi", "Korean", "AV1Saon", "-", "-[YTS AM]", "NF", "DDP5 1", "Pahe in",
    "ZEE5", "8CH", "AA", "BONE"]

  /** The tags rename_movies.py joins into one \b(?:...)\b alternation. */
  const Tags: seq<string> := [
    "1080p", "720p", "WEB-DL", "WEBRip", "BluRay", "BRRip", "DVDRip", "HDRip", "x264",
    "x265", "HEVC", "AAC5.1", "10bit", "8CH", "NF", "YIFY", "BONE", "HIN", "KAN", "MAL",
    "EXTENDED", "IMAX", "AV1", "PROPER", "DDP5.1", "Saon", "Korean"]

  lemma ListSizes()
    ensures |Standard| == 28 && |SubtitlesAdvanced| == 37 && |SubtitlesAdvanced2| == 40 && |Tags| == 27
    ensures SubtitlesAdvanced[26..29] == ["mp4", "mkv", "avi"]
    ensures Tags[2] == "WEB-DL" && Tags[11] == "AAC5.1" && Tags[24] == "DDP5.1"
  {
  }

  /** No standard keyword can touch a trailing " (yyyy)". */
  lemma StandardSparesYear()
    ensures forall kw | kw in Standard :: SparesYearSuffix(kw)
  {
    EveryKeyword(Standard);
  }

  /** No keyword of rename_movies_subtitles_advanced.py can touch a trailing " (yyyy)". */
  lemma SubtitlesAdvancedSparesYear()
    ensures forall kw | kw in SubtitlesAdvanced :: SparesYearSuffix(kw)
  {
    SubtitlesAdvancedSparesYearBelow20();
    SubtitlesAdvancedSparesYearFrom20();
    EveryKeyword(SubtitlesAdvanced);
  }

  lemma SubtitlesAdvancedSparesYearBelow20()
    ensures forall k | 0 <= k < 20 :: SparesYearSuffix(SubtitlesAdvanced[k])
  {
    var kws := SubtitlesAdvanced;
    assert forall k | 0 <= k < 10 :: SparesYearSuffix(kws[k]);
    assert forall k | 10 <= k < 20 :: SparesYearSuffix(kws[k]);
  }

  lemma SubtitlesAdvancedSparesYearFrom20()
    ensures forall k | 20 <= k < 37 :: SparesYearSuffix(SubtitlesAdvanced[k])
  {
    var kws := SubtitlesAdvanced;
    assert forall k | 20 <= k < 29 :: SparesYearSuffix(kws[k]);
    assert forall k | 29 <= k < 37 :: SparesYearSuffix(kws[k]);
  }

  /** No keyword of rename_movies_subtitles_advanced2.py can touch a trailing " (yyyy)". */
  lemma SubtitlesAdvanced2SparesYear()
    ensures forall kw | kw in SubtitlesAdvanced2 :: SparesYearSuffix(kw)
  {
    SubtitlesAdvanced2SparesYearBelow20();
    SubtitlesAdvanced2SparesYearFrom20();
    EveryKeyword(SubtitlesAdvanced2);
  }

  lemma SubtitlesAdvanced2SparesYearBelow20()
    ensures forall k | 0 <= k < 20 :: SparesYearSuffix(SubtitlesAdvanced2[k])
  {
    var kws := SubtitlesAdvanced2;
    assert forall k | 0 <= k < 10 :: SparesYearSuffix(kws[k]);
    assert forall k | 10 <= k < 20 :: SparesYearSuffix(kws[k]);
  }

  lemma SubtitlesAdvanced2SparesYearFrom20()
    ensures forall k | 20 <= k < 40 :: SparesYearSuffix(SubtitlesAdvanced2[k])
  {
    var kws := SubtitlesAdvanced2;
    assert forall k | 20 <= k < 30 :: SparesYearSuffix(kws[k]);
    assert forall k | 30 <= k < 40 :: SparesYearSuffix(kws[k]);
  }

  /** Checking a list position by position is cheap for the solver; this turns such a
      check into a statement about membership. */
  lemma EveryKeyword(kws: seq<string>)
    requires forall k | 0 <= k < |kws| :: SparesYearSuffix(kws[k])
    ensures forall kw | kw in kws :: SparesYearSuffix(kw)
  {
  }
}
