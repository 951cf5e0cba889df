# Movie renamer scripts, modelled in Dafny

The repository holds six small Python scripts. Each one tidies the names of downloaded
movies: `Some.Movie.2010.1080p.BluRay.x264.mkv` in a folder of the same name becomes
`Some Movie (2010).mkv` in a folder `Some Movie (2010)`. Every script carries its own
filename cleaner. The cleaners are built from the same five parts:

- separator replacement;
- whitespace collapsing;
- case-insensitive whole-word keyword deletion (`re.sub` with `\b`);
- finding the year and placing it;
- the renamed-folder test `^.+ \(\d{4}\)$`.

Around each cleaner sits the logic that turns a directory listing into renames.

This project models all six cleaners over `string` (`seq<char>`) and the decisions of all
six drivers as pure functions. It proves what the cleaners guarantee and where they fall
short of the obvious hope. The modules follow the scripts:

| module | file | models |
|---|---|---|
| `Text` | text.dfy | whitespace (`\s`, `str.strip`, `re.sub(r'\s+', ' ')`), separator replacement, character deletion, ASCII lower-casing |
| `WholeWord` | whole_word.dfy | `re.sub(r'\b(?:kw1\|kw2…)\b', '', s, flags=re.IGNORECASE)` as a left-to-right scan whose word boundaries are judged on the text being scanned; the fold over a keyword list; the last whole-word match |
| `WordList` | words.dfy | the words of a text (maximal runs of `\w`), and what one pass of a `\b`-wrapped alternation and whitespace normalising do to them |
| `Years` | years.dfy | `re.findall(r'\b(?:19\|20)\d{2}\b')`, `re.search(r'(19\|20)\d{2}')`, `str.find` |
| `Keywords` | keywords.dfy | the four keyword lists, in source order |
| `Canonical` | canonical.dfy | `is_already_renamed` / `is_renamed` |
| `Paths` | paths.dfy | `PurePath.suffix`/`.stem`, `os.path.splitext`, the extension tests |
| `Listing` | listing.dfy | listings, the movie and subtitle choice, folder and loose-file renames |
| `Basic` | basic.dfy | rename_movies_basic.py |
| `Subtitles` | subtitles.dfy | rename_movies_subtitles.py |
| `SubtitlesAdvanced` | subtitles_advanced.dfy | rename_movies_subtitles_advanced.py |
| `SubtitlesAdvanced2` | subtitles_advanced2.dfy | rename_movies_subtitles_advanced2.py |
| `MoviesAdvanced` | movies_advanced.dfy | rename_movies_advanced.py |
| `Movies` | movies.dfy | rename_movies.py |

The environment is modelled as follows:

- A directory listing is a `seq<Entry>` in whatever order `os.listdir` gave.
- The OMDb answer is a lookup function passed in.
- `difflib`'s ratio is an uninterpreted `Score` function.
- The `[y/N]` prompt is a `confirm` function.
- For rename_movies.py, the file tree is a map from `Place` (folder path and name) to an
  opaque content token.
- Each file's rename outcomes (temporary rename, final rename, revert) are an `Outcome`
  chosen by an `os` function.

A failed revert raises in Python, which ends the run. The model has a `crashed` flag for
it.

rename_movies_basic.py has the same keyword list and the same steps as
rename_movies_subtitles.py. So `Basic` reuses `Subtitles.CleanMovieName`.

## Model

| member | source | states |
|---|---|---|
| Text.ReplaceSeparators | rename_movies_advanced.py:20 | every `.` and `_` becomes a space, every other character stays where it was, and neither separator is left |
| Text.Collapse | rename_movies_advanced.py:21 | the result has no run of whitespace and only the plain space as whitespace; it is never longer; it starts with the input's first character, or a space if that was whitespace |
| Text.CollapseRun | rename_movies_advanced.py:21 | each maximal whitespace run becomes exactly one space: a run between a part not ending in whitespace and a part not starting with it collapses to `" "` between the two collapsed parts |
| Text.CollapseKeepsVisible | rename_movies_advanced.py:21 | collapsing keeps the non-whitespace characters exactly, in order, and adds nothing but spaces |
| Text.CollapseFixesSingleSpaced | rename_movies_subtitles_advanced2.py:47 | collapsing a string that has no whitespace run leaves it unchanged |
| Text.Strip | rename_movies_advanced.py:25 | `str.strip()` gives a trimmed result with the same visible characters; it is the identity on trimmed text and keeps single spacing |
| Text.Normalize | rename_movies.py:15 | collapse then strip: trimmed and single-spaced, with exactly the input's non-whitespace characters in their order |
| Text.NormalizeAvoids | rename_movies.py:24 | normalising brings back none of a set of characters (other than the space) that the input lacked |
| Text.StripKeepsSuffix | rename_movies_subtitles_advanced.py:41 | a suffix that begins and ends with visible characters survives `strip()`, and what precedes it is only left-stripped |
| Text.NormalizeKeepsWord | rename_movies_subtitles.py:32 | a whitespace-free last word stays the last word through collapsing and stripping |
| Text.SpaceOut | rename_movies.py:14 | each character of the class becomes a space and no other character changes |
| Text.Delete | rename_movies.py:13 | no character of the class is left, and every other character is kept as often as it occurs in the input |
| Text.DeleteAppend | rename_movies.py:13 | deletion works piece by piece, so it keeps the order of what it keeps: deleting from `a + b` is deleting from `a`, then from `b` |
| Text.DeleteOne | rename_movies.py:13 | a single character is deleted exactly when it is in the class |
| Text.DeleteTwice | rename_movies.py:13-14 | deleting one class and then another is deleting both at once |
| Text.VisibleDelete | rename_movies.py:13-15 | when no whitespace is deleted, deleting and then looking at the non-whitespace characters is the same as the other way round |
| Text.VisibleSpaceOut | rename_movies.py:14-15 | turning a class into spaces hides exactly that class from the non-whitespace characters |
| Text.LowerStr | rename_movies.py:54 | ASCII lower-casing, position by position |
| WholeWord.FirstAlt | rename_movies.py:22 | the alternative the regex engine tries first at a position: the first one in list order that matches there as a whole word, or none exactly when none does |
| WholeWord.Sub | rename_movies.py:22-23 | the substitution never lengthens the text; what it deletes is stated by `WordList.SubWords` and `WholeWord.SubRemovesWord` |
| WholeWord.SubNoMatch | rename_movies.py:23 | where no alternative matches anywhere, the substitution returns the text unchanged |
| WholeWord.SubKeepsPrefix | rename_movies_advanced.py:24 | a stretch where no keyword starts is copied to the output unchanged |
| WholeWord.SubKeepsSuffix | rename_movies_advanced.py:24 | when no match from i reaches past k, the output from i ends with the output from k |
| WholeWord.SubKeepsTail | rename_movies_subtitles.py:30 | a tail of the text that no match reaches into comes out at the end of the result unchanged |
| WholeWord.SubChars | rename_movies_advanced.py:24 | the substitution only deletes: every output character is an input character |
| WholeWord.HyphenMatch | rename_movies_basic.py:31-32 | the keyword `-` matches exactly where a dash has a word character on each side |
| WholeWord.AbsentCharNeverMatches | rename_movies_basic.py:31-32 | a keyword holding a character the text lacks, in either case, never matches it |
| WholeWord.SubInert | rename_movies.py:22-23 | an alternation none of whose alternatives fits the text's alphabet changes nothing |
| WholeWord.ChannelKeepsCh | rename_movies_advanced.py:22-24 | `CH` is not deleted from inside `Channel` |
| WholeWord.LoneChRemoved | rename_movies_advanced.py:22-24 | a standalone `ch` is deleted regardless of case, and the spaces around it remain: `Movie ch 2020` becomes `Movie  2020` |
| WholeWord.LastMatch | rename_movies_subtitles_advanced2.py:31 | the last position where a word matches whole, or none exactly when it never does |
| WholeWord.RemoveEachChars | rename_movies_subtitles.py:28-30 | the keyword loop only deletes characters |
| WholeWord.RemoveEach | rename_movies_subtitles.py:28-30 | the keyword loop, one `re.sub` per keyword in list order, never lengthens the name |
| WholeWord.RemoveEachAppend | rename_movies_subtitles.py:28-30 | running the loop over two lists in turn is running it over their concatenation |
| WholeWord.RemoveEachInert | rename_movies_subtitles.py:28-30 | keywords that cannot fit the text's alphabet leave it unchanged through the whole loop |
| WholeWord.SubRemovesWord | rename_movies_subtitles_advanced.py:38 | deleting every whole-word occurrence of a keyword made of word characters leaves none behind: the pieces on either side of a deletion never join into a new occurrence |
| WholeWord.SubFromLeavesNoMatch | rename_movies_subtitles_advanced.py:38 | the same for the scan started at any position that is not inside a word |
| WholeWord.StripKeepsNoMatch | rename_movies_subtitles_advanced.py:38 | trimming whitespace does not create a whole-word occurrence |
| WholeWord.MatchShift | rename_movies_subtitles_advanced.py:38 | a whole-word occurrence in the second part of a concatenation, not glued to a word character of the first part, is one of the second part alone |
| WordList.Words | rename_movies.py:22-23 | the words of a text, each a non-empty run of word characters |
| WordList.WordsAppend | rename_movies.py:22-23 | two texts joined at a non-word character have the words of the first, then those of the second |
| WordList.Untagged | rename_movies.py:22-23 | the words that are no alternative: each comes from the list, and every word of the list that is no alternative is kept |
| WordList.SubFromWords | rename_movies.py:22-23 | a scan from a word edge, with alternatives that match only as words, keeps exactly the words that are no alternative, in their order |
| WordList.SubWords | rename_movies.py:22-23 | one `re.sub` pass of such an alternation deletes exactly the words equal (ignoring case) to an alternative and keeps every other word, in order |
| WordList.CollapseKeepsWords | rename_movies.py:24 | collapsing whitespace keeps the words |
| WordList.StripKeepsWords | rename_movies.py:24 | stripping keeps the words |
| WordList.NormalizeKeepsWords | rename_movies.py:24 | normalising the spacing keeps the words |
| WordList.NoAltMatch | rename_movies.py:22-23 | a text none of whose words is an alternative holds no whole-word match of an all-word alternative |
| Years.LastYear | rename_movies_subtitles_advanced2.py:21-22 | the start of the last whole-word `19dd`/`20dd`, with none after it, or none when there is no such word |
| Years.FirstYear | rename_movies_subtitles.py:22-23 | the first `19dd`/`20dd` substring, word boundary or not, with none before it, or none at all |
| Years.WholeYearsApart | rename_movies_subtitles_advanced.py:22 | two whole-word years never overlap, so the list `findall` returns is well defined |
| Years.YearsFrom | rename_movies_subtitles_advanced.py:22 | `re.findall` of whole-word years from a position: exactly the positions of whole-word years there, in increasing order |
| Years.Find | rename_movies_subtitles.py:26 | `str.find`: the first occurrence, or -1 exactly when there is none |
| Years.FindLocatesFirstYear | rename_movies_subtitles.py:26 | `name.find(year)` lands on the very year `re.search` found |
| Years.RemoveEachKeepsYearSuffix | rename_movies_subtitles.py:28-30 | a keyword loop whose keywords all spare a year tag leaves a trailing ` (yyyy)` in place |
| Years.SeparatorsKeepYearTag | rename_movies_subtitles_advanced.py:18 | separator replacement passes a trailing ` (yyyy)` through |
| Years.LastYearIsTag | rename_movies_subtitles_advanced.py:21-26 | in a name ending in ` (yyyy)`, that year is the last whole-word year |
| Keywords.ListSizes | rename_movies.py:17-21 | the lists have 28, 37, 40 and 27 entries, and the dashed and dotted tags of rename_movies.py sit where the source puts them |
| Keywords.StandardSparesYear | rename_movies_subtitles.py:6-13 | no keyword of the standard list can touch a trailing ` (yyyy)` |
| Keywords.SubtitlesAdvancedSparesYear | rename_movies_subtitles_advanced.py:6-13 | the same for that script's list |
| Keywords.SubtitlesAdvanced2SparesYear | rename_movies_subtitles_advanced2.py:6-14 | the same for that script's list |
| Canonical.CanonicalIsRenamed | rename_movies_subtitles.py:34-35 | `title + " (" + year + ")"` passes the renamed test exactly when the title is non-empty and on one line and the year is four digits |
| Canonical.IsRenamed | rename_movies_subtitles.py:34-35 | a name that passes is at least eight characters long and ends in `)`, or in `)` and a newline |
| Canonical.RenamedIsCanonical | rename_movies_subtitles.py:34-35 | a passing name without a final newline is `title + " (" + year + ")"` with a non-empty one-line title and four digits |
| Canonical.ReleaseNameNotRenamed | rename_movies_advanced.py:41-42 | a release name such as `Movie.2010.1080p.BluRay` does not pass |
| Paths.RFind | rename_movies_subtitles_advanced2.py:39-40 | the last index of a character, or -1 exactly when it is absent |
| Paths.Suffix | rename_movies_subtitles_advanced2.py:39-40 | the pathlib suffix is empty, or starts with a dot, ends the name and is shorter than it |
| Paths.Stem | rename_movies_subtitles_advanced2.py:39-40 | the pathlib stem is a prefix of the name, followed by a dot unless it is the whole name |
| Paths.StemSuffix | rename_movies_subtitles_advanced2.py:39-40 | stem followed by suffix is the name; the suffix is empty or a dot followed by at least one character and no further dot; a non-empty suffix has a non-empty stem |
| Paths.SplitExt | rename_movies.py:11 | `splitext` gives a head that is the name without the extension, and an extension that is empty or a dot ending the name |
| Paths.SplitExtParts | rename_movies.py:11 | `splitext` splits the name in two, the second part empty or a dot with no further dot |
| Paths.SplitExtAgreesWithPathlib | rename_movies.py:11 | for names that neither start nor end with a dot, `splitext` and pathlib agree |
| Paths.TrailingDotDisagrees | rename_movies.py:11 | on `Movie.`, pathlib sees no suffix while `splitext` splits off `.` |
| Paths.LeadingDotsDisagree | rename_movies.py:11 | on `..mkv`, pathlib's suffix is `.mkv` while `splitext` sees none |
| Paths.VideoSuffix | rename_movies_subtitles.py:63 | the suffix of a name the video test accepts is its last four characters, a video extension in some case |
| Paths.SubtitleSuffix | rename_movies_subtitles.py:51 | the same for subtitles and `.srt` |
| Paths.VideoIsNotSubtitle | rename_movies_subtitles.py:49-52 | no name is both a video and a subtitle, so the `elif` never hides one |
| Paths.Reattach | rename_movies_subtitles_advanced2.py:49 | `base + ext` if there is an extension, else `base`: the result ends with the extension, and re-splitting it gives back base and extension |
| Paths.RenameKeepsSuffix | rename_movies_subtitles.py:63 | a dot-free cleaned name plus a suffix has that suffix and that stem again |
| Paths.IsVideoName | rename_movies_subtitles.py:49 | a name the video test accepts has a dot four characters from its end |
| Paths.IsSubtitleName | rename_movies_subtitles.py:51 | the same for the subtitle test |
| Paths.MediaNameIsVideoOrSubtitle | rename_movies.py:54-56 | a name with a media extension in rename_movies.py passes the video or the subtitle test of the other scripts |
| Paths.HiddenVideoSkipped | rename_movies.py:54-56 | the converse fails: `.mkv` passes the video test but has no extension for `splitext`, so rename_movies.py skips it |
| Listing.LastWhere | rename_movies_subtitles.py:48-52 | the loop that overwrites on every hit keeps the last match in listing order, or none exactly when nothing matches |
| Listing.FirstWhere | rename_movies_basic.py:45-48 | the loop with `break` keeps the first match, or none exactly when nothing matches |
| Listing.Filter | rename_movies_advanced.py:56-61 | `subs.append` collects only matching names from the listing, every matching name, and no more names than listed |
| Listing.FilterAppend | rename_movies_advanced.py:56-61 | collecting from two listings in turn is collecting from their concatenation, so the names come in listing order |
| Listing.FilterOne | rename_movies_advanced.py:56-61 | a single name is collected exactly when it matches |
| Listing.FolderRenames | rename_movies_subtitles.py:54-70 | the folder goes to the cleaned name; then the movie, inside the renamed folder, goes to cleaned + suffix; then the subtitle, if any, goes to cleaned + `.srt` |
| Listing.TargetsKeepExtension | rename_movies_subtitles.py:63-69 | when the cleaned name is non-empty and dot-free, the new movie and subtitle names keep their extension and have the cleaned name as stem |
| Listing.GuardedPlan | rename_movies_subtitles.py:40-55 | a plan exists exactly for a folder that does not pass the renamed test and holds a video; it takes the last video, cleaned, and the last subtitle, present exactly when the folder holds one |
| Listing.FirstVideoPlan | rename_movies_basic.py:42-51 | a plan exists exactly for a folder holding a video; it takes the first video and no subtitle |
| Listing.FolderPass | rename_movies_subtitles.py:38-43 | every folder rename comes from a listed entry that has a plan and goes to that plan's name; every listed entry with a plan has its folder renamed; no plans means no renames |
| Listing.FolderPassAppend | rename_movies_subtitles.py:38-72 | the pass over two listings is the pass over the first, then over the second: renames come in listing order |
| Listing.FolderPassOne | rename_movies_subtitles.py:38-72 | for one entry, the pass is nothing without a plan and exactly that folder's renames (folder, movie, subtitle) with one |
| Listing.LoosePass | rename_movies_subtitles_advanced.py:83-88 | exactly the regular files named like videos are renamed, each to cleaned + suffix, in the base folder |
| Listing.VideoNameNotRenamed | rename_movies_subtitles_advanced.py:85 | a name ending in a video extension never passes the renamed test, so the loose pass would rename it even with such a guard |
| Basic.FolderPlanFor | rename_movies_basic.py:42-51 | a folder is planned exactly when it holds a video; the plan cleans that video's name and never includes a subtitle |
| Basic.Run | rename_movies_basic.py:39-60 | every folder rename comes from a listed folder that has a plan, and every listed folder with a plan is renamed to its cleaned name |
| Basic.CanonicalFolderIsReplanned | rename_movies_basic.py:39-51 | a folder already named `Title (yyyy)` is planned again, since this script has no renamed test |
| Basic.HyphenJoinsWords | rename_movies_basic.py:30-32 | the keyword `-` joins `Spider-Man` into `SpiderMan` |
| Basic.SpacedDashStays | rename_movies_basic.py:30-32 | a dash between spaces is not deleted |
| Subtitles.Truncate | rename_movies_subtitles.py:25-26 | with a year, everything from the year onwards is replaced by ` (yyyy)` after the head is stripped; without one, the name is unchanged |
| Subtitles.CleanMovieName | rename_movies_subtitles.py:18-32 | the result is trimmed, single-spaced, and holds no `.` or `_` |
| Subtitles.CleanEndsWithFirstYear | rename_movies_subtitles.py:22-32 | when a year is found, the result ends with the word `(yyyy)` of the first year |
| Subtitles.ExtensionSurvivesWithoutYear | rename_movies_subtitles.py:19-32 | without a year the extension stays as a word: `Movie.mkv` gives `Movie mkv` |
| Subtitles.YearInsideDigitRun | rename_movies_subtitles.py:22-26 | the year is found inside a longer run of digits: `Movie.11999.1080p.mkv` gives `Movie 1 (1999)` |
| Subtitles.CleanIsRenamedUnlessBare | rename_movies_subtitles.py:32-35 | with a year, the cleaned name passes the renamed test exactly when it is not just `(yyyy)` |
| Subtitles.FolderPlanFor | rename_movies_subtitles.py:40-55 | a plan cleans the chosen movie name and exists only for a folder that fails the renamed test |
| Subtitles.Run | rename_movies_subtitles.py:37-72 | no folder that passes the renamed test is renamed, and every planned folder is renamed to its cleaned name |
| Subtitles.RenamedFolderIsSkipped | rename_movies_subtitles.py:41-59 | a folder renamed after a movie with a year, to more than the bare tag, is skipped on the next run |
| SubtitlesAdvanced.Kept | rename_movies_subtitles_advanced.py:18-33 | after separators, keywords, collapsing and stripping, the name is trimmed, single-spaced, has no `.` or `_`, and has no whitespace but the space |
| SubtitlesAdvanced.CleanMovieName | rename_movies_subtitles_advanced.py:17-41 | the result is trimmed and has no `.` or `_`; when a whole-word year was found before the keywords went, it ends with the word `(yyyy)` of the last one |
| SubtitlesAdvanced.AppendYearTag | rename_movies_subtitles_advanced.py:39-41 | appending ` (yyyy)` to a trimmed body and stripping gives a name whose last word is the tag, and adds no `.` or `_` |
| SubtitlesAdvanced.SubOpensYearTag | rename_movies_subtitles_advanced.py:38 | deleting the whole-word year from a name ending in `(yyyy)` leaves `()` at the end |
| SubtitlesAdvanced.CleanOpensTag | rename_movies_subtitles_advanced.py:17-41 | a name whose separator-replaced form ends in ` (yyyy)` cleans to something ending in `() (yyyy)` |
| SubtitlesAdvanced.CleanTwiceOpensTag | rename_movies_subtitles_advanced.py:17-41 | cleaning an already canonical `Title (yyyy)` again gives a name ending in `() (yyyy)`, so the cleaner is not idempotent |
| SubtitlesAdvanced.TagJoin | rename_movies_subtitles_advanced.py:38-41 | the tag is joined to the body by one space, or stands alone when the body is empty |
| SubtitlesAdvanced.CleanIsRenamedUnlessBare | rename_movies_subtitles_advanced.py:36-44 | with a year, the cleaned name passes the renamed test exactly when it is not just `(yyyy)` |
| SubtitlesAdvanced.FolderPlanFor | rename_movies_subtitles_advanced.py:49-64 | a plan cleans the chosen movie name and exists only for a folder that fails the renamed test |
| SubtitlesAdvanced.Run | rename_movies_subtitles_advanced.py:46-89 | every base-level rename starts from a listed name that fails the renamed test, loose files included, although the script has no such guard for them; every planned folder and every loose video is renamed |
| SubtitlesAdvanced.RenamedFolderIsSkipped | rename_movies_subtitles_advanced.py:47-64 | a folder renamed after a movie with a year, to more than the bare tag, is skipped on the next run |
| SubtitlesAdvanced.CleanLeavesYearOnlyInTag | rename_movies_subtitles_advanced.py:36-41 | with a year, the cleaned name holds that year as a whole word only inside its trailing `(yyyy)` tag: every other whole-word copy is gone |
| SubtitlesAdvanced.TagOnlyMatch | rename_movies_subtitles_advanced.py:39 | in a body without the year followed by ` (yyyy)`, the year matches as a whole word only between the parentheses |
| SubtitlesAdvanced.MidYearLeavesDoubleSpace | rename_movies_subtitles_advanced.py:33-41 | the year is cut out after the spacing was normalised: `Up.2020.Top.mkv` cleans to `Up  Top (2020)` |
| SubtitlesAdvanced.ExtensionOpensTag | rename_movies_subtitles_advanced.py:17-41 | the extension is deleted as a keyword after the year is taken, so `Movie (2020).mkv` cleans to `Movie () (2020)` |
| SubtitlesAdvanced.MkvRejoined | rename_movies_subtitles_advanced.py:17-41 | the `-` pass runs after the `mkv` pass: `X mk-v.mkv` cleans to `X mkv` |
| SubtitlesAdvanced.FoldFrom | rename_movies_subtitles_advanced.py:29-31 | a keyword loop whose first keywords are inert is the pass of the next keyword followed by the loop over the rest |
| SubtitlesAdvanced2.Kept | rename_movies_subtitles_advanced2.py:19-28 | after separators, keywords, collapsing and stripping, the name is trimmed, single-spaced and has no `.` or `_` |
| SubtitlesAdvanced2.Wrap | rename_movies_subtitles_advanced2.py:31 | with no whole-word match the name is unchanged; otherwise `(yyyy)` stands at the last match, the result is two characters longer, and removing the two parentheses gives the name back |
| SubtitlesAdvanced2.WrapPatternIsLastMatch | rename_movies_subtitles_advanced2.py:31 | the lookahead pattern matches at j exactly when j is the last whole-word match |
| SubtitlesAdvanced2.WrapKeepsShape | rename_movies_subtitles_advanced2.py:31 | wrapping keeps a trimmed, single-spaced name so and adds only parentheses |
| SubtitlesAdvanced2.WrapSplices | rename_movies_subtitles_advanced2.py:31 | the wrap inserts `(` before and `)` after the four digits of the last match and moves nothing else |
| SubtitlesAdvanced2.PlaceYear | rename_movies_subtitles_advanced2.py:30-31 | the year step keeps the shape and adds no `.` or `_`; when `(yyyy)` is already present it changes nothing |
| SubtitlesAdvanced2.WithYear | rename_movies_subtitles_advanced2.py:30-33 | without a year, or with its tag already there, the kept name is returned as it is; the result is always trimmed, single-spaced and free of `.` and `_` |
| SubtitlesAdvanced2.CleanMovieName | rename_movies_subtitles_advanced2.py:18-33 | the result is trimmed, single-spaced and has no `.` or `_`; without a year, or with its tag already in the kept text, it is the kept text |
| SubtitlesAdvanced2.CleanWrapsLastYear | rename_movies_subtitles_advanced2.py:21-31 | when the tag is absent, the last year is wrapped in place at its last whole-word occurrence and nothing else moves |
| SubtitlesAdvanced2.CleanKeepsExistingTag | rename_movies_subtitles_advanced2.py:18-33 | cleaning `Title (yyyy)` keeps the tag: the result ends in `(yyyy)` and no parentheses are added |
| SubtitlesAdvanced2.CleanKeepsTag | rename_movies_subtitles_advanced2.py:24-30 | the same for any name whose separator-replaced form ends in ` (yyyy)` |
| SubtitlesAdvanced2.CleanStem | rename_movies_subtitles_advanced2.py:42-47 | the cleaned stem has no `-`, is trimmed and single-spaced, and holds only spaces and characters of the stem |
| SubtitlesAdvanced2.FinalCleanName | rename_movies_subtitles_advanced2.py:38-49 | the result ends with the original suffix; without a suffix it is the cleaned name itself; with one and a non-empty cleaned stem, re-splitting gives the same suffix and the cleaned stem |
| SubtitlesAdvanced2.EmptyStemLosesSuffix | rename_movies_subtitles_advanced2.py:38-49 | `1080p.mkv` becomes `.mkv`, a name pathlib sees without a suffix |
| SubtitlesAdvanced2.CleanNameIsFixed | rename_movies_subtitles_advanced2.py:38-49 | a name whose stem is already clean is returned unchanged, so the cleanup pass leaves it alone |
| SubtitlesAdvanced2.CleanupDir | rename_movies_subtitles_advanced2.py:97-103 | exactly the media files whose cleaned name differs are renamed, each to that name, in its own folder |
| SubtitlesAdvanced2.CleanupPass | rename_movies_subtitles_advanced2.py:95-104 | over the whole walk, exactly the media files that `final_clean_name` changes are renamed |
| SubtitlesAdvanced2.FolderPlanFor | rename_movies_subtitles_advanced2.py:54-69 | a plan cleans the full movie file name and exists only for a folder that fails the renamed test |
| SubtitlesAdvanced2.Run | rename_movies_subtitles_advanced2.py:51-104 | folder and loose renames start from names that fail the renamed test; every other rename is a cleanup of a media file that changes its name; every planned folder and every loose video is renamed |
| MoviesAdvanced.CleanTitle | rename_movies_advanced.py:19-25 | the result is trimmed and has no `.` or `_` |
| MoviesAdvanced.DeletedTagLeavesDoubleSpace | rename_movies_advanced.py:21-25 | whitespace is collapsed before the keywords go and not after: `Up.ch.2020` gives `Up  2020` |
| MoviesAdvanced.RenamedShape | rename_movies_advanced.py:41-42 | `title (yyyy)` passes `is_renamed` exactly when the title is non-empty and on one line and the year is four digits |
| MoviesAdvanced.FetchTitle | rename_movies_advanced.py:27-39 | a title comes back exactly when the lookup of the cleaned name answers, and it is the answer's `Title (Year)` |
| MoviesAdvanced.FetchedTitleIsRenamed | rename_movies_advanced.py:33-36 | an answer with a one-line title and a four-digit year yields a name that passes `is_renamed` |
| MoviesAdvanced.NewName | rename_movies_advanced.py:67-69 | a new name, when there is one, is never empty |
| MoviesAdvanced.OfflineNewName | rename_movies_advanced.py:67-69 | offline, the new name is `clean_title` of the movie name without its extension, or none when that is empty |
| MoviesAdvanced.OnlineNewName | rename_movies_advanced.py:67-69 | online, it is the formatted lookup answer for that name, or none when there is no answer or it is empty |
| MoviesAdvanced.Namer | rename_movies_advanced.py:67-69 | the naming a run applies gives every movie file its new name |
| MoviesAdvanced.Query | rename_movies_advanced.py:49-68 | the online lookup is made exactly for a folder that fails the renamed test and holds a video, and only when online |
| MoviesAdvanced.Decide | rename_movies_advanced.py:47-76 | a non-folder is skipped first, then a renamed folder, before any cleaning or lookup |
| MoviesAdvanced.DecideFolder | rename_movies_advanced.py:53-76 | skipped for no movie exactly when no video is listed; a plan has a non-empty new name that is not already taken, the last video, and every subtitle in order |
| MoviesAdvanced.DecideFolderPlans | rename_movies_advanced.py:53-76 | conversely, a folder whose last video gets a non-empty new name not yet taken is planned with that name, that video and every subtitle |
| MoviesAdvanced.SubtitleRenames | rename_movies_advanced.py:90-97 | every subtitle goes to new name + `.srt` inside the renamed folder; with several, only the confirmed ones are renamed, in order |
| MoviesAdvanced.RunFrom | rename_movies_advanced.py:47-97 | a dry run renames nothing, an offline run looks nothing up, the loop writes no log file, and the log only grows, by at most one line per entry |
| MoviesAdvanced.RenameStuff | rename_movies_advanced.py:44-101 | a dry run renames nothing; the log file is written exactly on a live run with a non-empty log, and holds the log |
| MoviesAdvanced.LiveRunFromShape | rename_movies_advanced.py:47-89 | from any point of a live run on, renames are only added, and each folder rename belongs to a listed, not yet renamed folder, goes to its last video's new name, and is followed at once by that video's rename to new name + suffix inside the renamed folder |
| MoviesAdvanced.LiveRunShape | rename_movies_advanced.py:44-89 | the same for a whole live run |
| MoviesAdvanced.DryRunMissesCollision | rename_movies_advanced.py:73-82 | two folders whose movies get the same new name are both logged by a dry run, but the live run logs only the first: the dry run does not preview a name collision |
| MoviesAdvanced.LiveTargetsStayApart | rename_movies_advanced.py:73-82 | when the listed names are distinct and already taken, the live loop never sends two folders to the same name |
| MoviesAdvanced.LiveRunTargetsDistinct | rename_movies_advanced.py:73-82 | a live run over a listing of distinct names renames no two folders to the same name |
| Movies.StripBackup | rename_movies.py:12 | a name starting `backup_` loses `backup` and the whole run of underscores after it, so what remains does not start with `_`; any other name is unchanged |
| Movies.DropUnderscores | rename_movies.py:12 | exactly the leading underscores go |
| Movies.Spaced | rename_movies.py:11-15 | before the tags, the name has no brackets, `.`, `_` or `-`, is trimmed and single-spaced, and its non-whitespace characters are exactly those of the name without extension and `backup_` prefix, minus brackets and separators, in order; `.`, `_` and `-` are word breaks: its words are those of the bracket-free name with each separator read as a space |
| Movies.Separate | rename_movies.py:14-15 | on a bracket-free name, the result has no `.`, `_` or `-`, is trimmed and single-spaced, keeps the other non-whitespace characters in order, and has the words of the name with each separator read as a space |
| Movies.SeparatorSplitsWords | rename_movies.py:14-15 | `a.b.mkv` is spaced to `a b`, two words, not `ab` |
| Movies.CleanTitle | rename_movies.py:10-25 | the title has no brackets, `.`, `_` or `-`, and is trimmed and single-spaced |
| Movies.CleanTitleWords | rename_movies.py:10-25 | the words of the title are exactly the words of the spaced name that are no tag (ignoring case), in their order; in terms of the file name, the words of its stem without `backup_` prefix and brackets, with `.`, `_` and `-` read as spaces, minus the tags |
| Movies.CleanTitleHasNoTag | rename_movies.py:17-24 | no tag matches anywhere in the title as a whole word |
| Movies.TagsMatchAsWords | rename_movies.py:14-23 | on a name without `-` and `.`, only tags made of word characters can match |
| Movies.BackupStrippedOnce | rename_movies.py:12 | `backup_backup_X` loses only the first `backup_` |
| Movies.DoubleBackupExample | rename_movies.py:10-25 | `backup_backup_Heat.mkv` cleans to `backup Heat` |
| Movies.DottedTagsNeverMatch | rename_movies.py:14-23 | `WEB-DL`, `AAC5.1` and `DDP5.1` never match, since `-` and `.` are gone before the tags are applied |
| Movies.DeleteAbsent | rename_movies.py:13 | deleting characters that do not occur changes nothing |
| Movies.Scores | rename_movies.py:35-37 | one score per candidate, taken between the lower-cased query and the lower-cased title, `''` when there is none |
| Movies.BestIsUnique | rename_movies.py:35-42 | at most one candidate is the best |
| Movies.Champion | rename_movies.py:33-42 | the fold's pick, if any, is an index of a candidate |
| Movies.BestMatch | rename_movies.py:33-42 | the loop picks the first candidate with the strictly highest positive score, and picks none exactly when no score is above 0 |
| Movies.ChampionIsBest | rename_movies.py:33-42 | the same selection written as a fold meets the same contract |
| Movies.BestTitle | rename_movies.py:27-45 | a title comes only from a positive reply, as `Title (Year)` of the best candidate; a positive reply whose best candidate has both fields always gives one |
| Movies.Move | rename_movies.py:63 | after a rename the target holds the source's content and the source is gone; other files are untouched |
| Movies.MoveBack | rename_movies.py:83-84 | renaming to a free name and back restores the tree exactly |
| Movies.MoveKeeps | rename_movies.py:63 | a rename inside one folder creates no content and touches no other folder |
| Movies.LogLine | rename_movies.py:79-80 | a file adds one log line, `file -> title + ext`, when a title was found, none otherwise |
| Movies.Ext | rename_movies.py:54 | the extension is empty or starts with a dot, is shorter than the name and ends the lower-cased name |
| Movies.TitleFor | rename_movies.py:58-71 | a title is found only when OMDb answered the lookup of the cleaned name with a match |
| Movies.TwoPhase | rename_movies.py:61-84 | a dry run only logs; the log grows by the line or not at all; only an unmatched file can end the run; no content appears, no other folder changes, and the file count never grows |
| Movies.ProcessFile | rename_movies.py:53-84 | the same for one listed file, which is skipped unless its extension is a media one: a file without one leaves the state, files and log, exactly as it was, in a live run as in a dry run |
| Movies.TempFailureSkips | rename_movies.py:61-66 | a failed temporary rename leaves files and log unchanged |
| Movies.MatchedFileMoves | rename_movies.py:71-80 | with a match and a successful final rename, the file's content is at the final name, the original name is gone, and the line is logged |
| Movies.FailedFinalStaysAtTemp | rename_movies.py:74-80 | a failed final rename leaves the file under the temporary name, unreverted, and the line is still logged |
| Movies.UnmatchedFileRestored | rename_movies.py:81-84 | without a match, a successful revert restores the tree exactly when the temporary name was free |
| Movies.RevertLosesTempOccupant | rename_movies.py:81-84 | when a file already had the temporary name, the round trip loses it |
| Movies.FailedRevertStops | rename_movies.py:83-84 | a failed revert ends the run with the file under its temporary name and nothing logged |
| Movies.FilesFrom | rename_movies.py:53-84 | over one folder's files, a dry run changes nothing; only a live run can end early; the log only grows; the other folders are untouched; a folder with no media file leaves the state unchanged |
| Movies.VisitDir | rename_movies.py:50-53 | the root is handled only with loose files included; a folder with no media file leaves the state unchanged |
| Movies.WalkFrom | rename_movies.py:50-84 | over the walk, only visited folders change and no content is created; a walk with no media file leaves the state unchanged |
| Movies.RenameFilesInDirectory | rename_movies.py:47-89 | a dry run moves no file of the tree and only writes the log (`backup_log.txt`, which the model keeps apart from the tree); no content is created; folders outside the walk are untouched; without loose files no file of the root is moved; the file count never grows; a tree with no media file is left as it is, with an empty log |
| Movies.RootNotVisited | rename_movies.py:50-52 | without loose files, the root is never among the visited folders |

## Left out

- The OMDb requests: the reply is a lookup function given to the model. A network error,
  which the scripts catch, is the lookup returning nothing.
- `difflib.SequenceMatcher.ratio` is a library heuristic on floats. It is an uninterpreted
  score; only its order matters.
- `os.listdir` and `os.walk` order, `os.path.isdir`/`isfile`/`exists`: the listing,
  the walk and the set of taken names are inputs.
- The effect of each `os.rename` is modelled only in rename_movies.py, where success or
  failure changes what follows. The folder-renaming scripts produce a list of renames.
  Failures there raise and end the script, which is not modelled.
- Renaming onto an existing name follows POSIX `rename` (the old target is replaced).
  Windows refuses it, which in rename_movies.py would be a failed rename (an `Outcome`
  with the flag off).
- Case-insensitive file systems and path separators inside names: names are compared
  exactly. An OMDb title holding `/` is taken as a plain name.
- `input()` prompts, `argparse`, `print`, hard-coded paths and API keys. The `[y/N]`
  subtitle prompt is the `confirm` function.
- The format of the log files: logs are sequences of lines. The encoding and the final
  newline are not modelled.
- Unicode: `\w`, `\s` and case folding are ASCII only, and names are taken without
  newlines where `$` would matter. `Canonical.IsRenamed` does model `$` before a trailing
  newline.
- pathlib from Python 3.14 on, which treats a trailing-dot name differently: the suffix
  follows the earlier rule (last dot, not first, not last character).
- Several confirmed subtitles in rename_movies_advanced.py renamed to the same `.srt`:
  the renames are listed in order, with no model of which file survives.
- The passes of one script run on the listing taken at the start. Effects of one pass on
  the next listing are not modelled. The loose-file pass sees the same base listing,
  since the folder pass renames folders only.
- The first `re.findall` with a capturing group in rename_movies_subtitles_advanced.py
  (line 21) is never used, so it has no model.
- Subtitles.CleanMovieName: the contract states the character classes, trimming and the
  year word. The exact keyword output is shown on examples (`ExtensionSurvivesWithoutYear`,
  `YearInsideDigitRun`) rather than stated for all inputs: a loop of one `re.sub` per
  keyword can join two pieces into a new keyword (`SubtitlesAdvanced.MkvRejoined`), so no
  word-by-word statement holds for it.
- MoviesAdvanced.CleanTitle: the same, shown on `DeletedTagLeavesDoubleSpace`.
- SubtitlesAdvanced.Kept: the same; the contract states trimming, spacing and the
  character classes, and examples (`MidYearLeavesDoubleSpace`, `MkvRejoined`) show the
  keyword output.
- SubtitlesAdvanced2.Kept: the same, for that script's keyword loop.
- SubtitlesAdvanced2.CleanStem: the same, for the keyword loop and the dash replacement on
  the raw stem; `CleanNameIsFixed` and `EmptyStemLosesSuffix` show its output.
- WholeWord.Sub: its own contract only bounds the length. Which words go is stated by
  `WordList.SubWords` for an alternation that can only match whole words, and by
  `WholeWord.SubRemovesWord` for one keyword.
- WholeWord.RemoveEach: its own contract only bounds the length, for the reason given for
  `Subtitles.CleanMovieName`; `RemoveEachChars`, `RemoveEachAppend` and `RemoveEachInert`
  state what holds in general.
- Movies.Champion: its own contract only says the pick is a candidate; `ChampionIsBest`
  states which one.
- MoviesAdvanced.RunFrom: the contract bounds the log but does not state its lines
  (`folder -> new_name`, one per planned folder, dry run or not).
- Subtitles.FolderPlanFor, SubtitlesAdvanced.FolderPlanFor, SubtitlesAdvanced2.FolderPlanFor:
  the contracts state the cleaning and the guard. The choice of last video and last
  subtitle is stated once, in `Listing.GuardedPlan`, which all three call.

## Surprising behaviour of the scripts

- Cleaning a canonical name again is not the identity. In
  rename_movies_subtitles_advanced.py, `Title (2020)` becomes `Title () (2020)`
  (`SubtitlesAdvanced.CleanTwiceOpensTag`), and so does `Title (2020).mkv`
  (`SubtitlesAdvanced.ExtensionOpensTag`). The renamed-folder test keeps such folders
  from being cleaned twice. rename_movies_subtitles_advanced2.py keeps the tag as it is
  (`SubtitlesAdvanced2.CleanKeepsExistingTag`).
- `^backup_+` removes one `backup` and its underscores, not every `backup_` prefix
  (`Movies.BackupStrippedOnce`).
- In rename_movies.py, a failed final rename is not reverted. The file stays under its
  temporary name and the line is logged as if renamed (`Movies.FailedFinalStaysAtTemp`).
- A file that already had the temporary name is overwritten by the temporary rename, so
  the revert loses it (`Movies.RevertLosesTempOccupant`).
- A dry run of rename_movies_advanced.py is not an exact preview. Two folders whose
  movies get the same new name are both logged by the dry run. The live run skips the
  second, because the first now holds the name (`MoviesAdvanced.DryRunMissesCollision`).
- `backup_log.txt` is written on a dry run too, and is not written when a revert raises.
- In rename_movies.py the tags `WEB-DL`, `AAC5.1` and `DDP5.1` can never match. `-` and
  `.` are turned into spaces before the tags are applied (`Movies.DottedTagsNeverMatch`).
- In the `clean_*` functions of the five folder scripts, the keyword `DD5.1` can never
  match, and neither can `_` where it is listed: separators are replaced before the
  keywords are applied. `final_clean_name` in rename_movies_subtitles_advanced2.py applies
  the same list to the raw stem, where `DD5.1` can match.
- `final_clean_name("1080p.mkv")` is `.mkv`, a hidden name with no suffix
  (`SubtitlesAdvanced2.EmptyStemLosesSuffix`).
- A trailing `mkv`/`mp4`/`avi` word can survive the keyword loop of
  rename_movies_subtitles_advanced.py in general. An example is `X mk-v.mkv`, which cleans
  to `X mkv`: the `-` pass runs after the `mkv` pass and joins `mk` and `v` into a new
  `mkv` (`SubtitlesAdvanced.MkvRejoined`).
- In rename_movies_subtitles_advanced.py the year is cut out after the spacing was
  normalised, so a year in the middle of a name leaves two spaces: `Up.2020.Top.mkv`
  becomes `Up  Top (2020)` (`SubtitlesAdvanced.MidYearLeavesDoubleSpace`).
- rename_movies.py skips a file named `.mkv`, which the other scripts take for a video:
  `splitext` sees no extension in it (`Paths.HiddenVideoSkipped`).
