# Text-source search, DataCamp code extraction and clip audio replacement — a Dafny model

This project models the logic of three small Python tools. The network,
the subprocesses, the web driver and the UI that surround that logic are
not modelled.

* **Text-source search** (`FindTextSources`). A searched text is matched
  against the web pages a search returns. Each page is fetched in its own
  task. The tasks are collected in whatever order `asyncio.wait` reports
  them, then sorted back into page order by task name. Each page becomes a
  `FoundWebSource` record with a similarity score: the best
  `duplicate_score` over all pairs of 380-character patches. The record's
  date text ("5 hours ago", "2 days ago", "Jan 5, 2023") is normalised to
  a calendar date by a field validator.
* **DataCamp code extraction**. The code blocks of a page are formatted
  with `black` when a line length is given. Blocks `black` cannot parse
  are kept as they are. The blocks are joined with a fixed separator, and
  the output file is named after the last segment of the page URL.
* **Audio replacement app**. A video is cut into clips by `ffmpeg`, which
  numbers the segment files from a unique name. The chosen clip gets new
  audio. The clips, edited or not, can be downloaded as one archive, and
  the page shows a warning, buttons, a notice and a grid of players that
  follow the session's state.

Modules: `Wrappers` (Option/Result), `PyBuiltins` (range, slices, negative
indexing, `sort(key=...)`), `Strings` (`in`, `rfind`, `split`, `join`,
`sorted`), `Decimal` (`str(n)` and `int(s)`), `Calendar` (the proleptic
Gregorian dates of `datetime.date` and `date - timedelta`),
`DateNormalizer`, `Similarity` and `TextSourceSearch` for
`text_source_search/search_sites_by_text_serper.py`, `ExtractCode` for
`datacamp_extraction/extract_code.py`, and `AudioUtils`, `AudioChange`
and `AudioApp` for `change_audio_app.py/utils.py`, `audio_change.py` and
`app.py`.

Within what is modelled, the branches, error cases and constants follow
the code; what is not modelled is listed under "## Left out". Where the
code allows an outcome its authors may not have had in mind, the model
keeps that outcome:
* a path without a '.' gets its last character as "extension";
* `chosen_clip` 0 edits the last clip;
* any text containing "day" (including "today" and "Monday") is read as a
  number of days ago;
* a fetched page without `text` makes the whole search raise TypeError
  when the searched text is longer than 140 characters;
* a search that returns no pages raises ValueError, because
  `asyncio.wait` refuses an empty list of tasks.

## Model

| member | source | states |
|---|---|---|
| `TextSourceSearch.ToListIfSingle` | text_source_search/search_sites_by_text_serper.py:149-155 | int, bool, str, float, bytes and dict values become a one-element list. Every other value comes back unchanged. The result is never a single value. |
| `TextSourceSearch.ToListIfSingleIdempotent` | text_source_search/search_sites_by_text_serper.py:154 | wrapping twice is wrapping once |
| `TextSourceSearch.LaunchTasks` | text_source_search/search_sites_by_text_serper.py:172-175 | one task per page, in page order, each carrying its page's fetch outcome |
| `TextSourceSearch.TaskNamesDecode` | text_source_search/search_sites_by_text_serper.py:172-180 | `int(task.get_name())` gives back the page position `str(idx)` encoded |
| `TextSourceSearch.LaunchedTaskPosition` | text_source_search/search_sites_by_text_serper.py:172-180 | a launched task's name decodes to its own position in the launch order |
| `TextSourceSearch.LaunchedDistinct` | text_source_search/search_sites_by_text_serper.py:173 | two launched tasks are never equal, since their names differ |
| `TextSourceSearch.LaunchedOnce` | text_source_search/search_sites_by_text_serper.py:172-175 | each task occurs at most once among the launched tasks |
| `TextSourceSearch.DoneNotPending` | text_source_search/search_sites_by_text_serper.py:172-184 | when done and pending together hold each launched task once, no finished task is also pending |
| `TextSourceSearch.Entries` | text_source_search/search_sites_by_text_serper.py:177-184 | one collected pair per task, in the order the tasks are visited |
| `TextSourceSearch.EntriesSnoc` | text_source_search/search_sites_by_text_serper.py:179-183 | collecting one more task appends exactly its pair |
| `TextSourceSearch.DoneEntry` | text_source_search/search_sites_by_text_serper.py:179-180 | a finished task's name parses. A task that returned gives the pair (its index, what it returned). |
| `TextSourceSearch.PendingEntry` | text_source_search/search_sites_by_text_serper.py:182-183 | a pending task's name parses and it gives the pair (its index, `None`) |
| `TextSourceSearch.CollectOutcomes` | text_source_search/search_sites_by_text_serper.py:177-184 | the two collecting loops succeed exactly when no finished task raised. They then give the pairs of the finished tasks, then those of the pending ones. |
| `TextSourceSearch.NothingPending` | text_source_search/search_sites_by_text_serper.py:172-175 | with nothing pending, each page is paired with exactly what its fetch returned |
| `TextSourceSearch.Collected` | text_source_search/search_sites_by_text_serper.py:186 | the pairs in page order: position `i` holds index `i` and page `i`'s content |
| `TextSourceSearch.SortRestoresPageOrder` | text_source_search/search_sites_by_text_serper.py:172-186 | however `asyncio.wait` splits and orders the tasks, sorting the collected pairs by index gives the pairs in page order |
| `TextSourceSearch.TextAndScore` | text_source_search/search_sites_by_text_serper.py:190-195 | no content gives no text and no score. Content gives its text and `source_score`. A failure is one of two errors: TypeError exactly when the content has no text and the searched text is longer than 140 characters (the searched text's patches are computed first), ValueError otherwise, when either text yields no patch. |
| `TextSourceSearch.BuildSource` | text_source_search/search_sites_by_text_serper.py:189-208 | it succeeds exactly when the score and the date validation succeed. Every field of the record comes from the search, the page or the content, and the score is `source_score`. The stored date is what the `website_date` validator makes of the page's date: never text, and absent exactly when the page has none. |
| `TextSourceSearch.PairedSource` | text_source_search/search_sites_by_text_serper.py:189 | zipping page `i` with its own task's content builds page `i`'s record |
| `TextSourceSearch.ZipSources` | text_source_search/search_sites_by_text_serper.py:188-209 | it succeeds exactly when every page's record can be built. The result then has one record per page, record `i` being page `i`'s. |
| `TextSourceSearch.FindTextSource` | text_source_search/search_sites_by_text_serper.py:157-210 | a search without pages raises, since `asyncio.wait` refuses an empty list. Otherwise it succeeds exactly when no finished fetch raised and every page's record can be built. It then returns one record per page, in page order, each from its own page and its own task's content. |
| `Similarity.PairScores` | text_source_search/search_sites_by_text_serper.py:140-147 | the generator yields some score exactly when both texts have patches |
| `Similarity.PairScored` | text_source_search/search_sites_by_text_serper.py:140-147 | every pair of patches is scored |
| `Similarity.OnlyPairsScored` | text_source_search/search_sites_by_text_serper.py:140-147 | nothing but pairs of patches is scored |
| `Similarity.MaxOf` | text_source_search/search_sites_by_text_serper.py:140 | `max` raises on an empty sequence. Otherwise its result is a member and no member exceeds it. |
| `Similarity.SourceScore` | text_source_search/search_sites_by_text_serper.py:131-147 | `source_score` gives a score exactly when both texts are longer than `minimum_comparison_patch`; otherwise `max` raises ValueError |
| `Similarity.PatchesExist` | text_source_search/search_sites_by_text_serper.py:145-146 | a text yields a patch exactly when it is longer than `minimum_comparison_patch` |
| `Similarity.SourceScoreIsBestPair` | text_source_search/search_sites_by_text_serper.py:131-147 | the score exists exactly when both texts are longer than the minimum. It is then the score of some pair of patches and at least every pair's score. |
| `Similarity.PatchesAreChunks` | text_source_search/search_sites_by_text_serper.py:142-146 | patch `k` is the slice `[k*size : k*size+size]` |
| `Similarity.PatchAt` | text_source_search/search_sites_by_text_serper.py:142-146 | patch `k` starts before `len - minimum` and is cut short only by the end of the text |
| `Similarity.PatchLengths` | text_source_search/search_sites_by_text_serper.py:136-146 | when `minimum < size`, every patch is longer than `minimum` and at most `size` long. Every patch but the last is exactly `size` long. |
| `Similarity.PatchCoverage` | text_source_search/search_sites_by_text_serper.py:142-146 | the patches concatenate to a prefix of the text that leaves out at most `minimum` characters |
| `Similarity.DefaultPatchShape` | text_source_search/search_sites_by_text_serper.py:136-137 | with the defaults 380 and 140, patches are 141 to 380 characters long and at most 140 characters stay uncovered |
| `Similarity.ScoreInUnitInterval` | text_source_search/search_sites_by_text_serper.py:124-147 | if the ratio is always in [0, 1], so is the score |
| `Similarity.SelfScoreIsOne` | text_source_search/search_sites_by_text_serper.py:124-147 | a text longer than the minimum, compared with itself, scores 1 |
| `DateNormalizer.MonthNumber` | text_source_search/search_sites_by_text_serper.py:50-63 | the table maps exactly the twelve names, case-sensitively, to their positions 1 to 12 |
| `DateNormalizer.FirstDigitRun` | text_source_search/search_sites_by_text_serper.py:68 | `re.search(r'\d+')` finds a run exactly when the text has a digit. The run is non-empty and all digits, no digit comes before it, and no digit follows it: the leftmost, longest run. |
| `DateNormalizer.YearAt` | text_source_search/search_sites_by_text_serper.py:69-70 | the tail `, (\d{4})` matches exactly at a comma, a space and four digits, and the year is `int` of those four digits |
| `DateNormalizer.MatchAt` | text_source_search/search_sites_by_text_serper.py:69-70 | a match at `i` has three word characters from `i` as its month name and a space after them. The day is `int` of one or two digits, which the year group follows. Conversely, whenever three word characters, a space, a digit and then a year tail after one or two digits stand at `i`, it matches there, and `\d{1,2}` takes two digits whenever the year tail follows two. |
| `DateNormalizer.SearchDateFrom` | text_source_search/search_sites_by_text_serper.py:69 | `re.search` of the date pattern finds the leftmost position where it matches, or nothing when no position matches |
| `DateNormalizer.MakeDate` | text_source_search/search_sites_by_text_serper.py:71 | `date(...)` succeeds exactly on a valid proleptic Gregorian date |
| `DateNormalizer.DaysAgo` | text_source_search/search_sites_by_text_serper.py:68 | `today - timedelta(n)` succeeds exactly when `n` is within timedelta's range and the result is not before 0001-01-01. The result is then `n` days before today. |
| `DateNormalizer.WebsiteDateStrToDate` | text_source_search/search_sites_by_text_serper.py:45-73 | every date the conversion returns is a valid date |
| `DateNormalizer.HoursMeansToday` | text_source_search/search_sites_by_text_serper.py:65-66 | any text containing "hours" is today |
| `DateNormalizer.DayMeansDaysAgo` | text_source_search/search_sites_by_text_serper.py:67-68 | otherwise, a text containing "day" is today minus its first number in days. It is an error without a digit, or when the count is out of range. |
| `DateNormalizer.ExplicitDate` | text_source_search/search_sites_by_text_serper.py:69-71 | otherwise, the leftmost `Mon D, YYYY` match is decoded |
| `DateNormalizer.FirstMatchFound` | text_source_search/search_sites_by_text_serper.py:69 | the search returns the match at the first position that has one |
| `DateNormalizer.FromMatchCases` | text_source_search/search_sites_by_text_serper.py:70-71 | a month not in the table is a KeyError. Otherwise the result is that month's date if it is valid, else a ValueError. |
| `DateNormalizer.OtherTextFails` | text_source_search/search_sites_by_text_serper.py:72-73 | any other text raises the final ValueError |
| `DateNormalizer.SearchFindsNothing` | text_source_search/search_sites_by_text_serper.py:69 | with no match at any position, the search finds nothing |
| `DateNormalizer.TwoDaysAgoExample` | text_source_search/search_sites_by_text_serper.py:67-68 | "2 days ago" is the date two ordinals before today, on any day after 0001-01-02 |
| `DateNormalizer.MondayExample` | text_source_search/search_sites_by_text_serper.py:67-68 | "Monday" has no digits, so it raises AttributeError |
| `DateNormalizer.SearchedDate` | text_source_search/search_sites_by_text_serper.py:69-71 | a text with no keyword whose pattern search succeeds is the decoded match |
| `DateNormalizer.ExplicitDateExample` | text_source_search/search_sites_by_text_serper.py:69-71 | "Published Jan 5, 2023" is 2023-01-05 |
| `DateNormalizer.GarbageExample` | text_source_search/search_sites_by_text_serper.py:72-73 | a text with no keyword and no date raises ValueError |
| `DateNormalizer.ValidateWebsiteDate` | text_source_search/search_sites_by_text_serper.py:35-43 | text is replaced by the date `website_date_str_to_datetime` converts it to, and fails with that conversion's error. A date or `None` passes unchanged. A validated value is never text. |
| `DateNormalizer.ValidateIdempotent` | text_source_search/search_sites_by_text_serper.py:35-43 | validating a validated value changes nothing |
| `Calendar.DaysBeforeYearClosedForm` | text_source_search/search_sites_by_text_serper.py:68 | the days before year `y` equal `365(y-1) + (y-1)/4 - (y-1)/100 + (y-1)/400`, the closed form `date` arithmetic uses |
| `Calendar.Ordinal` | text_source_search/search_sites_by_text_serper.py:68 | day ordinals start at 1, on 0001-01-01 only |
| `Calendar.PrevDay` | text_source_search/search_sites_by_text_serper.py:68 | the day before a date is valid and one ordinal earlier |
| `Calendar.SubtractDays` | text_source_search/search_sites_by_text_serper.py:68 | subtracting `n` days succeeds exactly when `n` is below the ordinal. It then gives the valid date `n` ordinals earlier. |
| `Decimal.ParseNatToString` | text_source_search/search_sites_by_text_serper.py:172-180 | `int(str(n)) == n` |
| `Decimal.NatToStringInjective` | text_source_search/search_sites_by_text_serper.py:173 | distinct indices give distinct task names |
| `PyBuiltins.SortByKey` | text_source_search/search_sites_by_text_serper.py:186 | `sort(key=lambda i: i[0])` gives a permutation ordered by key |
| `PyBuiltins.SortedByKeyUnique` | text_source_search/search_sites_by_text_serper.py:186 | a sorted permutation of pairs with consecutive keys is unique |
| `ExtractCode.FormatOrKeep` | datacamp_extraction/extract_code.py:60-64 | a block `black` formats becomes `black`'s output. A block `black` rejects with `InvalidInput` is kept as it is. Any other failure of `black` propagates. |
| `ExtractCode.FormatOrKeepIdempotent` | datacamp_extraction/extract_code.py:60-64 | with a formatter that leaves its own output as it is, formatting twice is formatting once |
| `ExtractCode.FormatBlocks` | datacamp_extraction/extract_code.py:49-65 | it returns exactly when no block makes `black` fail other than by rejecting it. It then gives the same number of blocks, in order, each formatted or kept. |
| `ExtractCode.ExtractedText` | datacamp_extraction/extract_code.py:36-39 | without a line length, the blocks are joined unchanged. With one, the formatted blocks are joined by the separator. |
| `ExtractCode.JoinLength` | datacamp_extraction/extract_code.py:39 | joining N blocks adds N-1 separators and nothing else |
| `ExtractCode.JoinAppend` | datacamp_extraction/extract_code.py:39 | each block follows the separator after the joined earlier blocks |
| `ExtractCode.LastSegment` | datacamp_extraction/extract_code.py:71 | `url.split('/')[-1]` is what follows the last '/'. It holds no '/' and is empty exactly when the URL is empty or ends in '/'. |
| `ExtractCode.GetTitleFromUrl` | datacamp_extraction/extract_code.py:68-71 | the name always ends in ".html" and holds no '/'. It is "blocks.html" exactly for a URL that is empty or ends in '/'. Otherwise it is the last segment plus ".html". |
| `ExtractCode.TitleNamesLastSegment` | datacamp_extraction/extract_code.py:68-71 | a URL ending in "/segment" gives "segment.html" |
| `Strings.SplitJoin` | datacamp_extraction/extract_code.py:71 | joining the pieces of `s.split(c)` with `c` gives `s` back |
| `Strings.SplitPiecesWithout` | datacamp_extraction/extract_code.py:71 | no piece of a split holds the separator |
| `Strings.SplitLast` | datacamp_extraction/extract_code.py:71 | the last piece of a split is what follows the last separator |
| `Strings.SortStrings` | change_audio_app.py/utils.py:35 | `sorted` on strings gives a permutation in lexicographic order |
| `AudioUtils.PathJoin` | change_audio_app.py/utils.py:34-35 | POSIX `os.path.join`: an absolute name replaces the directory. Otherwise the result is the directory then the name, with a '/' between them unless the directory is empty or already ends in '/'. |
| `AudioUtils.JoinedPathContains` | change_audio_app.py/utils.py:35 | a joined path contains whatever its name contains |
| `AudioUtils.Matching` | change_audio_app.py/utils.py:35 | the filter keeps exactly the listed names that contain the unique name, each as often as it is listed |
| `AudioUtils.GetAllPaths` | change_audio_app.py/utils.py:34-35 | the result is sorted and is a permutation of the listed names that contain the unique name, each joined to the directory |
| `AudioUtils.GetAllPathsMembers` | change_audio_app.py/utils.py:34-35 | a path is returned exactly when it is a listed name containing the unique name, joined to the directory |
| `AudioUtils.GetAllPathsContainName` | change_audio_app.py/utils.py:34-35 | every returned path contains the unique name |
| `AudioUtils.Extension` | change_audio_app.py/utils.py:42 | the slice from `rfind('.')` is a suffix that starts with the last '.'. Without a '.' it is the last character, and for an empty path it is empty. |
| `AudioUtils.PathTemplate` | change_audio_app.py/utils.py:44 | the segment template is `f'{unique_name}_%09d{extension}'` joined to the directory. It contains the unique name and ends with `%09d` and the extension. |
| `AudioUtils.ZeroPad9` | change_audio_app.py/utils.py:44 | `%09d` writes exactly max(9, len(str(k))) digits: `str(k)` at the end and zeros only in front of it |
| `AudioUtils.ZeroPad9RoundTrip` | change_audio_app.py/utils.py:44 | the padded segment number reads back as the number |
| `AudioUtils.LeadingZeros` | change_audio_app.py/utils.py:44 | leading zeros do not change the value of a number |
| `AudioUtils.SegmentFillsTemplate` | change_audio_app.py/utils.py:43-44 | segment `k`'s name is the template's name with its `%09d` placeholder replaced by `k` padded to nine digits |
| `AudioUtils.ListedNameFound` | change_audio_app.py/utils.py:34-35 | a listed name containing the unique name comes back from `get_all_paths`, joined to the directory |
| `AudioUtils.SegmentsAreFound` | change_audio_app.py/utils.py:43-56 | every segment `ffmpeg` writes from the template is among the paths `get_all_paths` returns afterwards |
| `AudioUtils.SplitOnParts` | change_audio_app.py/utils.py:52-57 | a non-zero exit code raises the split RuntimeError. Otherwise the result is `get_all_paths` of the directory afterwards: sorted paths, each containing the unique name. |
| `AudioUtils.ReplaceAudio` | change_audio_app.py/utils.py:60-69 | a non-zero exit code raises the replace RuntimeError. Otherwise the result is the new file `uuid + extension` joined to the directory, so it ends in the video's extension. |
| `AudioChange.Originals` | change_audio_app.py/app.py:66 | one original per clip, in order |
| `AudioChange.ShownPath` | change_audio_app.py/audio_change.py:57 | `clip['edited'] or clip['original']`: the edited path when it is non-empty, the original otherwise (no edited path, or an empty one) |
| `AudioChange.FreshClips` | change_audio_app.py/audio_change.py:23-28 | the new clips have exactly the given paths as their originals, in order, and each has `edited` None |
| `AudioChange.ArchivePaths` | change_audio_app.py/audio_change.py:57 | one path per clip, in order: its edited path when that is non-empty, its original otherwise. With no edited clip, the list is the originals. |
| `AudioChange.WithEdited` | change_audio_app.py/audio_change.py:49 | only clip `k` changes: its edited path is set and its original is kept |
| `AudioChange.FreshArchive` | change_audio_app.py/audio_change.py:23-57 | a freshly split session archives exactly the split files, in order |
| `AudioChange.ArchiveAfterEdit` | change_audio_app.py/audio_change.py:49-57 | editing clip `k` changes only entry `k` of the archive list, to the new file |
| `AudioChange.EditChosen` | change_audio_app.py/audio_change.py:36-49 | an out-of-range `chosen_clip - 1` raises IndexError. A failing `ffmpeg` raises RuntimeError. Otherwise exactly that clip gets the new file. |
| `AudioChange.ChosenPosition` | change_audio_app.py/audio_change.py:37 | clip numbers 1 to n read clip n-1; 0 reads the last clip |
| `AudioChange.ClipSession.Split` | change_audio_app.py/audio_change.py:9-30 | the new session records its inputs, has no archive and holds one unedited clip per path, in order |
| `AudioChange.ClipSession.RiffusionInference` | change_audio_app.py/audio_change.py:33-51 | the clips become what `EditChosen` gives and the new path is returned. On an error nothing changes. |
| `AudioChange.ClipSession.CreateArchive` | change_audio_app.py/audio_change.py:54-59 | the archive path is `uuid.zip` in the directory. The files are, per clip in order, the edited file if there is one, else the original. |
| `AudioApp.Caution` | change_audio_app.py/app.py:16-27 | the first failing check (parts, then range, then integer) appends its message. The warning is shown, and the text differs from the heading, exactly when the inputs are not accepted. |
| `AudioApp.GenerateVisible` | change_audio_app.py/app.py:49-54 | the button is shown exactly when a video is loaded and the warning is the bare heading. Any appended message hides it. |
| `AudioApp.GenerateHiddenByWarning` | change_audio_app.py/app.py:49-54 | any appended warning hides the generate button |
| `AudioApp.GenerateAfterCaution` | change_audio_app.py/app.py:16-54 | the button is shown exactly when a video is loaded and the inputs are accepted |
| `AudioApp.ReusedPaths` | change_audio_app.py/app.py:61-68 | the earlier originals are reused exactly for the same video and the same number of clips |
| `AudioApp.SplitVideo` | change_audio_app.py/app.py:57-72 | a new session over the reused originals, or over the files a successful new split leaves. Either way every clip starts unedited and there is no archive. |
| `AudioApp.DownloadArchive` | change_audio_app.py/app.py:75-81 | it returns the recorded archive, else creates a new one over the shown files and records it. Only the archive changes. |
| `AudioApp.DownloadTwice` | change_audio_app.py/app.py:75-81 | two downloads give the same archive, and the second writes nothing |
| `AudioApp.DownloadVisible` | change_audio_app.py/app.py:84-87 | the download button is shown exactly when there is a session |
| `AudioApp.ProcessingNoticeVisible` | change_audio_app.py/app.py:152-154 | the notice is shown exactly while no clip has an edited file |
| `AudioApp.NoneEdited` | change_audio_app.py/app.py:153 | `not any(edited)` holds exactly when every clip is unedited |
| `AudioApp.NoticeFollowsEdits` | change_audio_app.py/app.py:152-154 | a new split shows the notice, and editing any clip hides it |
| `AudioApp.ConcatRows` | change_audio_app.py/app.py:162-171 | rows of shown paths concatenate to the shown paths of the concatenated groups |
| `AudioApp.RowsCover` | change_audio_app.py/app.py:162-163 | rows of `num_columns` clips cover a prefix of the clips, in order |
| `AudioApp.RowPlayers` | change_audio_app.py/app.py:165-171 | one player per clip of the row, showing its edited file or else its original |
| `AudioApp.UpdateClips` | change_audio_app.py/app.py:158-171 | there is one row per start in `range(0, num_clips, num_columns)`, and none without a session. Row `k` shows the clips `clips[k*w : k*w+w]`, each by its edited file or else its original, so each row has at most `num_columns` players. Read in order, the rows show the clips, each exactly once when the session holds `num_clips` clips. |

## Left out

- The network. `bing_search` (the Apify actor), `get_website_content_serper` (aiohttp) and the environment keys are not modelled. The search result is given as its pages. Each fetch is given as its outcome: the JSON body, `None` for a response that was not OK, or an exception. The `IndexError` of `bing_search(...)[0]` on an empty result is not modelled.
- `asyncio` scheduling. `asyncio.wait` is given as any split of the launched tasks into done and pending, in any order. `task.cancel()` has no effect on the result and is not modelled.
- `duplicate_score` is difflib's `SequenceMatcher.ratio()`, a float computation. It is the parameter `dup`. Its range [0, 1] and self-ratio 1 are assumed only by the lemmas that state them.
- Floating point: scores are `real`, and `gr.Number` floats are `real`. NaN and infinities are not modelled.
- The clocks. `date.today()` is the parameter `today`, and `datetime.now` for `searched_at` is one integer timestamp parameter.
- Pydantic's model machinery, its type coercion and `FoundWebSources` are not modelled. Only the `website_date` validator runs on the fields.
- `DateNormalizer.IsWordChar`: the regular-expression classes `\w` and `\d` are ASCII only. Unicode letters and digits are not modelled.
- `Decimal.ParseInt`: `int()` is modelled on strings of ASCII digits only. Signs, whitespace and underscores are not modelled, since the task names and the regex groups never hold them.
- `TextSourceSearch.Entry`: a task name `int` cannot read would raise ValueError. The model gives it the key -1 instead; `LaunchedTaskPosition` proves no such name occurs.
- Selenium's web driver, BeautifulSoup, `pygments.highlight` and the output file. The code blocks are given. `black.format_str` is the parameter `format`, with three outcomes: formatted text, `InvalidInput`, or any other exception.
- `AudioUtils.PathJoin` models POSIX `os.path.join` only. On Windows, where the module's own `__main__` block runs it (utils.py:79-81), `os.path.join` is `ntpath.join`. Its drive letters and backslash separators are not modelled.
- Gradio. Components, events, rendering and the `exact` checkbox's effect on the `ffmpeg` command are not modelled. Each handler is a function or method on its inputs and returns what the component would show.
- `AudioApp.UpdateClips`: `num_columns` is an integer of at least 1, as the input's `minimum=1` (app.py:131) keeps it. A float value is not modelled.
- `AudioApp.Caution`: `bool` is a subclass of `int` in Python. Boolean inputs are not modelled separately from integers.
- `ffmpeg`, `ffprobe` and `uuid4()` are not modelled. Their exit codes, directory listings and unique names are parameters. The clip durations from `async_video_meta_data` and the `ffmpeg` command lines are not modelled.
- `to_archive` (the zip writer). `CreateArchive` returns the list of files it would write.
- `seconds_to_str`, `timeline` and `change_status`: they format durations with `time.strftime` for a status text and hold no logic beyond that formatting.
- `riffusion_inference.py` (the diffusion model) and `config.py` are not part of this model. The generated audio file and the temporary directory are parameters.
- The other tools in the repository (Google image search, object detection, the DataCamp app) are not part of this model.
- `Strings.Split` states only that it yields at least one piece. What the pieces are is stated by `SplitPiecesWithout`, `SplitLast` and `SplitJoin`.
