# mp3-lrc-downloader, modelled in Dafny

`download_lyrics.py` walks a music folder. For each `.mp3` file it works out
an artist and a title, from the ID3 tags and else from the file name. It is
meant to look the pair up on lrclib.net, write the lyrics next to the file as
a `.lrc`, and report how many files succeeded, were skipped or failed. As
written, the lookup calls two helpers the script never defines, so the first
file that reaches it stops the run with NameError (see "## Findings"). This
project models the deterministic decision logic between the I/O calls, both
as written and with the lookup the script evidently intends, and proves what
that logic promises:

- `wrappers.dfy` (`Wrappers`): the `Option` type that stands for Python's `None`.
- `text.dfy` (`Text`): the string helpers.
  - `normalize_string`, as `Lower`, `KeepWordAndSpace`, `CollapseSpace`,
    `Strip` and `Normalize`, with `Split` and `JoinWords` as an independent
    definition of `' '.join(s.split())`.
  - `remove_tags`, as `DeleteTags` and `RemoveTags`.
  - `str.strip`, `in`/`split(' - ', 1)` as `Find`, and `endswith`.
- `paths.dfy` (`Paths`): pathlib's `name`, `stem`, `suffix` and
  `with_suffix('.lrc')` on POSIX path strings.
- `metadata.dfy` (`Metadata`): `get_mp3_metadata`. It takes the tag map read
  from the file, or `None` for an unreadable file, and the path.
- `lrclib.dfy` (`Lrclib`): the result selection at the end of `search_lrclib`,
  and `get_lrc_from_result`.
- `batch.dfy` (`Batch`):
  - the nested loops of `find_mp3_files`, as a method over a given walk;
  - `process_mp3_file`, as written and corrected;
  - the three-way tally loop of `main`, as a method with a loop invariant,
    run against the set of `.lrc` files on disk, which each save adds to.

Character classes follow an ASCII model:

- `\s` is space, `\t` to `\r`, and `\x1c` to `\x1f` (Python counts the last
  four as whitespace).
- `\w` is letters, digits and `_`.
- `lower()` maps `A`-`Z` to `a`-`z`.

Some behaviours of the code differ from what a reader might expect; the model
follows the code:

- `process_mp3_file` rejects an empty artist as well as an empty title. A
  stem such as `" - Song"` therefore fails, even though an `"Unknown"`
  artist exists for names without a separator.
- A stem without `" - "` replaces a tag artist with `"Unknown"`.
- `get_lrc_from_result` returns the lyric text itself, not a record.
- The module docstring names lyricsify.com; the script defines a search of lrclib.net, which as written is never called.
- `x.mp3` and `x.MP3` in one folder share the lyric path `x.lrc`: once the
  first is saved, main counts the second as skipped.

## Model

| member | source | states |
|---|---|---|
| Text.LowerChar | download_lyrics.py:47 | the result is never upper-case, keeps the word/space class of its argument, and leaves non-upper characters alone |
| Text.Lower | download_lyrics.py:47 | `lower()` keeps the length and lowers each character in place |
| Text.TrimStart | download_lyrics.py:48 | the result is a suffix of the input; everything dropped is whitespace; the result does not start with whitespace |
| Text.LeadingSpaces | download_lyrics.py:48 | counts the whitespace run at the head: all of it is whitespace and the next character is not |
| Text.TrailingSpaces | download_lyrics.py:48 | counts the whitespace run at the tail: all of it is whitespace and the character before it is not |
| Text.Strip | download_lyrics.py:48 | `strip()` leaves no whitespace at either end and returns the slice of the input that starts after its leading whitespace |
| Text.StripDropsSpaces | download_lyrics.py:48 | everything `strip()` removes, before and after the slice it keeps, is whitespace |
| Text.StripFixed | download_lyrics.py:48 | a string with no whitespace at either end is its own `strip()` |
| Text.WordCharsOfPadded | download_lyrics.py:48 | whitespace before and after a slice adds no word character to it |
| Text.StripKeepsWords | download_lyrics.py:48 | stripping never loses a word character |
| Text.KeepWordAndSpace | download_lyrics.py:47 | after deleting `[^\w\s]` only word and space characters remain, every word character is kept in order, and lower-case input stays lower-case |
| Text.CollapseSpace | download_lyrics.py:48 | after `re.sub(r'\s+', ' ', …)` every whitespace is a plain space and no two spaces are adjacent |
| Text.CollapseSpaceKeepsWords | download_lyrics.py:48 | collapsing whitespace keeps every word character in order |
| Text.CollapseSpaceOfLowerWords | download_lyrics.py:48 | collapsing lower-case words and whitespace yields only lower-case words and single spaces |
| Text.Normalize | download_lyrics.py:44-45 | `None` or the empty string normalise to `""` |
| Text.StripOfCollapsed | download_lyrics.py:48 | stripping a collapsed lower-case string gives a normalised string |
| Text.NormalizeIsNormalized | download_lyrics.py:42-49 | every result holds only lower-case word characters and single spaces, with no space at either end |
| Text.NormalizeKeepsWords | download_lyrics.py:42-49 | normalising keeps exactly the word characters of the lower-cased input, in order |
| Text.KeepWordAndSpaceFixed | download_lyrics.py:47 | deleting non-word, non-space characters does nothing to a string without any |
| Text.CollapseSpaceFixed | download_lyrics.py:48 | collapsing does nothing to a string of single plain spaces |
| Text.NormalizeFixesNormalized | download_lyrics.py:42-49 | a normalised string is its own normal form |
| Text.NormalizeIdempotent | download_lyrics.py:42-49 | normalising twice equals normalising once |
| Text.WordCharsAppend | download_lyrics.py:47 | the word characters of a concatenation are those of its parts, concatenated |
| Text.KeepWordAndSpaceAppend | download_lyrics.py:47 | deleting `[^\w\s]` works character by character: the filter of a concatenation is the concatenation of the filters |
| Text.KeepWordAndSpaceStep | download_lyrics.py:47 | the filter keeps the first character exactly when it is a word or whitespace character, then filters the rest |
| Text.KeepWordAndSpaceOfChar | download_lyrics.py:47 | a single word or whitespace character is kept; any other character is deleted |
| Text.WordLength | download_lyrics.py:48 | the length of the leading run of non-whitespace characters: it is followed by whitespace or the end |
| Text.Split | download_lyrics.py:48 | `str.split()` yields only non-empty words free of whitespace |
| Text.TrimStartFixed | download_lyrics.py:48 | a string that starts with no whitespace is its own `lstrip()` |
| Text.SplitOfTrimmed | download_lyrics.py:48 | `split()` ignores leading whitespace |
| Text.SplitOfWord | download_lyrics.py:48 | `split()` of a string that starts with a word yields that maximal word first, then the words of the rest |
| Text.StripIs | download_lyrics.py:48 | `strip()` returns the slice between the leading and trailing whitespace when both its ends are non-whitespace |
| Text.StripOfSpaceFront | download_lyrics.py:48 | a leading space does not change `strip()` |
| Text.StripKeepsFront | download_lyrics.py:48 | text that starts with non-whitespace keeps its front through `strip()` |
| Text.StripOfWordSpace | download_lyrics.py:48 | a word followed by one space strips to the word |
| Text.CollapseSpaceOfWord | download_lyrics.py:48 | `re.sub(r'\s+', ' ', …)` passes a word through unchanged |
| Text.CollapseStripIsJoinSplit | download_lyrics.py:48 | collapsing whitespace and stripping equals `' '.join(s.split())`: the words of the input in order, each pair separated by exactly one space |
| Text.JoinOfWordAndNothing | download_lyrics.py:48 | a last word followed by whitespace collapses and strips to that word alone |
| Text.JoinOfWordAndMore | download_lyrics.py:48 | a word, then whitespace, then more words: exactly one space separates the word from the rest |
| Text.NormalizeIsJoinSplit | download_lyrics.py:42-49 | `normalize_string` of a non-empty text is `' '.join(…split())` of its lower-cased, filtered characters, so words stay separated |
| Text.FindFrom | download_lyrics.py:82 | a search from k finds the first occurrence at or after k, and None means there is none |
| Text.Find | download_lyrics.py:82-83 | `' - ' in s` and `split(' - ', 1)` find the first occurrence; None means the separator does not occur |
| Text.FindAbsent | download_lyrics.py:82 | a pattern holding a character the text lacks is not found |
| Text.FindFirst | download_lyrics.py:82-83 | the first occurrence of the separator is the one `split(' - ', 1)` splits at |
| Text.EndsWith | download_lyrics.py:197 | `endswith` holds exactly when the suffix is no longer than the string and matches its last characters, position by position |
| Text.TagAt | download_lyrics.py:55 | a match of `<[^>]+>` at the head is found exactly when one exists, and its length is returned |
| Text.IndexFrom | download_lyrics.py:55 | the first index at or after k holding the character, or none when no later position holds it |
| Text.DeleteTags | download_lyrics.py:55 | after the substitution no `<[^>]+>` match is left, the result is a subsequence of the input (characters deleted, order kept), and a first character other than `<` is kept |
| Text.DeleteTagsFixed | download_lyrics.py:55 | text with no tag is unchanged by the substitution |
| Text.DeleteTagsIdempotent | download_lyrics.py:55 | deleting tags twice equals deleting them once |
| Text.SliceIsSubsequence | download_lyrics.py:55-56 | a slice, such as the part `strip()` keeps, is a subsequence of its source |
| Text.SubsequenceLacks | download_lyrics.py:55 | a subsequence holds no character its source lacks |
| Text.SubsequenceTransitive | download_lyrics.py:55-56 | a subsequence of a subsequence is a subsequence |
| Text.DeleteTagsKeepsFirst | download_lyrics.py:55 | a first character that starts no tag is kept and the scan continues after it: any character but `<`, and a `<` followed at once by `>` or by no `>` |
| Text.EmptyBracketsAreNoTag | download_lyrics.py:55 | `<>` starts no match of `<[^>]+>`, which needs at least one character between the brackets |
| Text.DeleteTagsOfEmptyBrackets | download_lyrics.py:55 | `<>` is kept verbatim and the scan continues after it: `DeleteTags("<>" + y) == "<>" + DeleteTags(y)` |
| Text.DeleteTagsOfPlain | download_lyrics.py:55 | text before the first `<` is kept verbatim: `DeleteTags(x + y) == x + DeleteTags(y)` when `x` has no `<` |
| Text.DeleteTagsSkipsTag | download_lyrics.py:55 | a whole tag at the front is deleted and the rest is scanned anew: `DeleteTags(t + y) == DeleteTags(y)` |
| Text.RemoveTags | download_lyrics.py:52-56 | the result has no whitespace at either end and is a subsequence of the input |
| Text.RemoveTagsOfPlain | download_lyrics.py:52-56 | text before the first `<` reaches the result, only stripped |
| Text.RemoveTagsSkipsTag | download_lyrics.py:52-56 | a tag at the front leaves no trace in the result |
| Text.RemoveTagsAroundTag | download_lyrics.py:52-56 | the text on both sides of a tag is joined: `remove_tags("a<b>c")` is `"ac"` |
| Text.RemoveTagsOfTagFree | download_lyrics.py:52-56 | on text with no tag, `remove_tags` is just `strip()` |
| Paths.LastIndexOf | download_lyrics.py:80 | the last position of the character, or -1 when it does not occur |
| Paths.DirPrefix | download_lyrics.py:204 | the directory part is a prefix of the path ending in `/`, or empty |
| Paths.Name | download_lyrics.py:211 | `Path.name` is the text after the directory part and contains no `/` |
| Paths.SuffixStart | download_lyrics.py:80 | the suffix starts at the last dot of the name, unless that dot is first or last in the name |
| Paths.Suffix | download_lyrics.py:182 | `Path.suffix` is empty or a dot followed by at least one character |
| Paths.StemOf | download_lyrics.py:80 | the stem and the suffix split the name, and a non-empty name has a non-empty stem |
| Paths.Stem | download_lyrics.py:80 | `Path.stem` is non-empty exactly when the name is, and holds no `/` |
| Paths.WithSuffix | download_lyrics.py:182 | `with_suffix` succeeds exactly when the suffix is valid and the name is non-empty; otherwise it raises ValueError |
| Paths.LrcPath | download_lyrics.py:204 | the lyric path exists exactly when the name is non-empty (else ValueError), and is the directory and stem followed by `.lrc` |
| Paths.SplitOfJoined | download_lyrics.py:80 | joining a directory prefix to a slash-free name splits back into the same two parts |
| Paths.SplitOfSuffixed | download_lyrics.py:80 | a stem followed by a one-dot suffix splits back into that stem and suffix |
| Paths.PartsOfJoined | download_lyrics.py:80 | `dir/stem.ext` has directory `dir/`, name `stem.ext`, stem `stem` and suffix `.ext` |
| Paths.LrcPathIsSibling | download_lyrics.py:204 | the `.lrc` path has the same directory and stem as the mp3, and suffix `.lrc` |
| Paths.NameParts | download_lyrics.py:80 | a name is its stem followed by its suffix, and neither part holds a `/` |
| Paths.SuffixIsValid | download_lyrics.py:182 | every suffix a name can have is accepted back by `with_suffix` |
| Paths.PathParts | download_lyrics.py:80 | every path is its directory, stem and suffix, concatenated |
| Paths.WithSuffixOfLrc | download_lyrics.py:182 | replacing the suffix of a `.lrc` path keeps its directory and stem |
| Paths.LrcPathRoundTrip | download_lyrics.py:204 | swapping back to the original suffix recovers the mp3 path exactly |
| Paths.LrcPathReplacesLastSuffix | download_lyrics.py:204 | only the last suffix is replaced, whatever dots the stem holds: `dir/a.b.mp3` gives `dir/a.b.lrc` |
| Paths.LrcPathOfDotName | download_lyrics.py:204 | a name whose only dot is its first character has no suffix, so ".lrc" is appended to the whole name: `music/.mp3` gives `music/.mp3.lrc` |
| Metadata.TagArtist | download_lyrics.py:69-72 | the artist is TPE1 when that frame exists, even if empty, else TPE2, else none |
| Metadata.TagTitle | download_lyrics.py:75-76 | the title is TIT2 when that frame exists, else none |
| Metadata.FromFileName | download_lyrics.py:79-90 | the file-name fallback always yields both fields |
| Metadata.ReadMetadata | download_lyrics.py:59-95 | an unreadable file gives (None, None); a readable one always gives two strings |
| Metadata.FallbackChain | download_lyrics.py:67-90 | non-empty tags win outright; otherwise a stem with " - " fills only the missing fields, stripped, from its first split; otherwise the title is the stem verbatim and the artist "Unknown", overwriting a tag artist |
| Metadata.Accepted | download_lyrics.py:215 | a pair is accepted exactly when both fields are strings and neither is empty |
| Metadata.CompleteTagsIgnoreFileName | download_lyrics.py:79 | with a non-empty artist and title in the tags, the file name is never consulted and the pair is accepted |
| Metadata.StemOfMp3 | download_lyrics.py:80 | the stem of `<dir><stem>.mp3` is `<stem>` |
| Metadata.FirstSeparator | download_lyrics.py:83 | in `a + " - " + b` the split happens right after `a` when `a` has no separator and does not end in " -" |
| Metadata.NoSeparatorBefore | download_lyrics.py:83 | no " - " starts inside `a` when `a` holds none and does not end with " -" |
| Metadata.ArtistDashTitle | download_lyrics.py:82-87 | for stem `a - b`, a missing artist becomes `a` stripped and a missing title `b` stripped (b may contain " - " itself, so "A - B - C" gives title "B - C"); a tag field is kept |
| Metadata.UntaggedArtistDashTitle | download_lyrics.py:80-87 | an untagged `<dir><a> - <b>.mp3` reads as artist `a`, title `b`, both stripped |
| Metadata.LeadArtistHidesAlbumArtist | download_lyrics.py:69-72 | once TPE1 exists, even empty, TPE2 has no influence on the result |
| Metadata.NoSeparatorGivesUnknownArtist | download_lyrics.py:82-90 | whenever the tags do not give both fields and the stem holds no " - ", the result is ("Unknown", stem verbatim), whatever artist the tags held |
| Metadata.DashFreeStemGivesUnknownArtist | download_lyrics.py:80-90 | an incompletely tagged file whose stem holds no `-` at all reads as ("Unknown", stem) |
| Metadata.LeadingSeparatorIsRejected | download_lyrics.py:82-87 | a stem " - title" gives an empty artist, so the file is rejected |
| Lrclib.Get | download_lyrics.py:154 | `dict.get` reads a missing key as None |
| Lrclib.SelectResult | download_lyrics.py:121-144 | a raised request, a non-200 status, an undecodable body or an empty list give nothing; under `--debug`, so does a JSON null among the first three results, whose `.get` raises; otherwise the first element |
| Lrclib.DebugOnlyMattersForNulls | download_lyrics.py:128-136 | when no JSON null sits among the first three results, `--debug` selects exactly what a quiet run selects |
| Lrclib.DebugNullSelectsNothing | download_lyrics.py:128-144 | the answer `[rec, null]` selects `rec` in a quiet run and nothing under `--debug` |
| Lrclib.SelectFirstOnly | download_lyrics.py:135-136 | no ranking: without `--debug`, the first result is returned whatever follows it |
| Lrclib.NothingSelected | download_lyrics.py:121-124 | any non-200 status, and a 200 with an empty list, give nothing |
| Lrclib.LyricsOf | download_lyrics.py:147-177 | a result holds lyrics only as a non-empty string taken from `syncedLyrics` or `plainLyrics`; a missing or empty result gives none |
| Lrclib.SyncedWins | download_lyrics.py:154-159 | non-empty synced lyrics are returned exactly, whatever the plain lyrics hold |
| Lrclib.PlainFallback | download_lyrics.py:162-165 | without synced lyrics, non-empty plain lyrics are returned exactly |
| Lrclib.NoLyrics | download_lyrics.py:150-171 | nothing is returned exactly when neither field holds a non-empty string |
| Lrclib.OtherFieldsIgnored | download_lyrics.py:150-171 | fields other than the two lyric fields never change the choice |
| Lrclib.FetchLyrics | download_lyrics.py:224-233 | the lookup, with or without `--debug`, yields a non-empty lyric text or nothing, and nothing when the search selects nothing |
| Batch.JoinPath | download_lyrics.py:198 | `os.path.join` ends with the file name and inserts a `/` only when the root lacks one; a non-empty root without a trailing `/` and a name that is not absolute give exactly `root + "/" + name` |
| Batch.Mp3In | download_lyrics.py:196-198 | the paths collected in one directory number at most its listed names |
| Batch.Mp3InSnoc | download_lyrics.py:196-198 | one more listed name adds its joined path exactly when it is an `.mp3` name, and nothing otherwise |
| Batch.IsMp3Name | download_lyrics.py:197 | `file.lower().endswith('.mp3')` holds exactly when the last four characters, lower-cased, are `.mp3` |
| Batch.Mp3Files | download_lyrics.py:192-199 | the paths of a walk: at most one per listed file name |
| Batch.FindMp3Files | download_lyrics.py:192-199 | the nested loops return the listed `.mp3` paths of the walk, in walk order |
| Batch.Mp3InSound | download_lyrics.py:196-198 | each path collected in one directory comes from one of its `.mp3` names |
| Batch.Mp3InComplete | download_lyrics.py:196-198 | each `.mp3` name in one directory is collected |
| Batch.Mp3FilesSound | download_lyrics.py:196-198 | every returned path joins a root with an `.mp3` name listed under it |
| Batch.Mp3FilesComplete | download_lyrics.py:196-198 | every `.mp3` name in any letter case, under any root, is returned |
| Batch.Mp3NameOfSuffix | download_lyrics.py:197 | a path ending in an `.mp3` name passes the same case-insensitive test |
| Batch.FoundAreMp3 | download_lyrics.py:197-198 | every returned path itself ends in `.mp3`, ignoring case |
| Batch.JoinedName | download_lyrics.py:198 | `os.path.join` of a directory and a slash-free `.mp3` name has that non-empty name as its final component |
| Batch.FoundHaveNames | download_lyrics.py:192-204 | every path found by the walk has a non-empty name, so its lyric path exists and line 204 never raises for it |
| Batch.EarlyExits | download_lyrics.py:204-217 | a path with an empty name raises ValueError before anything else; otherwise skipping happens exactly when skipping is on and the `.lrc` exists; otherwise a pair with an empty artist or title is rejected; a file that gets through has non-empty fields equal to the metadata |
| Batch.SkipBeforeMetadata | download_lyrics.py:207-209 | for paths with a name, the skip decision does not depend on the tags or the name |
| Batch.ProcessFileAsWritten | download_lyrics.py:202-224 | as written, a path with an empty name raises ValueError, every file past the early exits raises NameError, and none ever returns True |
| Batch.AsWrittenRaisesOnTaggedFile | download_lyrics.py:224 | a file tagged with non-empty TPE1 and TIT2 and no `.lrc` raises NameError |
| Batch.ProcessFile | download_lyrics.py:202-245 | a file counts as saved only if it has a lyric path, was not skipped, its pair was accepted, lyrics were found and the write succeeded |
| Batch.ProcessFileSaves | download_lyrics.py:202-245 | a file is saved exactly under those conditions, and every saved file is one the written code raises NameError on |
| Batch.SkipOnlyWhenExisting | download_lyrics.py:207-209 | with no `.lrc` present, skipping on or off makes no difference; with it present and skipping on, nothing is saved |
| Batch.LrcExists | download_lyrics.py:207 | an `.lrc` file can exist only for a path whose name is non-empty |
| Batch.LrcExistsIs | download_lyrics.py:204-207 | for a path with a name, the `.lrc` looked for is exactly the directory, the stem and `.lrc` |
| Batch.Visit | download_lyrics.py:280-288 | one iteration: a success is a saved file and adds only its own `.lrc`; a skip is exactly a file whose `.lrc` existed while skipping is on; a file not saved leaves the disk as it was |
| Batch.Run | download_lyrics.py:276-288 | the counters sum to the number of files, `--force` never counts a skip, and `.lrc` files are only added |
| Batch.Tally | download_lyrics.py:280-288 | one more file leaves every counter at least where it was and raises their sum by one, so exactly one counter moves, by one; `--force` never moves the skip counter; no `.lrc` file is removed |
| Batch.TallyCases | download_lyrics.py:283-288 | the three branches of the loop body: a saved file adds its `.lrc` and one success; an unsaved file whose `.lrc` existed while skipping is on adds one skip; any other adds one failure |
| Batch.TallySkips | download_lyrics.py:285-286 | with skipping on, a file whose `.lrc` exists adds one skip and changes nothing else |
| Batch.RunSnoc | download_lyrics.py:280-288 | the run over one more file is the tally of that file after the run over the shorter list |
| Batch.RunOfTwo | download_lyrics.py:280-288 | the run over two files is the tally of the second after the run over the first |
| Batch.CountOne | download_lyrics.py:280-288 | one iteration of the loop body, processing the file, writing its `.lrc` when saved and bumping one counter, yields exactly the next state of the run |
| Batch.Summarize | download_lyrics.py:276-288 | the counters and the `.lrc` files on disk after the loop are those of the run `Run`; the counters sum to the number of files; the skip counter is 0 under `--force` |
| Batch.RunWritesOnlyOwnLrc | download_lyrics.py:241-243 | a run writes no `.lrc` file other than those of its own files |
| Batch.ExistingCount | download_lyrics.py:285 | at most one pre-existing `.lrc` per file |
| Batch.SkipCountIsExisting | download_lyrics.py:257-285 | when no two files share a lyric path, a run with skipping on skips exactly the files whose `.lrc` existed before the run |
| Batch.SharedLrcPathSkipsLater | download_lyrics.py:280-288 | two files sharing one lyric path: once the first is saved, the second is counted as skipped, whatever it holds |
| Batch.RunOfOne | download_lyrics.py:280-288 | a run of one file, saved for lack of its `.lrc`, adds that `.lrc` and counts one success |
| Batch.TallyCovers | download_lyrics.py:207-209 | after its own iteration, a file has its `.lrc` on disk or would not be saved even without one |
| Batch.CoveredGrows | download_lyrics.py:207-209 | more `.lrc` files on disk cover at least the same files |
| Batch.CoveredSnoc | download_lyrics.py:207-209 | covering a list and one more file covers the longer list |
| Batch.RunCovers | download_lyrics.py:207-209 | after any run, every file has its `.lrc` on disk or would not be saved even without one |
| Batch.CoveredRunSavesNothing | download_lyrics.py:276-288 | from such a disk, a run with skipping on saves nothing, writes nothing, and skips exactly the files whose `.lrc` exists |
| Batch.RerunSavesNothing | download_lyrics.py:276-288 | running again with skipping on, with the same search answers and write outcomes, after any first run: nothing is saved twice, nothing is written, and the files whose `.lrc` now exists are the ones skipped |

## Left out

- Network access is not modelled: `requests`, the session, headers, the timeout, the `time.sleep(0.5)` delay and JSON decoding. The search answer for each file is a parameter: None for a raised request, and a status plus a decoded list, or None for an undecodable body.
- ID3 container parsing by mutagen is not modelled. The tags arrive as a map from frame id to text, with `Some(map[])` for a file without tags and `None` for a file mutagen cannot read.
- Filesystem I/O is not modelled. The directory walk, the `.lrc` files present when the run starts and the success of each write are inputs; the run itself adds the `.lrc` files it saves. So are the sub-directory names of `os.walk` and its traversal order.
- Command-line handling, `sys.exit`, printing and tracebacks are left out, as plumbing with no effect on results. The `--debug` printing is left out too, except for its one effect on results: printing the first three results calls `result.get` on each, which raises on a JSON null and so makes the search select nothing. Lrclib.SelectResult models that effect.
- The `bs4` import is never used, so it is left out.
- Non-ASCII characters are not modelled. Unicode `\w`, `\s` and `lower()` follow an ASCII model: other characters count as neither word nor space and are left as they are.
- Path normalisation is not modelled. Paths are plain POSIX strings, and `//`, `.` segments and trailing slashes are not normalised the way pathlib does.
- JSON values in a search result other than strings or null are not modelled.
- A search answer that decodes to a JSON object instead of a list is not modelled. `results[0]` then raises, which the handler turns into None.
- Batch.Visit: a failed write that leaves a partial `.lrc` behind would be counted as a skip by the source. The model assumes an unsuccessful attempt leaves the files as they were.
- Batch.LrcExists: the `.lrc` files on disk are a set of path strings, compared exactly, as on a case-sensitive filesystem; files created or removed by anything other than the run itself are not modelled.
- Batch.ProcessFile: the search answer is a parameter of each file, so the model does not tie it to the artist and title sent in the query.
- Batch.ProcessFile: `with_suffix` at line 204 raises ValueError on a path with an empty name, which would abort main. The corrected process reads that case as "not saved" instead; paths from `find_mp3_files` always have a name (Batch.FoundHaveNames), so a run over a walk never meets it. Batch.ProcessFileAsWritten keeps the ValueError.
- Batch.SkipCountIsExisting: holds only when no two files share a lyric path. When two do, a file saved earlier in the run makes a later one count as skipped, as Batch.SharedLrcPathSkipsLater shows.
- Batch.Mp3Files: its own contract bounds only the number of paths; which paths it returns is stated by Batch.Mp3FilesSound and Batch.Mp3FilesComplete.
- Batch.ProcessFile: models runs without `--debug` (the constant `QUIET`). With `--debug`, a JSON null among the first three search results makes the search select nothing (Lrclib.DebugNullSelectsNothing); with no such null, `--debug` selects the same result (Lrclib.DebugOnlyMattersForNulls).
- As written, main's tally loop is not modelled: NameError escapes from `main` at the first file that reaches the lookup. Batch.Summarize tallies the corrected processing.

## Findings

| source | as written | input that shows it | evidently intended | confidence | as-written member | corrected member |
|---|---|---|---|---|---|---|
| download_lyrics.py:224 | `process_mp3_file` calls `get_lyrics_link` and `get_lrc_content`, neither of which the script defines, so NameError is raised and the run aborts | an `.mp3` tagged TPE1 "A" and TIT2 "T" with no `.lrc` beside it (or any untagged `A - T.mp3`) | look the pair up with `search_lrclib`, take `get_lrc_from_result` of the answer, save it, and return True when saved | high (not executed) | Batch.ProcessFileAsWritten | Batch.ProcessFile |
