/** The batch around one folder: collecting the .mp3 files of a directory walk,
    the early exits of processing one file, and main's three-way tally. */
module Batch {
  import opened Wrappers
  import opened Text
  import opened Metadata
  import opened Lrclib

  const MP3_SUFFIX := ".mp3"

  /** The runs modelled here are without --debug. */
  const QUIET := false

  // ---------------------------------------------------------------------
  // find_mp3_files

  /** One triple of os.walk, without the sub-directory names it also lists. */
  datatype DirEntry = DirEntry(root: string, files: seq<string>)

  /** os.path.join of two POSIX components. */
  function JoinPath(dir: string, name: string): (r: string)
    ensures EndsWith(r, name)
    ensures name != [] && name[0] == '/' ==> r == name
    ensures (name == [] || name[0] != '/') && (dir == [] || dir[|dir| - 1] == '/') ==> r == dir + name
    ensures (name == [] || name[0] != '/') && dir != [] && dir[|dir| - 1] != '/' ==> r == dir + "/" + name
  {
    if name != [] && name[0] == '/' then name
    else if dir == [] || dir[|dir| - 1] == '/' then dir + name
    else dir + "/" + name
  }

  /** file.lower().endswith('.mp3'): the last four characters, lower-cased,
      are ".mp3". */
  predicate IsMp3Name(file: string)
    ensures IsMp3Name(file) <==>
      |file| >= |MP3_SUFFIX| && Lower(file[|file| - |MP3_SUFFIX|..]) == MP3_SUFFIX
  {
    var n := |MP3_SUFFIX|;
    assert |file| >= n ==> Lower(file)[|file| - n..] == Lower(file[|file| - n..]);
    EndsWith(Lower(file), MP3_SUFFIX)
  }

  /** The joined paths of the .mp3 names among files, in listing order. */
  function Mp3In(root: string, files: seq<string>): (r: seq<string>)
    ensures |r| <= |files|
  {
    if files == [] then []
    else
      var last := files[|files| - 1];
      Mp3In(root, files[..|files| - 1]) + (if IsMp3Name(last) then [JoinPath(root, last)] else [])
  }

  /** The paths find_mp3_files returns for a walk, in walk order. */
  function Mp3Files(walk: seq<DirEntry>): (r: seq<string>)
    ensures |r| <= ListedCount(walk)
  {
    if walk == [] then []
    else
      var last := walk[|walk| - 1];
      Mp3Files(walk[..|walk| - 1]) + Mp3In(last.root, last.files)
  }

  /** How many file names the walk lists in all. */
  function ListedCount(walk: seq<DirEntry>): nat {
    if walk == [] then 0 else ListedCount(walk[..|walk| - 1]) + |walk[|walk| - 1].files|
  }

  /** The nested loops of find_mp3_files, appending as they go. */
  method FindMp3Files(walk: seq<DirEntry>) returns (mp3Files: seq<string>)
    ensures mp3Files == Mp3Files(walk)
  {
    mp3Files := [];
    for i := 0 to |walk|
      invariant mp3Files == Mp3Files(walk[..i])
    {
      var entry := walk[i];
      for j := 0 to |entry.files|
        invariant mp3Files == Mp3Files(walk[..i]) + Mp3In(entry.root, entry.files[..j])
      {
        var file := entry.files[j];
        Mp3InSnoc(entry.root, entry.files, j);
        if IsMp3Name(file) {
          ghost var found := Mp3In(entry.root, entry.files[..j]);
          mp3Files := mp3Files + [JoinPath(entry.root, file)];
          assert mp3Files == Mp3Files(walk[..i]) + (found + [JoinPath(entry.root, file)]);
        }
      }
      assert entry.files[..|entry.files|] == entry.files;
      assert walk[..i + 1][..i] == walk[..i];
    }
    assert walk[..|walk|] == walk;
  }

  /** One more listed name: Mp3In grows by its path exactly when it is an
      .mp3 name. */
  lemma Mp3InSnoc(root: string, files: seq<string>, j: nat)
    requires j < |files|
    ensures Mp3In(root, files[..j + 1]) ==
      Mp3In(root, files[..j]) + (if IsMp3Name(files[j]) then [JoinPath(root, files[j])] else [])
  {
    assert files[..j + 1][..j] == files[..j];
  }

  lemma {:induction false} Mp3InSound(root: string, files: seq<string>, x: string)
    requires x in Mp3In(root, files)
    ensures exists j :: 0 <= j < |files| && IsMp3Name(files[j]) && x == JoinPath(root, files[j])
  {
    var front := files[..|files| - 1];
    if x in Mp3In(root, front) {
      Mp3InSound(root, front, x);
      var j :| 0 <= j < |front| && IsMp3Name(front[j]) && x == JoinPath(root, front[j]);
      assert files[j] == front[j];
    } else {
      assert files[|files| - 1] == files[|files| - 1];
    }
  }

  lemma {:induction false} Mp3InComplete(root: string, files: seq<string>, j: nat)
    requires j < |files| && IsMp3Name(files[j])
    ensures JoinPath(root, files[j]) in Mp3In(root, files)
  {
    if j < |files| - 1 {
      var front := files[..|files| - 1];
      assert front[j] == files[j];
      Mp3InComplete(root, front, j);
    }
  }

  /** x is the path of the j-th file listed under the i-th root of the walk,
      and that file has an .mp3 name. */
  predicate ListedMp3(walk: seq<DirEntry>, i: int, j: int, x: string) {
    0 <= i < |walk| && 0 <= j < |walk[i].files| &&
    IsMp3Name(walk[i].files[j]) && x == JoinPath(walk[i].root, walk[i].files[j])
  }

  /** Every path returned comes from an .mp3 name listed by the walk. */
  lemma {:induction false} Mp3FilesSound(walk: seq<DirEntry>, x: string)
    requires x in Mp3Files(walk)
    ensures exists i, j :: ListedMp3(walk, i, j, x)
  {
    var front := walk[..|walk| - 1];
    var last := walk[|walk| - 1];
    if x in Mp3Files(front) {
      Mp3FilesSound(front, x);
      var i, j :| ListedMp3(front, i, j, x);
      assert walk[i] == front[i];
      assert ListedMp3(walk, i, j, x);
    } else {
      Mp3InSound(last.root, last.files, x);
      var j :| 0 <= j < |last.files| && IsMp3Name(last.files[j]) && x == JoinPath(last.root, last.files[j]);
      assert ListedMp3(walk, |walk| - 1, j, x);
    }
  }

  /** Every .mp3 name the walk lists, in any case, is returned, joined to its root. */
  lemma {:induction false} Mp3FilesComplete(walk: seq<DirEntry>, i: nat, j: nat)
    requires i < |walk| && j < |walk[i].files| && IsMp3Name(walk[i].files[j])
    ensures JoinPath(walk[i].root, walk[i].files[j]) in Mp3Files(walk)
  {
    var front := walk[..|walk| - 1];
    if i < |walk| - 1 {
      assert front[i] == walk[i];
      Mp3FilesComplete(front, i, j);
    } else {
      Mp3InComplete(walk[i].root, walk[i].files, j);
    }
  }

  /** A path ending in an .mp3 name is itself an .mp3 name. */
  lemma Mp3NameOfSuffix(x: string, file: string)
    requires EndsWith(x, file) && IsMp3Name(file)
    ensures IsMp3Name(x)
  {
    var n, m := |MP3_SUFFIX|, |x| - |file|;
    var xs, fs := x[|x| - n..], file[|file| - n..];
    forall j | 0 <= j < n
      ensures xs[j] == fs[j]
    {
      assert x[m + (|file| - n + j)] == file[|file| - n + j];
    }
  }

  /** Every path returned names an .mp3 file, whatever the case of its suffix. */
  lemma FoundAreMp3(walk: seq<DirEntry>, x: string)
    requires x in Mp3Files(walk)
    ensures IsMp3Name(x)
  {
    Mp3FilesSound(walk, x);
    var i, j :| ListedMp3(walk, i, j, x);
    Mp3NameOfSuffix(x, walk[i].files[j]);
  }

  /** os.walk lists file names, never empty and free of '/': each path found
      then has that file name as its final component, so a lyric path exists
      for it. */
  lemma FoundHaveNames(walk: seq<DirEntry>, x: string)
    requires forall i, j :: 0 <= i < |walk| && 0 <= j < |walk[i].files| ==> '/' !in walk[i].files[j]
    requires x in Mp3Files(walk)
    ensures Paths.Name(x) != []
    ensures Paths.LrcPath(x).Some?
  {
    Mp3FilesSound(walk, x);
    var i, j :| ListedMp3(walk, i, j, x);
    var root, file := walk[i].root, walk[i].files[j];
    assert '/' !in file;
    JoinedName(root, file);
    Paths.LrcPathIsSibling(x);
  }

  /** Joining a directory and a file name keeps the file name as the final
      component. */
  lemma JoinedName(root: string, file: string)
    requires '/' !in file && IsMp3Name(file)
    ensures Paths.Name(JoinPath(root, file)) == file != []
  {
    assert file != [] by {
      assert |MP3_SUFFIX| <= |Lower(file)| == |file|;
    }
    assert file[0] != '/';
    if root == [] || root[|root| - 1] == '/' {
      Paths.SplitOfJoined(root, file);
    } else {
      assert JoinPath(root, file) == (root + "/") + file;
      Paths.SplitOfJoined(root + "/", file);
    }
  }

  // ---------------------------------------------------------------------
  // process_mp3_file

  /** How far process_mp3_file gets before it would look the lyrics up. */
  datatype Stage = BadPath | SkipExisting | NoMetadata | Lookup(artist: string, title: string)

  /** The early exits: deriving the .lrc path raises ValueError for a path with
      an empty name; then an existing .lrc is skipped before the tags are read;
      then an empty artist or title rejects the file. */
  function EarlyExits(path: string, audio: Option<Tags>, lrcExists: bool, skipExisting: bool): (r: Stage)
    ensures r == BadPath <==> Paths.Name(path) == []
    ensures r != BadPath ==> Paths.LrcPath(path).Some?
    ensures r == SkipExisting <==> Paths.Name(path) != [] && skipExisting && lrcExists
    ensures r == NoMetadata <==>
      Paths.Name(path) != [] && !(skipExisting && lrcExists) && !Accepted(ReadMetadata(audio, path))
    ensures r.Lookup? ==>
      r.artist != [] && r.title != [] && ReadMetadata(audio, path) == Fields(Some(r.artist), Some(r.title))
  {
    assert Paths.ValidSuffix(Paths.LRC_SUFFIX);
    if Paths.LrcPath(path).None? then BadPath
    else if skipExisting && lrcExists then SkipExisting
    else
      var fields := ReadMetadata(audio, path);
      if !Accepted(fields) then NoMetadata else Lookup(fields.artist.value, fields.title.value)
  }

  /** The skip decision ignores the tags and the file name entirely. */
  lemma SkipBeforeMetadata(path1: string, audio1: Option<Tags>, path2: string, audio2: Option<Tags>)
    requires Paths.Name(path1) != [] && Paths.Name(path2) != []
    ensures EarlyExits(path1, audio1, true, true) == EarlyExits(path2, audio2, true, true) == SkipExisting
  {
  }

  /** What one file brings to a run: its path, its tags (None when unreadable),
      the search answer for its artist and title, and whether writing its .lrc
      file would succeed. */
  datatype Track = Track(path: string, audio: Option<Tags>, resp: Option<Response>, saveOk: bool)

  /** Path(mp3_path).with_suffix('.lrc').exists(), where lrcFiles holds the
      .lrc paths present on disk at that moment. */
  predicate LrcExists(path: string, lrcFiles: set<string>)
    ensures LrcExists(path, lrcFiles) ==> Paths.Name(path) != []
  {
    Paths.LrcPath(path).Some? && Paths.LrcPath(path).value in lrcFiles
  }

  /** The .lrc file looked for sits in the mp3's directory, under its stem. */
  lemma LrcExistsIs(path: string, lrcFiles: set<string>)
    requires Paths.Name(path) != []
    ensures LrcExists(path, lrcFiles) <==> Paths.DirPrefix(path) + Paths.Stem(path) + Paths.LRC_SUFFIX in lrcFiles
  {
  }

  function StageOf(t: Track, lrcExists: bool, skipExisting: bool): Stage {
    EarlyExits(t.path, t.audio, lrcExists, skipExisting)
  }

  /** What the call does as written. */
  datatype Completion = Returned(saved: bool) | RaisedValueError | RaisedNameError

  /** process_mp3_file as written: past the early exits it calls a helper that
      the script never defines, so Python raises NameError there. */
  function ProcessFileAsWritten(t: Track, lrcExists: bool, skipExisting: bool): (r: Completion)
    ensures r == RaisedNameError <==> StageOf(t, lrcExists, skipExisting).Lookup?
    ensures r == RaisedValueError <==> Paths.Name(t.path) == []
    ensures r != Returned(true)
  {
    match StageOf(t, lrcExists, skipExisting)
    case BadPath => RaisedValueError
    case Lookup(_, _) => RaisedNameError
    case _ => Returned(false)
  }

  /** As written, a file that is not skipped and whose tags name artist and
      title never returns: the run stops with NameError. */
  lemma AsWrittenRaisesOnTaggedFile(path: string, artist: string, title: string)
    requires Paths.Name(path) != []
    requires artist != [] && title != []
    ensures ProcessFileAsWritten(
      Track(path, Some(map[LEAD_ARTIST := artist, TITLE := title]), None, false), false, true) == RaisedNameError
  {
    var tags := map[LEAD_ARTIST := artist, TITLE := title];
    assert TagArtist(tags) == Some(artist) && TagTitle(tags) == Some(title);
  }

  /** process_mp3_file with the lookup it evidently intends: search lrclib for
      the artist and title, take the lyrics of the first result, save them. */
  function ProcessFile(t: Track, lrcExists: bool, skipExisting: bool): (saved: bool)
    ensures saved ==> Paths.LrcPath(t.path).Some?
    ensures saved ==> !(skipExisting && lrcExists)
    ensures saved ==> Accepted(ReadMetadata(t.audio, t.path))
    ensures saved ==> FetchLyrics(t.resp, QUIET).Some? && t.saveOk
  {
    StageOf(t, lrcExists, skipExisting).Lookup? && FetchLyrics(t.resp, QUIET).Some? && t.saveOk
  }

  /** The corrected process saves exactly the files with a lyric path that pass
      the early exits, find lyrics and can be written; it raises only where the
      code as written raises ValueError, and saves nothing where that raises
      NameError. */
  lemma ProcessFileSaves(t: Track, lrcExists: bool, skipExisting: bool)
    ensures ProcessFile(t, lrcExists, skipExisting) <==>
      Paths.Name(t.path) != [] && !(skipExisting && lrcExists) && Accepted(ReadMetadata(t.audio, t.path)) &&
      FetchLyrics(t.resp, QUIET).Some? && t.saveOk
    ensures ProcessFileAsWritten(t, lrcExists, skipExisting) == RaisedNameError || !ProcessFile(t, lrcExists, skipExisting)
  {
  }

  /** Skipping matters only when the .lrc file exists. */
  lemma SkipOnlyWhenExisting(t: Track)
    ensures ProcessFile(t, false, true) == ProcessFile(t, false, false)
    ensures !ProcessFile(t, true, true)
  {
  }

  // ---------------------------------------------------------------------
  // main's tally

  datatype Outcome = Succeeded | Skipped | Failed

  /** One iteration of main's loop, against the .lrc files on disk: process
      the file, which adds its .lrc file when it saves; then count a True
      result as a success, an .lrc that now exists as a skip when skipping is
      on, and anything else as a failure. A failed attempt writes nothing. */
  function Visit(t: Track, lrcFiles: set<string>, skipExisting: bool): (r: (Outcome, set<string>))
    ensures lrcFiles <= r.1
    ensures forall q :: q in r.1 ==> q in lrcFiles || Paths.LrcPath(t.path) == Some(q)
    ensures r.0 == Succeeded <==> ProcessFile(t, LrcExists(t.path, lrcFiles), skipExisting)
    ensures r.0 == Succeeded ==> LrcExists(t.path, r.1)
    ensures r.0 == Skipped <==> skipExisting && LrcExists(t.path, lrcFiles)
    ensures r.0 != Succeeded ==> r.1 == lrcFiles
  {
    var saved := ProcessFile(t, LrcExists(t.path, lrcFiles), skipExisting);
    var after := if saved then lrcFiles + {Paths.LrcPath(t.path).value} else lrcFiles;
    if saved then (Succeeded, after)
    else if LrcExists(t.path, after) && skipExisting then (Skipped, after)
    else (Failed, after)
  }

  /** The .lrc files on disk and the three counters after a run. */
  datatype RunState = RunState(lrcFiles: set<string>, successes: nat, skips: nat, failures: nat)

  /** main's loop over the found files, starting from the .lrc files on disk. */
  function Run(tracks: seq<Track>, skipExisting: bool, lrcFiles: set<string>): (r: RunState)
    ensures r.successes + r.skips + r.failures == |tracks|
    ensures !skipExisting ==> r.skips == 0
    ensures lrcFiles <= r.lrcFiles
  {
    if tracks == [] then RunState(lrcFiles, 0, 0, 0)
    else Tally(Run(tracks[..|tracks| - 1], skipExisting, lrcFiles), tracks[|tracks| - 1], skipExisting)
  }

  /** The state after one more file: its visit, and one more in the counter
      of its outcome. */
  function Tally(st: RunState, t: Track, skipExisting: bool): (r: RunState)
    ensures st.successes <= r.successes && st.skips <= r.skips && st.failures <= r.failures
    ensures r.successes + r.skips + r.failures == st.successes + st.skips + st.failures + 1
    ensures !skipExisting ==> r.skips == st.skips
    ensures st.lrcFiles <= r.lrcFiles
  {
    var (o, after) := Visit(t, st.lrcFiles, skipExisting);
    RunState(after,
             st.successes + (if o == Succeeded then 1 else 0),
             st.skips + (if o == Skipped then 1 else 0),
             st.failures + (if o == Failed then 1 else 0))
  }

  /** A run one file longer is one more tally. */
  lemma RunSnoc(tracks: seq<Track>, i: nat, skipExisting: bool, lrcFiles: set<string>)
    requires i < |tracks|
    ensures Run(tracks[..i + 1], skipExisting, lrcFiles) ==
      Tally(Run(tracks[..i], skipExisting, lrcFiles), tracks[i], skipExisting)
  {
    assert tracks[..i + 1][..i] == tracks[..i];
  }

  /** Tally spelled out the way main's loop body branches, given whether the
      .lrc file existed and whether the file was saved. */
  lemma TallyCases(st: RunState, t: Track, skipExisting: bool, existing: bool, saved: bool)
    requires existing == LrcExists(t.path, st.lrcFiles)
    requires saved == ProcessFile(t, existing, skipExisting)
    ensures saved ==> Paths.LrcPath(t.path).Some?
    ensures saved ==>
      Tally(st, t, skipExisting) ==
      RunState(st.lrcFiles + {Paths.LrcPath(t.path).value}, st.successes + 1, st.skips, st.failures)
    ensures !saved && existing && skipExisting ==>
      Tally(st, t, skipExisting) == RunState(st.lrcFiles, st.successes, st.skips + 1, st.failures)
    ensures !saved && !(existing && skipExisting) ==>
      Tally(st, t, skipExisting) == RunState(st.lrcFiles, st.successes, st.skips, st.failures + 1)
  {
  }

  /** One iteration of main's loop: process the file, which writes its .lrc
      file when it saves, then count the result. */
  method CountOne(t: Track, skipExisting: bool, st: RunState) returns (next: RunState)
    ensures next == Tally(st, t, skipExisting)
  {
    var lrcFiles := st.lrcFiles;
    var result := ProcessFile(t, LrcExists(t.path, lrcFiles), skipExisting);
    TallyCases(st, t, skipExisting, LrcExists(t.path, lrcFiles), result);
    if result {
      lrcFiles := lrcFiles + {Paths.LrcPath(t.path).value};
      next := st.(lrcFiles := lrcFiles, successes := st.successes + 1);
    } else if LrcExists(t.path, lrcFiles) && skipExisting {
      next := st.(skips := st.skips + 1);
    } else {
      next := st.(failures := st.failures + 1);
    }
  }

  /** The loop of main over the found files; lrcFiles stands for the .lrc
      files on disk, which each save adds to. */
  method Summarize(tracks: seq<Track>, skipExisting: bool, lrcFiles0: set<string>)
    returns (successCount: nat, skipCount: nat, failCount: nat, lrcFiles: set<string>)
    ensures RunState(lrcFiles, successCount, skipCount, failCount) == Run(tracks, skipExisting, lrcFiles0)
    ensures successCount + skipCount + failCount == |tracks|
    ensures !skipExisting ==> skipCount == 0
  {
    var st := RunState(lrcFiles0, 0, 0, 0);
    for i := 0 to |tracks|
      invariant st == Run(tracks[..i], skipExisting, lrcFiles0)
    {
      st := CountOne(tracks[i], skipExisting, st);
      RunSnoc(tracks, i, skipExisting, lrcFiles0);
    }
    assert tracks[..|tracks|] == tracks;
    successCount, skipCount, failCount, lrcFiles := st.successes, st.skips, st.failures, st.lrcFiles;
  }

  /** q is the lyric path of one of the tracks. */
  predicate LrcOfSome(tracks: seq<Track>, q: string) {
    exists i :: 0 <= i < |tracks| && Paths.LrcPath(tracks[i].path) == Some(q)
  }

  /** A run writes no .lrc file other than those of its own tracks. */
  lemma {:induction false} RunWritesOnlyOwnLrc(tracks: seq<Track>, skipExisting: bool, lrcFiles: set<string>)
    ensures forall q :: q in Run(tracks, skipExisting, lrcFiles).lrcFiles ==> q in lrcFiles || LrcOfSome(tracks, q)
  {
    if tracks != [] {
      var front, t := tracks[..|tracks| - 1], tracks[|tracks| - 1];
      RunWritesOnlyOwnLrc(front, skipExisting, lrcFiles);
      var st := Run(front, skipExisting, lrcFiles);
      var after := Visit(t, st.lrcFiles, skipExisting).1;
      assert Run(tracks, skipExisting, lrcFiles).lrcFiles == after;
      forall q | q in after
        ensures q in lrcFiles || LrcOfSome(tracks, q)
      {
        if q in st.lrcFiles {
          if q !in lrcFiles {
            var i :| 0 <= i < |front| && Paths.LrcPath(front[i].path) == Some(q);
            assert tracks[i] == front[i];
            assert Paths.LrcPath(tracks[i].path) == Some(q);
          }
        } else {
          assert Paths.LrcPath(tracks[|tracks| - 1].path) == Some(q);
        }
      }
    }
  }

  /** How many tracks have their .lrc file among lrcFiles. */
  function ExistingCount(tracks: seq<Track>, lrcFiles: set<string>): (n: nat)
    ensures n <= |tracks|
  {
    if tracks == [] then 0
    else
      ExistingCount(tracks[..|tracks| - 1], lrcFiles) +
      (if LrcExists(tracks[|tracks| - 1].path, lrcFiles) then 1 else 0)
  }

  /** The lyric paths of distinct tracks differ. */
  predicate DistinctLrcPaths(tracks: seq<Track>) {
    forall i, j :: 0 <= i < j < |tracks| ==> Paths.LrcPath(tracks[i].path) != Paths.LrcPath(tracks[j].path)
  }

  /** When no two files share a lyric path, the skip counter counts exactly
      the files whose .lrc existed before the run. */
  lemma {:induction false} SkipCountIsExisting(tracks: seq<Track>, lrcFiles: set<string>)
    requires DistinctLrcPaths(tracks)
    ensures Run(tracks, true, lrcFiles).skips == ExistingCount(tracks, lrcFiles)
  {
    if tracks != [] {
      var front, t := tracks[..|tracks| - 1], tracks[|tracks| - 1];
      SkipCountIsExisting(front, lrcFiles);
      RunWritesOnlyOwnLrc(front, true, lrcFiles);
      var st := Run(front, true, lrcFiles);
      assert LrcExists(t.path, st.lrcFiles) == LrcExists(t.path, lrcFiles);
    }
  }

  /** Two files that share a lyric path, such as x.mp3 and x.MP3 in one
      directory: when the first one is saved, the second is counted as
      skipped, whatever it holds. */
  lemma SharedLrcPathSkipsLater(t1: Track, t2: Track, lrcFiles: set<string>)
    requires Paths.LrcPath(t1.path) == Paths.LrcPath(t2.path)
    requires !LrcExists(t1.path, lrcFiles) && ProcessFile(t1, false, true)
    ensures Run([t1, t2], true, lrcFiles) ==
      RunState(lrcFiles + {Paths.LrcPath(t1.path).value}, 1, 1, 0)
  {
    var q := Paths.LrcPath(t1.path).value;
    RunOfOne(t1, lrcFiles);
    RunOfTwo(t1, t2, true, lrcFiles);
    assert LrcExists(t2.path, lrcFiles + {q});
    TallySkips(Run([t1], true, lrcFiles), t2);
  }

  /** With skipping on, a file whose .lrc file exists moves only the skip
      counter. */
  lemma TallySkips(st: RunState, t: Track)
    requires LrcExists(t.path, st.lrcFiles)
    ensures Tally(st, t, true) == RunState(st.lrcFiles, st.successes, st.skips + 1, st.failures)
  {
    SkipOnlyWhenExisting(t);
  }

  /** A run of two files is the tally of the second after the first. */
  lemma RunOfTwo(t1: Track, t2: Track, skipExisting: bool, lrcFiles: set<string>)
    ensures Run([t1, t2], skipExisting, lrcFiles) ==
      Tally(Run([t1], skipExisting, lrcFiles), t2, skipExisting)
  {
    assert [t1, t2][..1] == [t1];
  }

  /** A run of one file saved for lack of its .lrc file. */
  lemma RunOfOne(t: Track, lrcFiles: set<string>)
    requires !LrcExists(t.path, lrcFiles) && ProcessFile(t, false, true)
    ensures Run([t], true, lrcFiles) == RunState(lrcFiles + {Paths.LrcPath(t.path).value}, 1, 0, 0)
  {
    assert [t][..0] == [];
  }

  /** The file has its .lrc among lrcFiles or would not be saved even if
      its .lrc were missing. */
  predicate CoveredFile(t: Track, lrcFiles: set<string>) {
    LrcExists(t.path, lrcFiles) || !ProcessFile(t, false, true)
  }

  /** Every file is covered. */
  predicate Covered(tracks: seq<Track>, lrcFiles: set<string>) {
    forall i :: 0 <= i < |tracks| ==> CoveredFile(tracks[i], lrcFiles)
  }

  /** After a run, every file is covered: it was saved, or its .lrc existed,
      or it failed for a reason that does not depend on the .lrc file. */
  lemma {:induction false} RunCovers(tracks: seq<Track>, skipExisting: bool, lrcFiles: set<string>)
    ensures Covered(tracks, Run(tracks, skipExisting, lrcFiles).lrcFiles)
  {
    if tracks != [] {
      var front, t := tracks[..|tracks| - 1], tracks[|tracks| - 1];
      RunCovers(front, skipExisting, lrcFiles);
      var st := Run(front, skipExisting, lrcFiles);
      var after := Tally(st, t, skipExisting).lrcFiles;
      assert Run(tracks, skipExisting, lrcFiles).lrcFiles == after;
      CoveredGrows(front, st.lrcFiles, after);
      TallyCovers(st, t, skipExisting);
      CoveredSnoc(front, t, after);
      FrontAndLast(tracks);
    }
  }

  /** A non-empty list is its front followed by its last element. */
  lemma FrontAndLast<T>(s: seq<T>)
    requires s != []
    ensures s[..|s| - 1] + [s[|s| - 1]] == s
  {
  }

  /** Covering one more file covers the longer list. */
  lemma CoveredSnoc(tracks: seq<Track>, t: Track, lrcFiles: set<string>)
    requires Covered(tracks, lrcFiles) && CoveredFile(t, lrcFiles)
    ensures Covered(tracks + [t], lrcFiles)
  {
    var longer := tracks + [t];
    forall i | 0 <= i < |longer|
      ensures CoveredFile(longer[i], lrcFiles)
    {
      if i < |tracks| {
        assert longer[i] == tracks[i];
      }
    }
  }

  /** More .lrc files on disk cover at least the same files. */
  lemma CoveredGrows(tracks: seq<Track>, lrcFiles: set<string>, more: set<string>)
    requires Covered(tracks, lrcFiles) && lrcFiles <= more
    ensures Covered(tracks, more)
  {
  }

  /** After its visit, a file is covered. */
  lemma TallyCovers(st: RunState, t: Track, skipExisting: bool)
    ensures CoveredFile(t, Tally(st, t, skipExisting).lrcFiles)
  {
    SkipOnlyWhenExisting(t);
  }

  /** Starting from covered files, a run with skipping on saves nothing,
      writes nothing, and skips exactly the files whose .lrc exists. */
  lemma {:induction false} CoveredRunSavesNothing(tracks: seq<Track>, lrcFiles: set<string>)
    requires Covered(tracks, lrcFiles)
    ensures Run(tracks, true, lrcFiles) ==
      RunState(lrcFiles, 0, ExistingCount(tracks, lrcFiles), |tracks| - ExistingCount(tracks, lrcFiles))
  {
    if tracks != [] {
      var front, t := tracks[..|tracks| - 1], tracks[|tracks| - 1];
      assert Covered(front, lrcFiles) by {
        forall i | 0 <= i < |front|
          ensures CoveredFile(front[i], lrcFiles)
        {
          assert front[i] == tracks[i];
        }
      }
      CoveredRunSavesNothing(front, lrcFiles);
      SkipOnlyWhenExisting(t);
    }
  }

  /** Running again over the same files, with the same search answers and
      write outcomes and with skipping on, after any first run: nothing is
      downloaded twice, nothing is written, and the files whose .lrc now
      exists are the ones skipped. */
  lemma RerunSavesNothing(tracks: seq<Track>, skipExisting: bool, lrcFiles: set<string>)
    ensures var after := Run(tracks, skipExisting, lrcFiles).lrcFiles;
      Run(tracks, true, after) ==
        RunState(after, 0, ExistingCount(tracks, after), |tracks| - ExistingCount(tracks, after))
  {
    RunCovers(tracks, skipExisting, lrcFiles);
    CoveredRunSavesNothing(tracks, Run(tracks, skipExisting, lrcFiles).lrcFiles);
  }
}
