/** get_mp3_metadata: the (artist, title) identity of a track, read from its ID3
    text frames with the file name as fallback.

    The tag container is parsed by a library outside this model; it is given
    here as the map from frame id to frame text it exposes, or as None when the
    file could not be read (the function then returns (None, None)). A file
    without ID3 tags is the empty map. */
module Metadata {
  import opened Wrappers
  import opened Text
  import Paths

  /** Frame id -> frame text, as str(audio.tags[id]) gives it. */
  type Tags = map<string, string>

  /** Lead performer, band/orchestra, and title frames of ID3v2.4.0. */
  const LEAD_ARTIST := "TPE1"
  const ALBUM_ARTIST := "TPE2"
  const TITLE := "TIT2"

  /** What separates artist from title in a file name such as "Artist - Title". */
  const SEPARATOR := " - "

  /** The artist given when the file name has no separator. */
  const UNKNOWN_ARTIST := "Unknown"

  /** The pair get_mp3_metadata returns; None is Python's None. */
  datatype Fields = Fields(artist: Option<string>, title: Option<string>)

  /** The artist the tags offer: TPE1 when that frame exists (even if empty),
      otherwise TPE2. */
  function TagArtist(tags: Tags): (r: Option<string>)
    ensures r.Some? <==> LEAD_ARTIST in tags || ALBUM_ARTIST in tags
    ensures LEAD_ARTIST in tags ==> r == Some(tags[LEAD_ARTIST])
    ensures LEAD_ARTIST !in tags && ALBUM_ARTIST in tags ==> r == Some(tags[ALBUM_ARTIST])
  {
    if LEAD_ARTIST in tags then Some(tags[LEAD_ARTIST])
    else if ALBUM_ARTIST in tags then Some(tags[ALBUM_ARTIST])
    else None
  }

  /** The title the tags offer: TIT2 when that frame exists. */
  function TagTitle(tags: Tags): (r: Option<string>)
    ensures r.Some? <==> TITLE in tags
    ensures r.Some? ==> r.value == tags[TITLE]
  {
    if TITLE in tags then Some(tags[TITLE]) else None
  }

  /** The filename fallback, taken when the tags leave a field missing or empty. */
  function FromFileName(artist: Option<string>, title: Option<string>, stem: string): (r: Fields)
    ensures r.artist.Some? && r.title.Some?
  {
    match Find(stem, SEPARATOR)
    case Some(k) =>
      Fields(if Truthy(artist) then artist else Some(Strip(stem[..k])),
             if Truthy(title) then title else Some(Strip(stem[k + |SEPARATOR|..])))
    case None => Fields(Some(UNKNOWN_ARTIST), Some(stem))
  }

  /** get_mp3_metadata(path) for a file whose tags read as `audio`: an
      unreadable file gives (None, None), a readable one two strings. */
  function ReadMetadata(audio: Option<Tags>, path: string): (r: Fields)
    ensures audio.None? <==> r == Fields(None, None)
    ensures audio.Some? ==> r.artist.Some? && r.title.Some?
  {
    match audio
    case None => Fields(None, None)
    case Some(tags) =>
      var artist, title := TagArtist(tags), TagTitle(tags);
      if Truthy(artist) && Truthy(title) then Fields(artist, title)
      else FromFileName(artist, title, Paths.Stem(path))
  }

  /** The fallback chain of get_mp3_metadata, case by case:
      - when the tags give a non-empty artist (TPE1, else TPE2) and a non-empty
        title (TIT2), those are the result and the file name is not consulted;
      - otherwise, when the stem contains " - ", it is split at the first
        occurrence and only the missing or empty fields are filled, each
        stripped, while a field the tags gave is kept;
      - otherwise the title is the whole stem, verbatim, and the artist is
        "Unknown", even when the tags gave an artist. */
  lemma FallbackChain(tags: Tags, path: string)
    ensures var r, artist, title := ReadMetadata(Some(tags), path), TagArtist(tags), TagTitle(tags);
      var stem := Paths.Stem(path);
      && (Truthy(artist) && Truthy(title) ==> r == Fields(artist, title))
      && (!(Truthy(artist) && Truthy(title)) && Find(stem, SEPARATOR).None? ==>
            r == Fields(Some(UNKNOWN_ARTIST), Some(stem)))
      && (!(Truthy(artist) && Truthy(title)) && Find(stem, SEPARATOR).Some? ==>
            var k := Find(stem, SEPARATOR).value;
            && r.artist == (if Truthy(artist) then artist else Some(Strip(stem[..k])))
            && r.title == (if Truthy(title) then title else Some(Strip(stem[k + |SEPARATOR|..]))))
  {
  }

  /** The check process_mp3_file applies to the pair: both fields truthy. */
  predicate Accepted(f: Fields)
    ensures Accepted(f) <==> f.artist.Some? && f.title.Some? && f.artist.value != [] && f.title.value != []
  {
    Truthy(f.artist) && Truthy(f.title)
  }

  /** Complete tags are never overridden: the identity does not depend on the
      file name, and it is accepted. */
  lemma CompleteTagsIgnoreFileName(tags: Tags, path1: string, path2: string)
    requires Truthy(TagArtist(tags)) && Truthy(TagTitle(tags))
    ensures ReadMetadata(Some(tags), path1) == ReadMetadata(Some(tags), path2)
    ensures Accepted(ReadMetadata(Some(tags), path1))
  {
  }

  /** The stem of "<dir>/<stem>.mp3". */
  lemma StemOfMp3(dir: string, stem: string)
    requires dir == [] || dir[|dir| - 1] == '/'
    requires stem != [] && '/' !in stem
    ensures Paths.Stem(dir + stem + ".mp3") == stem
  {
    Paths.PartsOfJoined(dir, stem, ".mp3");
  }

  /** In a + " - " + b, the first " - " is the one between a and b when a
      neither contains " - " nor ends with " -". */
  lemma {:induction false} FirstSeparator(a: string, b: string)
    requires Find(a, SEPARATOR).None? && !EndsWith(a, " -")
    ensures Find(a + SEPARATOR + b, SEPARATOR) == Some(|a|)
  {
    var s := a + SEPARATOR + b;
    assert s[|a|..|a| + 3] == SEPARATOR;
    forall j: nat | j < |a| ensures !OccursAt(s, SEPARATOR, j) {
      NoSeparatorBefore(a, b, j);
    }
    FindFirst(s, SEPARATOR, |a|);
  }

  /** No " - " starts inside a when a has none and does not end with " -". */
  lemma NoSeparatorBefore(a: string, b: string, j: nat)
    requires Find(a, SEPARATOR).None? && !EndsWith(a, " -")
    requires j < |a|
    ensures !OccursAt(a + SEPARATOR + b, SEPARATOR, j)
  {
    var s := a + SEPARATOR + b;
    if j + 3 <= |a| {
      assert s[j..j + 3] == a[j..j + 3];
      assert !OccursAt(a, SEPARATOR, j);
    } else if j == |a| - 1 {
      assert s[j..j + 3][1] == s[|a|] == ' ';
    } else {
      assert s[j..j + 3][..2] == a[|a| - 2..];
    }
  }

  /** The "Artist - Title" convention: when the stem is a + " - " + b and a
      neither contains " - " nor ends with " -" (so the first separator is the
      one after a; b may hold more), a missing artist becomes a stripped, a
      missing title b stripped, and a field the tags gave is kept. */
  lemma ArtistDashTitle(tags: Tags, path: string, a: string, b: string)
    requires Paths.Stem(path) == a + SEPARATOR + b
    requires Find(a, SEPARATOR).None? && !EndsWith(a, " -")
    requires !(Truthy(TagArtist(tags)) && Truthy(TagTitle(tags)))
    ensures ReadMetadata(Some(tags), path) ==
      Fields(if Truthy(TagArtist(tags)) then TagArtist(tags) else Some(Strip(a)),
             if Truthy(TagTitle(tags)) then TagTitle(tags) else Some(Strip(b)))
  {
    var stem := a + SEPARATOR + b;
    FirstSeparator(a, b);
    assert stem[..|a|] == a && stem[|a| + |SEPARATOR|..] == b;
  }

  /** A file "<dir><a> - <b>.mp3" without tags is artist a, title b, stripped. */
  lemma UntaggedArtistDashTitle(dir: string, a: string, b: string)
    requires dir == [] || dir[|dir| - 1] == '/'
    requires '/' !in a && '/' !in b
    requires Find(a, SEPARATOR).None? && !EndsWith(a, " -")
    ensures ReadMetadata(Some(map[]), dir + a + SEPARATOR + b + ".mp3") == Fields(Some(Strip(a)), Some(Strip(b)))
  {
    var stem := a + SEPARATOR + b;
    assert Paths.Stem(dir + a + SEPARATOR + b + ".mp3") == stem by {
      assert dir + a + SEPARATOR + b + ".mp3" == dir + stem + ".mp3";
      StemOfMp3(dir, stem);
    }
    ArtistDashTitle(map[], dir + a + SEPARATOR + b + ".mp3", a, b);
  }

  /** TPE2 is consulted only when there is no TPE1 frame: an empty TPE1 hides it. */
  lemma LeadArtistHidesAlbumArtist(tags: Tags, path: string, albumArtist: string)
    requires LEAD_ARTIST in tags
    ensures ReadMetadata(Some(tags[ALBUM_ARTIST := albumArtist]), path) == ReadMetadata(Some(tags), path)
  {
    var tags' := tags[ALBUM_ARTIST := albumArtist];
    assert TagArtist(tags') == TagArtist(tags);
    assert TagTitle(tags') == TagTitle(tags);
  }

  /** A stem without " - " makes the title the whole stem, verbatim, and the
      artist "Unknown", whatever artist the tags gave, once either tag field is
      missing or empty. */
  lemma NoSeparatorGivesUnknownArtist(tags: Tags, path: string)
    requires Find(Paths.Stem(path), SEPARATOR).None?
    requires !(Truthy(TagArtist(tags)) && Truthy(TagTitle(tags)))
    ensures ReadMetadata(Some(tags), path) == Fields(Some(UNKNOWN_ARTIST), Some(Paths.Stem(path)))
  {
  }

  /** In particular a stem without any '-' has no separator. */
  lemma DashFreeStemGivesUnknownArtist(tags: Tags, path: string)
    requires '-' !in Paths.Stem(path)
    requires !(Truthy(TagArtist(tags)) && Truthy(TagTitle(tags)))
    ensures ReadMetadata(Some(tags), path) == Fields(Some(UNKNOWN_ARTIST), Some(Paths.Stem(path)))
  {
    FindAbsent(Paths.Stem(path), SEPARATOR, '-');
  }

  /** A stem that starts with " - " yields an empty artist, so the caller
      rejects the track, although a sentinel artist exists for other names. */
  lemma LeadingSeparatorIsRejected(path: string, title: string)
    requires Paths.Stem(path) == SEPARATOR + title
    ensures ReadMetadata(Some(map[]), path) == Fields(Some(""), Some(Strip(title)))
    ensures !Accepted(ReadMetadata(Some(map[]), path))
  {
    assert Find("", SEPARATOR).None?;
    assert "" + SEPARATOR + title == SEPARATOR + title;
    ArtistDashTitle(map[], path, "", title);
  }
}
