/** The parts of pathlib.PurePath the script relies on, over POSIX path strings:
    .name, .stem, .suffix and .with_suffix. The script derives a track's lyric
    file with Path(p).with_suffix('.lrc') and the filename fallback of the tag
    reader with Path(p).stem. */
module Paths {
  import opened Wrappers

  const LRC_SUFFIX := ".lrc"

  /** str.rfind for one character: the index of the last c in s, or -1. */
  function LastIndexOf(s: string, c: char): (r: int)
    ensures -1 <= r < |s|
    ensures r >= 0 ==> s[r] == c
    ensures forall j :: r < j < |s| ==> s[j] != c
  {
    if s == [] then -1
    else if s[|s| - 1] == c then |s| - 1
    else LastIndexOf(s[..|s| - 1], c)
  }

  /** The directory part of p: everything up to and including its last '/'. */
  function DirPrefix(p: string): (d: string)
    ensures d == [] || d[|d| - 1] == '/'
    ensures |d| <= |p| && d == p[..|d|]
  {
    p[..LastIndexOf(p, '/') + 1]
  }

  /** PurePath.name: the final component, which holds no '/'. */
  function Name(p: string): (r: string)
    ensures '/' !in r
    ensures r == p[|DirPrefix(p)|..]
  {
    var k := LastIndexOf(p, '/');
    assert forall j :: k + 1 <= j < |p| ==> p[j] != '/';
    p[k + 1..]
  }

  /** The last occurrence is the one after which c does not occur. */
  lemma LastIndexOfIs(s: string, c: char, k: nat)
    requires k < |s| && s[k] == c
    requires forall j :: k < j < |s| ==> s[j] != c
    ensures LastIndexOf(s, c) == k
  {
  }

  /** Where the suffix of a file name starts: at its last '.', unless that dot
      is the name's first or last character, in which case there is no suffix
      and the position is the end of the name. */
  function SuffixStart(name: string): (k: nat)
    ensures k <= |name|
    ensures name != [] ==> k > 0
    ensures k < |name| ==> k < |name| - 1 && name[k] == '.'
    ensures k < |name| ==> forall j :: k < j < |name| ==> name[j] != '.'
  {
    var i := LastIndexOf(name, '.');
    if 0 < i < |name| - 1 then i else |name|
  }

  /** PurePath.suffix of a file name: "" or a '.' followed by at least one character. */
  function Suffix(name: string): (r: string)
    ensures r == [] || (|r| >= 2 && r[0] == '.')
  {
    name[SuffixStart(name)..]
  }

  /** PurePath.stem of a file name: the name without its suffix, never empty
      for a non-empty name. */
  function StemOf(name: string): (r: string)
    ensures |r| <= |name| && r == name[..|r|] && Suffix(name) == name[|r|..]
    ensures name != [] ==> r != []
  {
    name[..SuffixStart(name)]
  }

  /** PurePath.stem of a path: the stem of its final component. */
  function Stem(p: string): (r: string)
    ensures r != [] <==> Name(p) != []
    ensures '/' !in r
  {
    var name := Name(p);
    assert StemOf(name) == name[..|StemOf(name)|];
    StemOf(name)
  }

  /** The suffixes PurePath.with_suffix accepts; any other raises ValueError. */
  predicate ValidSuffix(suffix: string) {
    '/' !in suffix && (suffix == [] || (suffix[0] == '.' && suffix != "."))
  }

  /** PurePath.with_suffix: replace the last suffix of the final component (or
      append one when there is none). None stands for the ValueError raised
      on an invalid suffix or an empty name. */
  function WithSuffix(p: string, suffix: string): (r: Option<string>)
    ensures r.Some? <==> ValidSuffix(suffix) && Name(p) != []
  {
    if !ValidSuffix(suffix) || Name(p) == [] then None
    else Some(DirPrefix(p) + Stem(p) + suffix)
  }

  /** Path(p).with_suffix('.lrc'): where the script looks for and writes the lyrics. */
  function LrcPath(p: string): (r: Option<string>)
    ensures r.Some? <==> Name(p) != []
    ensures r.Some? ==> r.value == DirPrefix(p) + Stem(p) + LRC_SUFFIX
  {
    assert ValidSuffix(LRC_SUFFIX);
    WithSuffix(p, LRC_SUFFIX)
  }

  /** Appending a slash-free name to a directory prefix makes that name the
      final component. */
  lemma {:induction false} SplitOfJoined(d: string, x: string)
    requires d == [] || d[|d| - 1] == '/'
    requires '/' !in x
    ensures LastIndexOf(d + x, '/') == |d| - 1
    ensures DirPrefix(d + x) == d && Name(d + x) == x
  {
    if x == [] {
      assert d + x == d;
    } else {
      var x' := x[..|x| - 1];
      assert (d + x)[..|d + x| - 1] == d + x';
      SplitOfJoined(d, x');
    }
  }

  /** A stem followed by a one-dot suffix splits back into the two. */
  lemma SplitOfSuffixed(stem: string, suffix: string)
    requires stem != []
    requires |suffix| >= 2 && suffix[0] == '.'
    requires forall j :: 1 <= j < |suffix| ==> suffix[j] != '.'
    ensures SuffixStart(stem + suffix) == |stem|
    ensures StemOf(stem + suffix) == stem && Suffix(stem + suffix) == suffix
  {
    var name := stem + suffix;
    assert forall j :: |stem| < j < |name| ==> name[j] == suffix[j - |stem|];
    LastIndexOfIs(name, '.', |stem|);
  }

  /** A directory prefix, a stem and a one-dot suffix make a path with that
      directory, that stem and that suffix. */
  lemma PartsOfJoined(d: string, stem: string, suffix: string)
    requires d == [] || d[|d| - 1] == '/'
    requires stem != [] && '/' !in stem
    requires |suffix| >= 2 && suffix[0] == '.' && '/' !in suffix
    requires forall j :: 1 <= j < |suffix| ==> suffix[j] != '.'
    ensures DirPrefix(d + stem + suffix) == d
    ensures Name(d + stem + suffix) == stem + suffix
    ensures Stem(d + stem + suffix) == stem
    ensures Suffix(Name(d + stem + suffix)) == suffix
  {
    assert d + stem + suffix == d + (stem + suffix);
    SplitOfJoined(d, stem + suffix);
    SplitOfSuffixed(stem, suffix);
  }

  /** The lyric file sits in the same directory as the track, has the same
      stem, and its own suffix is ".lrc": only the last suffix is replaced. */
  lemma LrcPathIsSibling(p: string)
    requires Name(p) != []
    ensures LrcPath(p).Some?
    ensures DirPrefix(LrcPath(p).value) == DirPrefix(p)
    ensures Stem(LrcPath(p).value) == Stem(p)
    ensures Suffix(Name(LrcPath(p).value)) == LRC_SUFFIX
  {
    var stem := Stem(p);
    assert '/' !in stem by {
      assert stem == Name(p)[..|stem|];
    }
    assert ValidSuffix(LRC_SUFFIX);
    PartsOfJoined(DirPrefix(p), stem, LRC_SUFFIX);
  }

  /** A file name is its stem followed by its suffix, and neither holds a '/'
      when the name does not. */
  lemma NameParts(name: string)
    ensures name == StemOf(name) + Suffix(name)
    ensures '/' !in name ==> '/' !in StemOf(name) && '/' !in Suffix(name)
  {
    var stem, suffix := StemOf(name), Suffix(name);
    assert name == name[..|stem|] + name[|stem|..];
    assert forall i :: 0 <= i < |stem| ==> stem[i] == name[i];
    assert forall i :: 0 <= i < |suffix| ==> suffix[i] == name[|stem| + i];
  }

  /** Every path is its directory prefix, its stem and its suffix, in that order. */
  lemma PathParts(p: string)
    ensures p == DirPrefix(p) + Stem(p) + Suffix(Name(p))
    ensures '/' !in Stem(p) && '/' !in Suffix(Name(p))
  {
    var name := Name(p);
    NameParts(name);
    assert p == DirPrefix(p) + name;
  }

  /** Replacing the ".lrc" suffix of a joined path by another valid suffix. */
  lemma WithSuffixOfLrc(q: string, d: string, stem: string, other: string)
    requires d == [] || d[|d| - 1] == '/'
    requires stem != [] && '/' !in stem
    requires q == d + stem + LRC_SUFFIX
    requires ValidSuffix(other)
    ensures WithSuffix(q, other) == Some(d + stem + other)
  {
    PartsOfJoined(d, stem, LRC_SUFFIX);
  }

  /** Putting the track's own suffix back on its lyric path gives the track path
      again, so the derivation loses nothing. */
  lemma LrcPathRoundTrip(p: string)
    requires Name(p) != []
    ensures WithSuffix(LrcPath(p).value, Suffix(Name(p))) == Some(p)
  {
    var d, stem, suffix := DirPrefix(p), Stem(p), Suffix(Name(p));
    PathParts(p);
    SuffixIsValid(suffix);
    var q := d + stem + LRC_SUFFIX;
    assert LrcPath(p) == Some(q) by {
      assert ValidSuffix(LRC_SUFFIX);
    }
    WithSuffixOfLrc(q, d, stem, suffix);
  }

  /** Every suffix a name can have is one with_suffix accepts back. */
  lemma SuffixIsValid(suffix: string)
    requires suffix == [] || (|suffix| >= 2 && suffix[0] == '.')
    requires '/' !in suffix
    ensures ValidSuffix(suffix)
  {
    assert suffix != "." by {
      assert |"."| == 1;
    }
  }

  /** Only the last suffix is replaced: the stem may hold dots of its own, so
      "a.b.mp3" becomes "a.b.lrc". */
  lemma LrcPathReplacesLastSuffix(d: string, stem: string, suffix: string)
    requires d == [] || d[|d| - 1] == '/'
    requires stem != [] && '/' !in stem
    requires |suffix| >= 2 && suffix[0] == '.' && '/' !in suffix
    requires forall j :: 1 <= j < |suffix| ==> suffix[j] != '.'
    ensures LrcPath(d + stem + suffix) == Some(d + stem + LRC_SUFFIX)
  {
    PartsOfJoined(d, stem, suffix);
    assert ValidSuffix(LRC_SUFFIX);
  }

  /** A name such as ".mp3", whose only dot is its first character, has no
      suffix, so the lyric path appends ".lrc" to the whole name. */
  lemma LrcPathOfDotName(d: string, name: string)
    requires d == [] || d[|d| - 1] == '/'
    requires name != [] && name[0] == '.' && '/' !in name
    requires forall j :: 0 < j < |name| ==> name[j] != '.'
    ensures LrcPath(d + name) == Some(d + name + LRC_SUFFIX)
  {
    SplitOfJoined(d, name);
    LastIndexOfIs(name, '.', 0);
    assert StemOf(name) == name;
    assert ValidSuffix(LRC_SUFFIX);
  }
}
