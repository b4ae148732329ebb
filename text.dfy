/** String helpers of download_lyrics.py (normalize_string, remove_tags) and the
    Python string primitives they rest on: str.lower, str.strip, `in` and split.

    Character classes follow Python's Unicode rules restricted to ASCII: a word
    character (regex \w) is a letter, a digit or '_'; a space (regex \s and
    str.isspace) is ' ', '\t' to '\r', or one of the separators 0x1C to 0x1F. */
module Text {
  import opened Wrappers

  predicate IsSpace(c: char) {
    c == ' ' || ('\t' <= c <= '\r') || ('\U{1C}' <= c <= '\U{1F}')
  }

  predicate IsUpper(c: char) {
    'A' <= c <= 'Z'
  }

  predicate IsWordChar(c: char) {
    ('a' <= c <= 'z') || IsUpper(c) || ('0' <= c <= '9') || c == '_'
  }

  /** Python truthiness of an optional string: present and non-empty. */
  predicate Truthy(o: Option<string>) {
    o.Some? && o.value != []
  }

  function LowerChar(c: char): (d: char)
    ensures !IsUpper(d)
    ensures IsWordChar(d) == IsWordChar(c) && IsSpace(d) == IsSpace(c)
    ensures !IsUpper(c) ==> d == c
  {
    if IsUpper(c) then (c as int - 'A' as int + 'a' as int) as char else c
  }

  /** str.lower() */
  function Lower(s: string): (r: string)
    ensures |r| == |s|
    ensures forall i :: 0 <= i < |s| ==> r[i] == LowerChar(s[i])
  {
    seq(|s|, i requires 0 <= i < |s| => LowerChar(s[i]))
  }

  /** The word characters of s, in order: what normalisation must not lose. */
  function WordChars(s: string): string {
    if s == [] then []
    else if IsWordChar(s[0]) then [s[0]] + WordChars(s[1..])
    else WordChars(s[1..])
  }

  lemma {:induction false} WordCharsAppend(a: string, b: string)
    ensures WordChars(a + b) == WordChars(a) + WordChars(b)
  {
    if a == [] {
      assert a + b == b;
    } else {
      assert (a + b)[0] == a[0] && (a + b)[1..] == a[1..] + b;
      WordCharsAppend(a[1..], b);
    }
  }

  lemma {:induction false} WordCharsOfSpaces(s: string)
    requires forall i :: 0 <= i < |s| ==> IsSpace(s[i])
    ensures WordChars(s) == []
  {
    if s != [] {
      WordCharsOfSpaces(s[1..]);
    }
  }

  // ---------------------------------------------------------------------
  // str.strip()

  /** How many whitespace characters s starts with. */
  function LeadingSpaces(s: string): (n: nat)
    ensures n <= |s|
    ensures forall i :: 0 <= i < n ==> IsSpace(s[i])
    ensures n < |s| ==> !IsSpace(s[n])
  {
    if s != [] && IsSpace(s[0]) then
      var rest := s[1..];
      var m := LeadingSpaces(rest);
      assert forall i :: 1 <= i <= m ==> s[i] == rest[i - 1];
      1 + m
    else 0
  }

  /** How many whitespace characters s ends with. */
  function TrailingSpaces(s: string): (n: nat)
    ensures n <= |s|
    ensures forall i :: |s| - n <= i < |s| ==> IsSpace(s[i])
    ensures n < |s| ==> !IsSpace(s[|s| - n - 1])
  {
    if s != [] && IsSpace(s[|s| - 1]) then
      var front := s[..|s| - 1];
      var m := TrailingSpaces(front);
      assert forall i :: 0 <= i < |front| ==> s[i] == front[i];
      1 + m
    else 0
  }

  /** str.lstrip(): drop the leading whitespace. */
  function TrimStart(s: string): (r: string)
    ensures |r| <= |s| && r == s[|s| - |r|..]
    ensures forall i :: 0 <= i < |s| - |r| ==> IsSpace(s[i])
    ensures r == [] || !IsSpace(r[0])
    ensures s != [] && IsSpace(s[0]) ==> |r| < |s|
  {
    s[LeadingSpaces(s)..]
  }

  /** str.strip(): s with its leading and its trailing whitespace removed,
      i.e. the slice of s between the two runs of whitespace. */
  function Strip(s: string): (r: string)
    ensures r == [] || (!IsSpace(r[0]) && !IsSpace(r[|r| - 1]))
    ensures LeadingSpaces(s) + |r| <= |s| && r == s[LeadingSpaces(s)..LeadingSpaces(s) + |r|]
  {
    var t := s[LeadingSpaces(s)..];
    t[..|t| - TrailingSpaces(t)]
  }

  /** What strip() removes is whitespace, at both ends. */
  lemma StripDropsSpaces(s: string)
    ensures forall i :: 0 <= i < LeadingSpaces(s) ==> IsSpace(s[i])
    ensures forall i :: LeadingSpaces(s) + |Strip(s)| <= i < |s| ==> IsSpace(s[i])
  {
    var lo := LeadingSpaces(s);
    var t := s[lo..];
    var n := TrailingSpaces(t);
    assert Strip(s) == t[..|t| - n];
    forall i | lo + |t| - n <= i < |s| ensures IsSpace(s[i]) {
      assert s[i] == t[i - lo];
    }
  }

  /** A string with no whitespace at either end is its own strip(). */
  lemma StripFixed(s: string)
    requires s == [] || (!IsSpace(s[0]) && !IsSpace(s[|s| - 1]))
    ensures Strip(s) == s
  {
    if s != [] {
      assert LeadingSpaces(s) == 0;
      assert s[0..] == s;
      assert TrailingSpaces(s) == 0;
    }
  }

  /** A sequence is the concatenation of its three slices at lo and hi. */
  lemma SliceThree<T>(s: seq<T>, lo: nat, hi: nat)
    requires lo <= hi <= |s|
    ensures s == s[..lo] + (s[lo..hi] + s[hi..])
  {
  }

  /** Whitespace before lo and from hi on adds no word character. */
  lemma WordCharsOfPadded(s: string, lo: nat, hi: nat)
    requires lo <= hi <= |s|
    requires forall i :: 0 <= i < lo ==> IsSpace(s[i])
    requires forall i :: hi <= i < |s| ==> IsSpace(s[i])
    ensures WordChars(s) == WordChars(s[lo..hi])
  {
    SliceThree(s, lo, hi);
    WordCharsOfSpaceSlice(s, 0, lo);
    WordCharsOfSpaceSlice(s, hi, |s|);
    assert s[..lo] == s[0..lo] && s[hi..] == s[hi..|s|];
    WordCharsAppend(s[lo..hi], s[hi..]);
    WordCharsAppend(s[..lo], s[lo..hi] + s[hi..]);
  }

  /** A slice that is all whitespace has no word character. */
  lemma WordCharsOfSpaceSlice(s: string, a: nat, b: nat)
    requires a <= b <= |s|
    requires forall i :: a <= i < b ==> IsSpace(s[i])
    ensures WordChars(s[a..b]) == []
  {
    forall i | 0 <= i < b - a ensures IsSpace(s[a..b][i]) {
      assert s[a..b][i] == s[a + i];
    }
    WordCharsOfSpaces(s[a..b]);
  }

  /** Stripping removes whitespace only, so no word character is lost. */
  lemma StripKeepsWords(s: string)
    ensures WordChars(Strip(s)) == WordChars(s)
  {
    var lo := LeadingSpaces(s);
    StripDropsSpaces(s);
    WordCharsOfPadded(s, lo, lo + |Strip(s)|);
  }

  // ---------------------------------------------------------------------
  // normalize_string

  predicate NoUpper(s: string) {
    forall i :: 0 <= i < |s| ==> !IsUpper(s[i])
  }

  /** re.sub(r'[^\w\s]', '', s): keep word characters and whitespace only. */
  function KeepWordAndSpace(s: string): (r: string)
    ensures forall i :: 0 <= i < |r| ==> IsWordChar(r[i]) || IsSpace(r[i])
    ensures NoUpper(s) ==> NoUpper(r)
    ensures WordChars(r) == WordChars(s)
  {
    if s == [] then []
    else if IsWordChar(s[0]) || IsSpace(s[0]) then
      var r := [s[0]] + KeepWordAndSpace(s[1..]);
      assert r[1..] == KeepWordAndSpace(s[1..]);
      r
    else KeepWordAndSpace(s[1..])
  }

  /** re.sub(r'\s+', ' ', s): every maximal run of whitespace becomes one ' '. */
  function CollapseSpace(s: string): (r: string)
    decreases |s|
    ensures forall i :: 0 <= i < |r| ==> IsSpace(r[i]) ==> r[i] == ' '
    ensures forall i :: 0 <= i < |r| - 1 ==> !(r[i] == ' ' && r[i + 1] == ' ')
    ensures s != [] ==> r != [] && (IsSpace(s[0]) ==> r[0] == ' ') && (!IsSpace(s[0]) ==> r[0] == s[0])
  {
    if s == [] then []
    else if IsSpace(s[0]) then [' '] + CollapseSpace(TrimStart(s))
    else [s[0]] + CollapseSpace(s[1..])
  }

  /** Collapsing whitespace brings in no character other than ' '. */
  lemma {:induction false} CollapseSpaceOfLowerWords(s: string)
    requires forall i :: 0 <= i < |s| ==> IsSpace(s[i]) || (IsWordChar(s[i]) && !IsUpper(s[i]))
    ensures forall i :: 0 <= i < |CollapseSpace(s)| ==>
      CollapseSpace(s)[i] == ' ' || (IsWordChar(CollapseSpace(s)[i]) && !IsUpper(CollapseSpace(s)[i]))
    decreases |s|
  {
    if s != [] {
      var t := if IsSpace(s[0]) then TrimStart(s) else s[1..];
      assert forall i :: 0 <= i < |t| ==> t[i] == s[|s| - |t| + i];
      CollapseSpaceOfLowerWords(t);
    }
  }

  lemma {:induction false} CollapseSpaceKeepsWords(s: string)
    ensures WordChars(CollapseSpace(s)) == WordChars(s)
    decreases |s|
  {
    if s != [] {
      if IsSpace(s[0]) {
        var t := TrimStart(s);
        CollapseSpaceKeepsWords(t);
        assert ([' '] + CollapseSpace(t))[1..] == CollapseSpace(t);
        assert s == s[..|s| - |t|] + t;
        WordCharsOfSpaces(s[..|s| - |t|]);
        WordCharsAppend(s[..|s| - |t|], t);
      } else {
        CollapseSpaceKeepsWords(s[1..]);
        assert ([s[0]] + CollapseSpace(s[1..]))[1..] == CollapseSpace(s[1..]);
      }
    }
  }

  /** The shape normalize_string produces: lower-case word characters separated
      by single spaces, with no space at either end. */
  predicate IsNormalized(s: string) {
    && (forall i :: 0 <= i < |s| ==> s[i] == ' ' || (IsWordChar(s[i]) && !IsUpper(s[i])))
    && (s != [] ==> s[0] != ' ' && s[|s| - 1] != ' ')
    && (forall i :: 0 <= i < |s| - 1 ==> !(s[i] == ' ' && s[i + 1] == ' '))
  }

  /** normalize_string: None and "" give ""; otherwise lower-case, drop what is
      neither a word character nor whitespace, collapse whitespace, strip. */
  function Normalize(text: Option<string>): (r: string)
    ensures !Truthy(text) ==> r == []
  {
    if !Truthy(text) then []
    else Strip(CollapseSpace(KeepWordAndSpace(Lower(text.value))))
  }

  /** Stripping a collapsed string of lower-case word characters and spaces
      yields the normal form. */
  lemma StripOfCollapsed(c: string)
    requires forall i :: 0 <= i < |c| ==> c[i] == ' ' || (IsWordChar(c[i]) && !IsUpper(c[i]))
    requires forall i :: 0 <= i < |c| - 1 ==> !(c[i] == ' ' && c[i + 1] == ' ')
    ensures IsNormalized(Strip(c))
  {
    var r := Strip(c);
    var off := LeadingSpaces(c);
    assert forall i :: 0 <= i < |r| ==> r[i] == ' ' || (IsWordChar(r[i]) && !IsUpper(r[i])) by {
      forall i | 0 <= i < |r| ensures r[i] == ' ' || (IsWordChar(r[i]) && !IsUpper(r[i])) {
        assert r[i] == c[off + i];
      }
    }
    assert r != [] ==> r[0] != ' ' && r[|r| - 1] != ' ';
    assert forall i :: 0 <= i < |r| - 1 ==> !(r[i] == ' ' && r[i + 1] == ' ') by {
      forall i | 0 <= i < |r| - 1 ensures !(r[i] == ' ' && r[i + 1] == ' ') {
        assert r[i] == c[off + i] && r[i + 1] == c[off + i + 1];
      }
    }
  }

  lemma NormalizeIsNormalized(text: Option<string>)
    ensures IsNormalized(Normalize(text))
  {
    if Truthy(text) {
      var lowered := Lower(text.value);
      assert NoUpper(lowered);
      var kept := KeepWordAndSpace(lowered);
      assert forall i :: 0 <= i < |kept| ==> IsSpace(kept[i]) || (IsWordChar(kept[i]) && !IsUpper(kept[i]));
      CollapseSpaceOfLowerWords(kept);
      StripOfCollapsed(CollapseSpace(kept));
    }
  }

  /** normalize_string keeps every word character of the lower-cased input, in order. */
  lemma NormalizeKeepsWords(text: string)
    requires text != []
    ensures WordChars(Normalize(Some(text))) == WordChars(Lower(text))
  {
    var collapsed := CollapseSpace(KeepWordAndSpace(Lower(text)));
    CollapseSpaceKeepsWords(KeepWordAndSpace(Lower(text)));
    StripKeepsWords(collapsed);
    assert Normalize(Some(text)) == Strip(collapsed);
  }

  lemma {:induction false} KeepWordAndSpaceFixed(s: string)
    requires forall i :: 0 <= i < |s| ==> IsWordChar(s[i]) || IsSpace(s[i])
    ensures KeepWordAndSpace(s) == s
  {
    if s != [] {
      KeepWordAndSpaceFixed(s[1..]);
    }
  }

  lemma {:induction false} CollapseSpaceFixed(s: string)
    requires forall i :: 0 <= i < |s| ==> IsSpace(s[i]) ==> s[i] == ' '
    requires forall i :: 0 <= i < |s| - 1 ==> !(s[i] == ' ' && s[i + 1] == ' ')
    ensures CollapseSpace(s) == s
    decreases |s|
  {
    if s != [] {
      var rest := s[1..];
      assert forall i :: 0 <= i < |rest| ==> rest[i] == s[i + 1];
      CollapseSpaceFixed(rest);
      if IsSpace(s[0]) {
        assert rest == [] || !IsSpace(rest[0]) by {
          if rest != [] {
            assert s[0] == ' ';
            assert rest[0] == s[1];
          }
        }
        assert TrimStart(s) == TrimStart(rest) == rest;
        assert CollapseSpace(s) == [' '] + rest;
        assert s == [s[0]] + rest;
      } else {
        assert CollapseSpace(s) == [s[0]] + rest;
        assert s == [s[0]] + rest;
      }
    }
  }

  /** A string already in normal form is its own normalisation. */
  lemma NormalizeFixesNormalized(w: string)
    requires IsNormalized(w)
    ensures Normalize(Some(w)) == w
  {
    if w != [] {
      var lowered := Lower(w);
      assert lowered == w;
      KeepWordAndSpaceFixed(w);
      CollapseSpaceFixed(w);
      StripFixed(w);
    }
  }

  /** normalize_string is idempotent. */
  lemma NormalizeIdempotent(text: Option<string>)
    ensures Normalize(Some(Normalize(text))) == Normalize(text)
  {
    NormalizeIsNormalized(text);
    NormalizeFixesNormalized(Normalize(text));
  }

  // ---------------------------------------------------------------------
  // normalize_string against ' '.join(s.split())

  /** The character filter works one character at a time. */
  lemma {:induction false} KeepWordAndSpaceAppend(a: string, b: string)
    ensures KeepWordAndSpace(a + b) == KeepWordAndSpace(a) + KeepWordAndSpace(b)
  {
    if a == [] {
      assert a + b == b;
    } else {
      var a' := a[1..];
      var head := if IsWordChar(a[0]) || IsSpace(a[0]) then [a[0]] else [];
      calc {
        KeepWordAndSpace(a + b);
        { assert (a + b)[0] == a[0] && (a + b)[1..] == a' + b;
          KeepWordAndSpaceStep(a + b); }
        head + KeepWordAndSpace(a' + b);
        { KeepWordAndSpaceAppend(a', b); }
        head + (KeepWordAndSpace(a') + KeepWordAndSpace(b));
        { KeepWordAndSpaceStep(a); }
        KeepWordAndSpace(a) + KeepWordAndSpace(b);
      }
    }
  }

  /** One step of the filter: the first character is kept or dropped, then
      the rest is filtered. */
  lemma KeepWordAndSpaceStep(s: string)
    requires s != []
    ensures KeepWordAndSpace(s) ==
      (if IsWordChar(s[0]) || IsSpace(s[0]) then [s[0]] else []) + KeepWordAndSpace(s[1..])
  {
  }

  /** A word character or a whitespace character is kept as it is; any other
      character is dropped. */
  lemma KeepWordAndSpaceOfChar(c: char)
    ensures KeepWordAndSpace([c]) == if IsWordChar(c) || IsSpace(c) then [c] else []
  {
    assert [c][1..] == [];
  }

  /** How many non-whitespace characters s starts with. */
  function WordLength(s: string): (n: nat)
    ensures n <= |s|
    ensures forall i :: 0 <= i < n ==> !IsSpace(s[i])
    ensures n < |s| ==> IsSpace(s[n])
  {
    if s != [] && !IsSpace(s[0]) then
      var rest := s[1..];
      var m := WordLength(rest);
      assert forall i :: 1 <= i <= m ==> s[i] == rest[i - 1];
      1 + m
    else 0
  }

  /** A word of str.split(): non-empty and free of whitespace. */
  predicate IsWord(w: string) {
    w != [] && forall i :: 0 <= i < |w| ==> !IsSpace(w[i])
  }

  /** str.split() without a separator: the maximal runs of non-whitespace
      characters, in order. */
  function Split(s: string): (ws: seq<string>)
    decreases |s|
    ensures forall k :: 0 <= k < |ws| ==> IsWord(ws[k])
  {
    var t := TrimStart(s);
    if t == [] then []
    else
      var n := WordLength(t);
      var w, rest := t[..n], Split(t[n..]);
      assert IsWord(w);
      WordsCons(w, rest);
      [w] + rest
  }

  /** A word in front of words gives words. */
  lemma WordsCons(w: string, ws: seq<string>)
    requires IsWord(w) && forall k :: 0 <= k < |ws| ==> IsWord(ws[k])
    ensures forall k :: 0 <= k < |[w] + ws| ==> IsWord(([w] + ws)[k])
  {
    forall k | 1 <= k < |[w] + ws|
      ensures IsWord(([w] + ws)[k])
    {
      assert ([w] + ws)[k] == ws[k - 1];
    }
  }

  /** ' '.join(ws) */
  function JoinWords(ws: seq<string>): string {
    if ws == [] then []
    else if |ws| == 1 then ws[0]
    else ws[0] + [' '] + JoinWords(ws[1..])
  }

  /** A string that starts with no whitespace is its own lstrip(). */
  lemma TrimStartFixed(s: string)
    requires s == [] || !IsSpace(s[0])
    ensures TrimStart(s) == s
  {
    assert s[0..] == s;
  }

  /** split() ignores leading whitespace. */
  lemma SplitOfTrimmed(s: string)
    ensures Split(TrimStart(s)) == Split(s)
  {
    TrimStartFixed(TrimStart(s));
  }

  /** split() of a string that starts with a word: that word, then the words
      of the rest. */
  lemma SplitOfWord(s: string)
    requires s != [] && !IsSpace(s[0])
    ensures Split(s) == [s[..WordLength(s)]] + Split(s[WordLength(s)..])
  {
    TrimStartFixed(s);
  }

  /** strip() of s is the slice s[lo..hi] when only whitespace lies outside it
      and it starts and ends with a non-whitespace character. */
  lemma StripIs(s: string, lo: nat, hi: nat)
    requires lo < hi <= |s|
    requires forall i :: 0 <= i < lo ==> IsSpace(s[i])
    requires forall i :: hi <= i < |s| ==> IsSpace(s[i])
    requires !IsSpace(s[lo]) && !IsSpace(s[hi - 1])
    ensures Strip(s) == s[lo..hi]
  {
    assert LeadingSpaces(s) == lo;
    var r := Strip(s);
    StripDropsSpaces(s);
    assert r != [];
    assert lo + |r| <= hi by {
      assert !IsSpace(r[|r| - 1]) && r[|r| - 1] == s[lo + |r| - 1];
    }
    assert hi <= lo + |r|;
  }

  /** A leading ' ' makes no difference to strip(). */
  lemma StripOfSpaceFront(c: string)
    ensures Strip([' '] + c) == Strip(c)
  {
    var s := [' '] + c;
    var lo := LeadingSpaces(c);
    assert s[1..] == c;
    assert LeadingSpaces(s) == 1 + lo;
    assert s[1 + lo..] == c[lo..];
  }

  /** Text that starts with no whitespace keeps its front through strip(). */
  lemma StripKeepsFront(a: string, c: string)
    requires a != [] && !IsSpace(a[0])
    requires c != [] && !IsSpace(c[0])
    ensures Strip(a + c) == a + Strip(c)
  {
    var s := a + c;
    var rc := Strip(c);
    assert LeadingSpaces(c) == 0;
    StripDropsSpaces(c);
    assert rc != [];
    var m := |rc|;
    assert rc == c[..m];
    assert forall i :: |a| <= i < |s| ==> s[i] == c[i - |a|];
    StripIs(s, 0, |a| + m);
    assert s[0..|a| + m] == a + c[..m];
  }

  /** A word followed by one ' ' strips to the word. */
  lemma StripOfWordSpace(w: string)
    requires IsWord(w)
    ensures Strip(w + [' ']) == w
  {
    var s := w + [' '];
    StripIs(s, 0, |w|);
    assert s[0..|w|] == w;
  }

  /** re.sub(r'\s+', ' ', ...) passes a word through unchanged. */
  lemma {:induction false} CollapseSpaceOfWord(w: string, rest: string)
    requires forall i :: 0 <= i < |w| ==> !IsSpace(w[i])
    ensures CollapseSpace(w + rest) == w + CollapseSpace(rest)
  {
    if w == [] {
      assert w + rest == rest;
    } else {
      var w' := w[1..];
      calc {
        CollapseSpace(w + rest);
        { assert (w + rest)[0] == w[0] && (w + rest)[1..] == w' + rest; }
        [w[0]] + CollapseSpace(w' + rest);
        { CollapseSpaceOfWord(w', rest); }
        [w[0]] + (w' + CollapseSpace(rest));
        { assert w == [w[0]] + w'; }
        w + CollapseSpace(rest);
      }
    }
  }

  /** Collapsing whitespace and stripping the ends is ' '.join(s.split()):
      the words of s, in order, each separated from the next by exactly one
      ' ', whatever whitespace separated them in s. */
  lemma {:induction false} CollapseStripIsJoinSplit(s: string)
    ensures Strip(CollapseSpace(s)) == JoinWords(Split(s))
    decreases |s|
  {
    if s == [] {
      assert Strip([]) == [];
    } else if IsSpace(s[0]) {
      var u := TrimStart(s);
      CollapseStripIsJoinSplit(u);
      StripOfSpaceFront(CollapseSpace(u));
      TrimStartFixed(u);
    } else {
      var n := WordLength(s);
      var w, rest := s[..n], s[n..];
      assert s == w + rest;
      CollapseSpaceOfWord(w, rest);
      SplitOfWord(s);
      var u := TrimStart(rest);
      SplitOfTrimmed(rest);
      if u == [] {
        JoinOfWordAndNothing(w, rest);
      } else {
        CollapseStripIsJoinSplit(u);
        assert CollapseSpace(rest) == [' '] + CollapseSpace(u);
        SplitOfWord(u);
        JoinOfWordAndMore(w, CollapseSpace(u), Split(u));
      }
    }
  }

  /** The last word: whatever whitespace follows it is dropped. */
  lemma JoinOfWordAndNothing(w: string, rest: string)
    requires IsWord(w)
    requires TrimStart(rest) == []
    ensures Strip(w + CollapseSpace(rest)) == JoinWords([w])
  {
    if rest == [] {
      assert w + [] == w;
      StripFixed(w);
    } else {
      assert CollapseSpace(rest) == [' '];
      StripOfWordSpace(w);
    }
  }

  /** A word followed by whitespace and more words: one ' ' separates them. */
  lemma JoinOfWordAndMore(w: string, c: string, ws: seq<string>)
    requires IsWord(w)
    requires c != [] && !IsSpace(c[0])
    requires ws != [] && Strip(c) == JoinWords(ws)
    ensures Strip(w + ([' '] + c)) == JoinWords([w] + ws)
  {
    var front := w + [' '];
    assert w + ([' '] + c) == front + c;
    StripKeepsFront(front, c);
    assert ([w] + ws)[1..] == ws;
  }

  /** normalize_string is ' '.join(...split()) of the filtered, lower-cased text. */
  lemma NormalizeIsJoinSplit(text: string)
    requires text != []
    ensures Normalize(Some(text)) == JoinWords(Split(KeepWordAndSpace(Lower(text))))
  {
    CollapseStripIsJoinSplit(KeepWordAndSpace(Lower(text)));
  }

  // ---------------------------------------------------------------------
  // Substring search: `pat in s` and s.split(pat, 1)

  predicate OccursAt(s: string, pat: string, k: nat) {
    k + |pat| <= |s| && s[k..k + |pat|] == pat
  }

  function FindFrom(s: string, pat: string, k: nat): (r: Option<nat>)
    decreases |s| - k
    ensures r.Some? ==> k <= r.value && OccursAt(s, pat, r.value)
    ensures r.Some? ==> forall j: nat :: k <= j < r.value ==> !OccursAt(s, pat, j)
    ensures r.None? ==> forall j: nat :: k <= j ==> !OccursAt(s, pat, j)
  {
    if OccursAt(s, pat, k) then Some(k)
    else if k + |pat| >= |s| then None
    else FindFrom(s, pat, k + 1)
  }

  /** The index of the first occurrence of pat in s, as str.find and str.split use it. */
  function Find(s: string, pat: string): (r: Option<nat>)
    ensures r.Some? ==> OccursAt(s, pat, r.value) && forall j: nat :: j < r.value ==> !OccursAt(s, pat, j)
    ensures r.None? ==> forall j: nat :: !OccursAt(s, pat, j)
  {
    FindFrom(s, pat, 0)
  }

  /** The first occurrence is what Find reports. */
  lemma FindFirst(s: string, pat: string, k: nat)
    requires OccursAt(s, pat, k)
    requires forall j: nat :: j < k ==> !OccursAt(s, pat, j)
    ensures Find(s, pat) == Some(k)
  {
  }

  /** pat does not occur in a string that lacks one of its characters. */
  lemma FindAbsent(s: string, pat: string, c: char)
    requires c in pat && c !in s
    ensures Find(s, pat) == None
  {
    var i :| 0 <= i < |pat| && pat[i] == c;
    forall j: nat ensures !OccursAt(s, pat, j) {
      if j + |pat| <= |s| {
        assert s[j..j + |pat|][i] == s[j + i] != c;
      }
    }
  }

  /** s.endswith(suffix) */
  predicate EndsWith(s: string, suffix: string)
    ensures EndsWith(s, suffix) <==>
      |suffix| <= |s| && forall k :: 0 <= k < |suffix| ==> s[|s| - |suffix| + k] == suffix[k]
  {
    |suffix| <= |s| && s[|s| - |suffix|..] == suffix
  }

  // ---------------------------------------------------------------------
  // subsequences

  /** r is s with some characters deleted: r keeps the order of s. */
  predicate IsSubsequence(r: string, s: string)
    decreases |s|
  {
    r == [] ||
    (s != [] && ((r[0] == s[0] && IsSubsequence(r[1..], s[1..])) || IsSubsequence(r, s[1..])))
  }

  /** A slice is a subsequence of what it is sliced from. */
  lemma {:induction false} SliceIsSubsequence(s: string, lo: nat, hi: nat)
    requires lo <= hi <= |s|
    ensures IsSubsequence(s[lo..hi], s)
    decreases |s|
  {
    if lo < hi {
      if lo > 0 {
        var t := s[1..];
        assert s[lo..hi] == t[lo - 1..hi - 1] by {
          assert forall k :: lo - 1 <= k < hi - 1 ==> t[k] == s[k + 1];
        }
        SliceIsSubsequence(s[1..], lo - 1, hi - 1);
      } else {
        var t := s[1..];
        assert s[lo..hi][1..] == t[0..hi - 1] by {
          assert forall k :: 0 <= k < hi - 1 ==> t[k] == s[k + 1];
        }
        SliceIsSubsequence(t, 0, hi - 1);
      }
    }
  }

  /** A subsequence of what follows the first n characters is one of the whole. */
  lemma SubsequenceOfDrop(r: string, s: string, n: nat)
    requires n <= |s| && IsSubsequence(r, s[n..])
    ensures IsSubsequence(r, s)
  {
    SliceIsSubsequence(s, n, |s|);
    assert s[n..|s|] == s[n..];
    SubsequenceTransitive(r, s[n..], s);
  }

  /** A subsequence holds no character its source lacks. */
  lemma {:induction false} SubsequenceLacks(r: string, s: string, c: char)
    requires IsSubsequence(r, s) && c !in s
    ensures c !in r
    decreases |s|
  {
    if r != [] {
      if r[0] == s[0] && IsSubsequence(r[1..], s[1..]) {
        SubsequenceLacks(r[1..], s[1..], c);
        assert r == [r[0]] + r[1..];
      } else {
        SubsequenceLacks(r, s[1..], c);
      }
    }
  }

  lemma {:induction false} SubsequenceTransitive(a: string, b: string, c: string)
    requires IsSubsequence(a, b) && IsSubsequence(b, c)
    ensures IsSubsequence(a, c)
    decreases |c|
  {
    if a != [] && b != [] {
      if b[0] == c[0] && IsSubsequence(b[1..], c[1..]) {
        if a[0] == b[0] && IsSubsequence(a[1..], b[1..]) {
          SubsequenceTransitive(a[1..], b[1..], c[1..]);
        } else {
          SubsequenceTransitive(a, b[1..], c[1..]);
        }
      } else {
        SubsequenceTransitive(a, b, c[1..]);
      }
    }
  }

  // ---------------------------------------------------------------------
  // remove_tags

  /** A match of <[^>]+> that starts at s[0] and is n characters long. */
  predicate IsTagAt(s: string, n: nat) {
    && 3 <= n <= |s|
    && s[0] == '<' && s[n - 1] == '>'
    && (forall k :: 1 <= k < n - 1 ==> s[k] != '>')
  }

  /** The first index at or after k where c occurs in s. */
  function IndexFrom(s: string, c: char, k: nat): (r: Option<nat>)
    decreases |s| - k
    ensures r.Some? ==> k <= r.value < |s| && s[r.value] == c
    ensures r.Some? ==> forall j :: k <= j < r.value ==> s[j] != c
    ensures r.None? ==> forall j :: k <= j < |s| ==> s[j] != c
  {
    if k >= |s| then None
    else if s[k] == c then Some(k)
    else IndexFrom(s, c, k + 1)
  }

  /** The length of the tag the regex matches at s[0], if any. When there is
      none although s starts with '<', either '>' follows at once (so [^>]+
      cannot match) or no '>' follows at all. */
  function TagAt(s: string): (r: Option<nat>)
    ensures r.Some? ==> IsTagAt(s, r.value)
    ensures r.None? ==> forall n :: !IsTagAt(s, n)
    ensures r.None? && s != [] && s[0] == '<' ==>
      (|s| >= 2 && s[1] == '>') || (forall k :: 1 <= k < |s| ==> s[k] != '>')
  {
    if s == [] || s[0] != '<' then None
    else match IndexFrom(s, '>', 1)
      case None => None
      case Some(j) => if j == 1 then None else Some(j + 1)
  }

  /** No match of <[^>]+> starts anywhere in s. */
  ghost predicate NoTag(s: string) {
    forall i, n :: 0 <= i <= |s| ==> !IsTagAt(s[i..], n)
  }

  /** re.sub(r'<[^>]+>', '', s): delete the tags, scanning left to right. */
  function DeleteTags(s: string): (r: string)
    decreases |s|
    ensures NoTag(r)
    ensures IsSubsequence(r, s)
    ensures s != [] && s[0] != '<' ==> r != [] && r[0] == s[0]
  {
    if s == [] then []
    else match TagAt(s)
      case Some(n) =>
        var r := DeleteTags(s[n..]);
        SubsequenceOfDrop(r, s, n);
        r
      case None =>
        var rest := DeleteTags(s[1..]);
        var r := [s[0]] + rest;
        assert r[1..] == rest;
        forall i, n | 1 <= i <= |r| ensures !IsTagAt(r[i..], n) {
          assert r[i..] == rest[i - 1..];
        }
        assert r[0..] == r;
        assert forall n :: !IsTagAt(r, n) by {
          if s[0] == '<' {
            if |s| >= 2 && s[1] == '>' {
              assert |r| >= 2 && r[1] == '>';
            } else {
              assert '>' !in s[1..];
              SubsequenceLacks(rest, s[1..], '>');
            }
          }
        }
        r
  }

  lemma {:induction false} DeleteTagsFixed(s: string)
    requires NoTag(s)
    ensures DeleteTags(s) == s
    decreases |s|
  {
    if s != [] {
      assert s[0..] == s;
      assert forall i, n | 0 <= i <= |s[1..]| :: s[1..][i..] == s[i + 1..] && !IsTagAt(s[1..][i..], n);
      DeleteTagsFixed(s[1..]);
    }
  }

  /** A first character that starts no tag is kept, and the scan moves on:
      this covers every character but '<', and a '<' followed at once by '>'
      or by no '>' at all. */
  lemma DeleteTagsKeepsFirst(s: string)
    requires s != [] && TagAt(s).None?
    ensures DeleteTags(s) == [s[0]] + DeleteTags(s[1..])
  {
  }

  /** <[^>]+> needs a character between the brackets. */
  lemma EmptyBracketsAreNoTag(y: string)
    ensures TagAt("<>" + y).None?
  {
    var s := "<>" + y;
    assert s[1] == '>';
    assert IndexFrom(s, '>', 1) == Some(1);
  }

  /** "<>x<b>y": the '<' of "<>" starts no tag and is kept, and so is '>'. */
  lemma DeleteTagsOfEmptyBrackets(y: string)
    ensures DeleteTags("<>" + y) == "<>" + DeleteTags(y)
  {
    var s := "<>" + y;
    calc {
      DeleteTags(s);
      { EmptyBracketsAreNoTag(y);
        DeleteTagsKeepsFirst(s); }
      [s[0]] + DeleteTags(s[1..]);
      { assert s[0] == '<' && s[1..] == ">" + y; }
      "<" + DeleteTags(">" + y);
      { DeleteTagsOfPlain(">", y); }
      "<" + (">" + DeleteTags(y));
      { BracketsJoin(DeleteTags(y)); }
      "<>" + DeleteTags(y);
    }
  }

  lemma BracketsJoin(d: string)
    ensures "<" + (">" + d) == "<>" + d
  {
  }

  /** Text before the first '<' is kept verbatim. */
  lemma {:induction false} DeleteTagsOfPlain(x: string, y: string)
    requires '<' !in x
    ensures DeleteTags(x + y) == x + DeleteTags(y)
  {
    if x == [] {
      assert x + y == y;
    } else {
      var x' := x[1..];
      calc {
        DeleteTags(x + y);
        { assert (x + y)[1..] == x' + y;
          DeleteTagsKeepsFirst(x + y); }
        [x[0]] + DeleteTags(x' + y);
        { assert '<' !in x';
          DeleteTagsOfPlain(x', y); }
        [x[0]] + (x' + DeleteTags(y));
        { assert x == [x[0]] + x'; }
        x + DeleteTags(y);
      }
    }
  }

  /** A tag at the front is deleted whole, and what follows is scanned anew. */
  lemma DeleteTagsSkipsTag(t: string, y: string)
    requires IsTagAt(t, |t|)
    ensures DeleteTags(t + y) == DeleteTags(y)
  {
    var s := t + y;
    assert s[|t| - 1] == '>';
    assert forall k :: 1 <= k < |t| - 1 ==> s[k] == t[k];
    assert IndexFrom(s, '>', 1) == Some(|t| - 1);
    assert TagAt(s) == Some(|t|);
    assert s[|t|..] == y;
  }

  /** Deleting tags twice deletes nothing more: the regex pass leaves no new tag. */
  lemma DeleteTagsIdempotent(s: string)
    ensures DeleteTags(DeleteTags(s)) == DeleteTags(s)
  {
    DeleteTagsFixed(DeleteTags(s));
  }

  /** remove_tags: delete the tags, then strip. */
  function RemoveTags(html: string): (r: string)
    ensures r == [] || (!IsSpace(r[0]) && !IsSpace(r[|r| - 1]))
    ensures IsSubsequence(r, html)
  {
    var d := DeleteTags(html);
    var lo := LeadingSpaces(d);
    var r := Strip(d);
    SliceIsSubsequence(d, lo, lo + |r|);
    SubsequenceTransitive(r, d, html);
    r
  }

  /** Text before the first '<' reaches the result, stripped only at its start. */
  lemma RemoveTagsOfPlain(x: string, y: string)
    requires '<' !in x
    ensures RemoveTags(x + y) == Strip(x + DeleteTags(y))
  {
    DeleteTagsOfPlain(x, y);
  }

  /** A tag at the front leaves no trace in the result. */
  lemma RemoveTagsSkipsTag(t: string, y: string)
    requires IsTagAt(t, |t|)
    ensures RemoveTags(t + y) == RemoveTags(y)
  {
    DeleteTagsSkipsTag(t, y);
  }

  /** The text on both sides of a tag is joined up: remove_tags("a<b>c") is "ac". */
  lemma RemoveTagsAroundTag(x: string, t: string, z: string)
    requires '<' !in x && '<' !in z
    requires IsTagAt(t, |t|)
    ensures RemoveTags(x + t + z) == Strip(x + z)
  {
    assert x + t + z == x + (t + z);
    DeleteTagsOfPlain(x, t + z);
    DeleteTagsSkipsTag(t, z);
    DeleteTagsOfPlain(z, []);
    assert z + [] == z;
  }

  /** On text that holds no tag, remove_tags only strips. */
  lemma RemoveTagsOfTagFree(html: string)
    requires NoTag(html)
    ensures RemoveTags(html) == Strip(html)
  {
    DeleteTagsFixed(html);
  }
}
