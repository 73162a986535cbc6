/** The two Python string built-ins the category parser relies on:
    `str.split(sep)` with an explicit one-character separator, and
    `str.strip()` with no argument, which removes leading and trailing
    whitespace. Stripping is defined for any set of characters, as
    `str.strip(chars)` is, and `str.strip()` is its instance for the
    whitespace characters. */
module PyStr {
  import Seqs

  /** The characters for which Python's `str.isspace()` holds. */
  const Whitespace: set<char> := {
    '\t', '\n', '\U{000B}', '\U{000C}', '\r',
    '\U{001C}', '\U{001D}', '\U{001E}', '\U{001F}', ' ',
    '\U{0085}', '\U{00A0}', '\U{1680}',
    '\U{2000}', '\U{2001}', '\U{2002}', '\U{2003}', '\U{2004}', '\U{2005}',
    '\U{2006}', '\U{2007}', '\U{2008}', '\U{2009}', '\U{200A}',
    '\U{2028}', '\U{2029}', '\U{202F}', '\U{205F}', '\U{3000}'
  }

  /** Every character of `s` is one of `chars`. */
  predicate AllIn(s: string, chars: set<char>) {
    forall i :: 0 <= i < |s| ==> s[i] in chars
  }

  /** Neither end of `s` is one of `chars`. */
  predicate Trimmed(s: string, chars: set<char>) {
    s == [] || (s[0] !in chars && s[|s| - 1] !in chars)
  }

  // ---------------------------------------------------------------------------
  // str.split(sep)

  /** `s.split(sep)`: the pieces between separators, empty pieces included.
      There is at least one piece, and no piece contains the separator. */
  function Split(s: string, sep: char): (parts: seq<string>)
    ensures |parts| >= 1
    ensures forall i :: 0 <= i < |parts| ==> sep !in parts[i]
  {
    if s == [] then [""]
    else
      var rest := Split(s[1..], sep);
      if s[0] == sep then [""] + rest
      else [[s[0]] + rest[0]] + rest[1..]
  }

  /** There is one piece more than there are separators. */
  lemma {:induction false} SplitCount(s: string, sep: char)
    ensures |Split(s, sep)| == multiset(s)[sep] + 1
  {
    if s != [] {
      assert s == [s[0]] + s[1..];
      SplitCount(s[1..], sep);
    }
  }

  /** The first piece is the text before the first separator, or the whole
      string when there is none. */
  lemma {:induction false} SplitFirstPiece(s: string, sep: char)
    ensures var p := Split(s, sep)[0];
            |p| <= |s| && p == s[..|p|] && (|p| == |s| || s[|p|] == sep)
  {
    if s != [] && s[0] != sep {
      var q := Split(s[1..], sep)[0];
      SplitFirstPiece(s[1..], sep);
      assert Split(s, sep)[0] == [s[0]] + q;
      assert [s[0]] + q == s[..|q| + 1];
    }
  }

  /** `sep.join(parts)` for a non-empty list of pieces. */
  function Join(parts: seq<string>, sep: char): string
    requires |parts| >= 1
  {
    if |parts| == 1 then parts[0] else parts[0] + [sep] + Join(parts[1..], sep)
  }

  /** Joining the pieces of a split gives back the original string. */
  lemma {:induction false} JoinSplit(s: string, sep: char)
    ensures Join(Split(s, sep), sep) == s
  {
    if s != [] {
      var rest := Split(s[1..], sep);
      JoinSplit(s[1..], sep);
      if s[0] == sep {
        assert ([""] + rest)[1..] == rest;
      } else {
        var parts := [[s[0]] + rest[0]] + rest[1..];
        if |rest| > 1 {
          assert parts[1..] == rest[1..];
        }
      }
    }
  }

  /** A piece without separator in front of `t` merges with the first piece of `t`. */
  lemma {:induction false} SplitNoSeparatorPrefix(a: string, t: string, sep: char)
    requires sep !in a
    ensures Split(a + t, sep) == [a + Split(t, sep)[0]] + Split(t, sep)[1..]
  {
    if a != [] {
      assert (a + t)[1..] == a[1..] + t;
      assert (a + t)[0] == a[0];
      SplitNoSeparatorPrefix(a[1..], t, sep);
      assert [a[0]] + (a[1..] + Split(t, sep)[0]) == a + Split(t, sep)[0];
    } else {
      var p := Split(t, sep);
      assert a + t == t && a + p[0] == p[0];
      assert p == [p[0]] + p[1..];
    }
  }

  /** Splitting pieces that are joined by a separator they do not contain gives
      back those pieces: the converse round trip. */
  lemma {:induction false} SplitJoin(parts: seq<string>, sep: char)
    requires |parts| >= 1
    requires forall i :: 0 <= i < |parts| ==> sep !in parts[i]
    ensures Split(Join(parts, sep), sep) == parts
  {
    if |parts| == 1 {
      SplitNoSeparatorPrefix(parts[0], "", sep);
      assert parts[0] + "" == parts[0];
    } else {
      var tail := Join(parts[1..], sep);
      SplitJoin(parts[1..], sep);
      assert [sep] + tail != [] && ([sep] + tail)[0] == sep && ([sep] + tail)[1..] == tail;
      assert Split([sep] + tail, sep) == [""] + parts[1..];
      assert parts[0] + [sep] + tail == parts[0] + ([sep] + tail);
      SplitNoSeparatorPrefix(parts[0], [sep] + tail, sep);
      assert parts[0] + "" == parts[0];
    }
  }

  // ---------------------------------------------------------------------------
  // str.strip()

  /** `s.lstrip(chars)`: drops the leading characters that are in `chars`,
      keeping the rest of `s`. */
  function StripStart(s: string, chars: set<char>): (r: string)
    ensures |r| <= |s| && r == s[|s| - |r|..]
    ensures AllIn(s[..|s| - |r|], chars)
    ensures r == [] || r[0] !in chars
  {
    if s != [] && s[0] in chars then
      var r := StripStart(s[1..], chars);
      assert s[..|s| - |r|] == [s[0]] + s[1..][..|s[1..]| - |r|];
      r
    else s
  }

  /** `s.rstrip(chars)`: drops the trailing characters that are in `chars`,
      keeping the rest of `s`. */
  function StripEnd(s: string, chars: set<char>): (r: string)
    ensures |r| <= |s| && r == s[..|r|]
    ensures AllIn(s[|r|..], chars)
    ensures r == [] || r[|r| - 1] !in chars
  {
    if s != [] && s[|s| - 1] in chars then
      var r := StripEnd(s[..|s| - 1], chars);
      assert s[|r|..] == s[..|s| - 1][|r|..] + [s[|s| - 1]];
      r
    else s
  }

  /** `s.strip(chars)`: the part of `s` between its leading and its trailing
      characters from `chars`. Neither of its ends is in `chars`. */
  function StripChars(s: string, chars: set<char>): (r: string)
    ensures |r| <= |s| && Trimmed(r, chars)
  {
    StripEnd(StripStart(s, chars), chars)
  }

  /** `s.strip()`: strips whitespace. */
  function Strip(s: string): (r: string)
    ensures |r| <= |s| && Trimmed(r, Whitespace)
  {
    StripChars(s, Whitespace)
  }

  /** The original string is the stripped string with only stripped
      characters before and after it: the converse of StripUnique. */
  lemma StripIsInfix(s: string, chars: set<char>)
    ensures exists a, b {:trigger AllIn(a, chars), AllIn(b, chars)} ::
              s == a + StripChars(s, chars) + b && AllIn(a, chars) && AllIn(b, chars)
  {
    var m := StripStart(s, chars);
    var r := StripEnd(m, chars);
    var k := |s| - |m|;
    Seqs.SplitAt(s, k);
    Seqs.SplitAt(m, |r|);
    var a, b := s[..k], m[|r|..];
    assert s == a + (r + b);
    Seqs.ConcatAssoc(a, r, b);
    assert r == StripChars(s, chars);
    assert AllIn(a, chars) && AllIn(b, chars);
    assert s == a + StripChars(s, chars) + b;
  }

  lemma {:induction false} StripStartSkips(a: string, t: string, chars: set<char>)
    requires AllIn(a, chars)
    ensures StripStart(a + t, chars) == StripStart(t, chars)
  {
    if a != [] {
      assert (a + t)[0] == a[0] && (a + t)[1..] == a[1..] + t;
      StripStartSkips(a[1..], t, chars);
    } else {
      assert a + t == t;
    }
  }

  lemma {:induction false} StripEndSkips(t: string, b: string, chars: set<char>)
    requires AllIn(b, chars)
    ensures StripEnd(t + b, chars) == StripEnd(t, chars)
  {
    if b != [] {
      assert (t + b)[|t + b| - 1] == b[|b| - 1];
      assert (t + b)[..|t + b| - 1] == t + b[..|b| - 1];
      StripEndSkips(t, b[..|b| - 1], chars);
    } else {
      assert t + b == t;
    }
  }

  /** A trimmed string is left unchanged. */
  lemma StripTrimmed(m: string, chars: set<char>)
    requires Trimmed(m, chars)
    ensures StripStart(m, chars) == m && StripEnd(m, chars) == m
  {
  }

  /** Stripping is determined by the decomposition into stripped characters,
      a trimmed middle and stripped characters: whatever surrounds it, the
      middle is what remains. */
  lemma StripUnique(a: string, m: string, b: string, chars: set<char>)
    requires AllIn(a, chars) && AllIn(b, chars) && Trimmed(m, chars)
    ensures StripChars(a + m + b, chars) == m
  {
    var mb := m + b;
    assert a + m + b == a + mb;
    StripStartSkips(a, mb, chars);
    if m == [] {
      assert mb == b + "";
      StripStartSkips(b, "", chars);
      assert StripStart(mb, chars) == "";
    } else {
      assert mb[0] == m[0];
      assert StripStart(mb, chars) == mb;
      StripEndSkips(m, b, chars);
      StripTrimmed(m, chars);
    }
  }

  /** Stripping twice is stripping once. */
  lemma StripIdempotent(s: string, chars: set<char>)
    ensures StripChars(StripChars(s, chars), chars) == StripChars(s, chars)
  {
    StripTrimmed(StripChars(s, chars), chars);
  }

  /** A character of the stripped string occurs in the original string. */
  lemma StripKeepsCharacters(s: string, chars: set<char>, c: char)
    requires c in StripChars(s, chars)
    ensures c in s
  {
    var m := StripStart(s, chars);
    var r := StripEnd(m, chars);
    var k :| 0 <= k < |r| && r[k] == c;
    assert m[k] == c;
    assert s[|s| - |m| + k] == c;
  }
}
