/** The two Python string operations the extractors are built from:
    str.strip() with no argument and str.split(sep) with a one-character separator. */
module Text {

  /** The code points for which Python's str.isspace() holds; str.strip() removes these. */
  predicate IsSpace(ch: char) {
    || ('\t' <= ch <= '\r')
    || ('\U{1C}' <= ch <= ' ')
    || ch == '\U{85}' || ch == '\U{A0}' || ch == '\U{1680}'
    || ('\U{2000}' <= ch <= '\U{200A}')
    || ch == '\U{2028}' || ch == '\U{2029}' || ch == '\U{202F}' || ch == '\U{205F}' || ch == '\U{3000}'
  }

  /** Printable ASCII characters other than the space are not whitespace. */
  lemma VisibleIsNotSpace(ch: char)
    requires '!' <= ch <= '~'
    ensures !IsSpace(ch)
  {
  }

  /** The index of the first non-whitespace character of s at or after i (|s| if none). */
  function SkipSpaces(s: string, i: nat): (j: nat)
    requires i <= |s|
    ensures i <= j <= |s|
    ensures forall k :: i <= k < j ==> IsSpace(s[k])
    ensures j < |s| ==> !IsSpace(s[j])
    decreases |s| - i
  {
    if i < |s| && IsSpace(s[i]) then SkipSpaces(s, i + 1) else i
  }

  /** The end of s once the trailing whitespace of s[lo..j] is dropped. */
  function SkipSpacesBack(s: string, lo: nat, j: nat): (e: nat)
    requires lo <= j <= |s|
    ensures lo <= e <= j
    ensures forall k :: e <= k < j ==> IsSpace(s[k])
    ensures e > lo ==> !IsSpace(s[e - 1])
  {
    if j > lo && IsSpace(s[j - 1]) then SkipSpacesBack(s, lo, j - 1) else j
  }

  /** Where Strip(s) begins in s. */
  function StripStart(s: string): nat
    ensures StripStart(s) <= |s|
  {
    SkipSpaces(s, 0)
  }

  /** Python's s.strip(): the slice of s that starts at its first and ends at its last
      non-whitespace character. Everything outside the slice is whitespace, and the
      slice neither starts nor ends with whitespace. */
  function Strip(s: string): (r: string)
    ensures StripStart(s) + |r| <= |s|
    ensures r == s[StripStart(s)..StripStart(s) + |r|]
    ensures forall k :: 0 <= k < StripStart(s) ==> IsSpace(s[k])
    ensures forall k :: StripStart(s) + |r| <= k < |s| ==> IsSpace(s[k])
    ensures r == [] || (!IsSpace(r[0]) && !IsSpace(r[|r| - 1]))
  {
    var i := SkipSpaces(s, 0);
    s[i..SkipSpacesBack(s, i, |s|)]
  }

  /** A string that neither starts nor ends with whitespace is its own strip. */
  lemma StripTrimmed(s: string)
    requires s == [] || (!IsSpace(s[0]) && !IsSpace(s[|s| - 1]))
    ensures Strip(s) == s
  {
  }

  /** Stripping a string twice is the same as stripping it once. */
  lemma StripIdempotent(s: string)
    ensures Strip(Strip(s)) == Strip(s)
  {
    StripTrimmed(Strip(s));
  }

  /** Strip is pinned down by its contract: any slice of s with only whitespace outside
      it and no whitespace at either of its ends is Strip(s). */
  lemma StripUnique(s: string, i: nat, r: string)
    requires i + |r| <= |s| && r == s[i..i + |r|]
    requires forall k :: 0 <= k < i ==> IsSpace(s[k])
    requires forall k :: i + |r| <= k < |s| ==> IsSpace(s[k])
    requires r == [] || (!IsSpace(r[0]) && !IsSpace(r[|r| - 1]))
    ensures Strip(s) == r
  {
    var a := StripStart(s);
    var t := Strip(s);
    if r == [] {
      if t != [] {
        assert false;
      }
    } else {
      assert s[i] == r[0] && s[i + |r| - 1] == r[|r| - 1];
      assert a >= i;
      assert a <= i;
      if |t| > 0 {
        assert s[a + |t| - 1] == t[|t| - 1];
      }
      assert a + |t| <= i + |r|;
      assert a + |t| >= i + |r|;
    }
  }

  /** Whitespace in front of s does not change Strip(s). */
  lemma StripAfterSpaces(s: string, i: nat)
    requires i <= |s|
    requires forall k :: 0 <= k < i ==> IsSpace(s[k])
    ensures Strip(s[i..]) == Strip(s)
  {
    var r := Strip(s);
    var a := StripStart(s);
    if r == [] {
      StripUnique(s[i..], 0, r);
    } else {
      assert s[a] == r[0];
      assert a >= i;
      assert s[i..][a - i..a - i + |r|] == r;
      StripUnique(s[i..], a - i, r);
    }
  }

  /** Every character of Strip(s) is a character of s. */
  lemma StripKeepsCharacters(s: string, ch: char)
    ensures ch in Strip(s) ==> ch in s
  {
    var r := Strip(s);
    var i := StripStart(s);
    if ch in r {
      var k :| 0 <= k < |r| && r[k] == ch;
      assert s[i + k] == ch;
    }
  }

  /** Python's sep.join(parts), the inverse of Split. */
  function Join(parts: seq<string>, sep: char): string {
    if |parts| == 0 then []
    else if |parts| == 1 then parts[0]
    else parts[0] + [sep] + Join(parts[1..], sep)
  }

  /** Join starts with the first character of its first piece. */
  lemma JoinFirst(parts: seq<string>, sep: char)
    requires |parts| >= 1 && parts[0] != []
    ensures |Join(parts, sep)| > 0 && Join(parts, sep)[0] == parts[0][0]
  {
  }

  /** Join ends with the last character of its last piece. */
  lemma {:induction false} JoinLast(parts: seq<string>, sep: char)
    requires |parts| >= 1 && parts[|parts| - 1] != []
    ensures |Join(parts, sep)| > 0
    ensures Join(parts, sep)[|Join(parts, sep)| - 1] == parts[|parts| - 1][|parts[|parts| - 1]| - 1]
  {
    if |parts| > 1 {
      JoinLast(parts[1..], sep);
    }
  }

  /** Python's s.split(sep): the pieces between the occurrences of sep, left to right.
      Empty pieces are kept and there is always at least one piece; no piece contains
      sep, and joining the pieces with sep gives s back. */
  function Split(s: string, sep: char): (parts: seq<string>)
    ensures |parts| >= 1
    ensures forall i :: 0 <= i < |parts| ==> sep !in parts[i]
    ensures Join(parts, sep) == s
  {
    if s == [] then [[]]
    else
      var rest := Split(s[1..], sep);
      if s[0] == sep then
        assert ([[]] + rest)[1..] == rest;
        [[]] + rest
      else
        var parts := [[s[0]] + rest[0]] + rest[1..];
        assert parts[1..] == rest[1..];
        assert |rest| > 1 ==> Join(rest, sep) == rest[0] + [sep] + Join(rest[1..], sep);
        parts
  }

  /** Splitting a string that does not contain sep gives that string alone. */
  lemma {:induction false} SplitWithoutSeparator(s: string, sep: char)
    requires sep !in s
    ensures Split(s, sep) == [s]
  {
    if s != [] {
      SplitWithoutSeparator(s[1..], sep);
    }
  }

  /** Splitting w + [sep] + t, where w does not contain sep, gives w followed by the pieces of t. */
  lemma {:induction false} SplitAtFirstSeparator(w: string, sep: char, t: string)
    requires sep !in w
    ensures Split(w + [sep] + t, sep) == [w] + Split(t, sep)
  {
    if w == [] {
      assert ([] + [sep] + t)[1..] == t;
    } else {
      assert (w + [sep] + t)[1..] == w[1..] + [sep] + t;
      SplitAtFirstSeparator(w[1..], sep, t);
      assert [w[0]] + w[1..] == w;
    }
  }

  /** Split inverts Join: pieces free of sep are recovered from their join. */
  lemma {:induction false} SplitJoin(parts: seq<string>, sep: char)
    requires |parts| >= 1
    requires forall i :: 0 <= i < |parts| ==> sep !in parts[i]
    ensures Split(Join(parts, sep), sep) == parts
  {
    if |parts| == 1 {
      SplitWithoutSeparator(parts[0], sep);
    } else {
      SplitJoin(parts[1..], sep);
      SplitAtFirstSeparator(parts[0], sep, Join(parts[1..], sep));
      assert [parts[0]] + parts[1..] == parts;
    }
  }

  /** The first piece of Split(s, sep) is everything before the first sep, or all of s
      when s has no sep. */
  lemma SplitFirstPiece(s: string, sep: char)
    ensures sep !in s ==> Split(s, sep)[0] == s
    ensures forall i :: 0 <= i < |s| && s[i] == sep && sep !in s[..i] ==> Split(s, sep)[0] == s[..i]
  {
    var parts := Split(s, sep);
    if |parts| == 1 {
      assert s == parts[0];
    } else {
      assert s == parts[0] + [sep] + Join(parts[1..], sep);
      forall i | 0 <= i < |s| && s[i] == sep && sep !in s[..i]
        ensures parts[0] == s[..i]
      {
        var n := |parts[0]|;
        assert s[n] == sep;
        assert s[..n] == parts[0];
      }
    }
  }
}
