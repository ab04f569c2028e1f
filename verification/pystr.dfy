/**
 The two Python `str` methods the allow-list parser relies on, over `string`
 (a sequence of Unicode scalar values):

 - `s.split(sep)` with a one-character separator, which always yields at least
   one piece and keeps empty pieces;
 - `s.strip()` with no argument, which removes the longest prefix and the
   longest suffix made of characters for which `str.isspace` holds.

 `Join` (Python's `sep.join(pieces)`) is the inverse of `Split`.
 */
module PyStr {

  /** Python 3's `str.isspace` for a single character: the ASCII controls
      TAB, LF, VT, FF, CR, the four information separators 0x1C-0x1F, SPACE,
      and the Unicode white-space characters NEL, NBSP, OGHAM SPACE MARK,
      EN QUAD through HAIR SPACE, LINE and PARAGRAPH SEPARATOR, NARROW NBSP,
      MEDIUM MATHEMATICAL SPACE and IDEOGRAPHIC SPACE. */
  predicate IsSpace(c: char) {
    var n := c as int;
    || 0x09 <= n <= 0x0D
    || 0x1C <= n <= 0x20
    || n == 0x85
    || n == 0xA0
    || n == 0x1680
    || 0x2000 <= n <= 0x200A
    || n == 0x2028
    || n == 0x2029
    || n == 0x202F
    || n == 0x205F
    || n == 0x3000
  }

  predicate AllSpace(s: string) {
    forall k :: 0 <= k < |s| ==> IsSpace(s[k])
  }

  /** No white space at either end (vacuously true of the empty string). */
  predicate Trimmed(s: string) {
    s == "" || (!IsSpace(s[0]) && !IsSpace(s[|s| - 1]))
  }

  /** `r` sits inside `s` with only white space before and after it. */
  predicate FramedBySpace(s: string, r: string) {
    exists i :: 0 <= i <= |s| - |r| && s[i..i + |r|] == r
                && AllSpace(s[..i]) && AllSpace(s[i + |r|..])
  }

  /** Number of white-space characters at the start of `s`. */
  function LeadingSpace(s: string): (n: nat)
    ensures n <= |s|
    ensures AllSpace(s[..n])
    ensures n == |s| || !IsSpace(s[n])
  {
    if |s| > 0 && IsSpace(s[0]) then 1 + LeadingSpace(s[1..]) else 0
  }

  /** Index at which the white-space suffix of `s` begins. */
  function TrailingSpaceStart(s: string): (n: nat)
    ensures n <= |s|
    ensures AllSpace(s[n..])
    ensures n == 0 || !IsSpace(s[n - 1])
  {
    if |s| > 0 && IsSpace(s[|s| - 1]) then TrailingSpaceStart(s[..|s| - 1]) else |s|
  }

  /** Python's `s.strip()`. */
  function Strip(s: string): (r: string)
    ensures Trimmed(r)
    ensures FramedBySpace(s, r)
    ensures r == "" <==> AllSpace(s)
  {
    var i := LeadingSpace(s);
    var t := s[i..];
    var j := TrailingSpaceStart(t);
    assert s[i..i + j] == t[..j];
    assert s[i + j..] == t[j..];
    t[..j]
  }

  /** The white-space prefix ends at the first non-space character. */
  lemma LeadingSpaceAt(s: string, i: nat)
    requires i < |s| && !IsSpace(s[i]) && AllSpace(s[..i])
    ensures LeadingSpace(s) == i
  {
  }

  /** The white-space suffix starts after the last non-space character. */
  lemma TrailingSpaceStartAt(s: string, j: nat)
    requires 0 < j <= |s| && !IsSpace(s[j - 1]) && AllSpace(s[j..])
    ensures TrailingSpaceStart(s) == j
  {
  }

  /** Stripping is determined by its two promises: a string with no white
      space at either end that sits inside `s` between white space only is
      exactly `Strip(s)`. */
  lemma StripUnique(s: string, r: string)
    requires Trimmed(r)
    requires FramedBySpace(s, r)
    ensures r == Strip(s)
  {
    var i :| 0 <= i <= |s| - |r| && s[i..i + |r|] == r
             && AllSpace(s[..i]) && AllSpace(s[i + |r|..]);
    StripUniqueAt(s, r, i);
  }

  lemma StripUniqueAt(s: string, r: string, i: nat)
    requires Trimmed(r)
    requires i + |r| <= |s| && s[i..i + |r|] == r
    requires AllSpace(s[..i]) && AllSpace(s[i + |r|..])
    ensures r == Strip(s)
  {
    if r == "" {
      AllSpaceAround(s, i);
    } else {
      assert s[i] == r[0];
      LeadingSpaceAt(s, i);
      var t := s[i..];
      assert t[|r| - 1] == r[|r| - 1];
      assert t[|r|..] == s[i + |r|..];
      TrailingSpaceStartAt(t, |r|);
    }
  }

  lemma AllSpaceAround(s: string, i: nat)
    requires i <= |s| && AllSpace(s[..i]) && AllSpace(s[i..])
    ensures AllSpace(s)
  {
    assert s == s[..i] + s[i..];
  }

  /** Python's `sep.join(pieces)` for a one-character separator. */
  function Join(pieces: seq<string>, sep: char): string {
    if |pieces| == 0 then ""
    else if |pieces| == 1 then pieces[0]
    else pieces[0] + [sep] + Join(pieces[1..], sep)
  }

  /** Number of occurrences of `c` in `s` (Python's `s.count(c)`). */
  function Occurrences(s: string, c: char): nat {
    if |s| == 0 then 0
    else (if s[0] == c then 1 else 0) + Occurrences(s[1..], c)
  }

  predicate NoneContains(pieces: seq<string>, sep: char) {
    forall k :: 0 <= k < |pieces| ==> sep !in pieces[k]
  }

  /** Python's `s.split(sep)` for a one-character separator: the maximal
      separator-free runs of `s`, in order, including empty ones. */
  function Split(s: string, sep: char): (pieces: seq<string>)
    ensures |pieces| == Occurrences(s, sep) + 1
    ensures NoneContains(pieces, sep)
    ensures Join(pieces, sep) == s
    decreases |s|
  {
    if |s| == 0 then [""]
    else
      var rest := Split(s[1..], sep);
      if s[0] == sep then
        [""] + rest
      else
        var pieces := [[s[0]] + rest[0]] + rest[1..];
        assert s == [s[0]] + s[1..];
        assert Join(pieces, sep) == s by {
          if |rest| > 1 {
            assert pieces[1..] == rest[1..];
            assert Join(rest, sep) == rest[0] + [sep] + Join(rest[1..], sep);
          }
        }
        pieces
  }

  /** A string without the separator splits into itself alone. */
  lemma {:induction false} SplitWithoutSeparator(s: string, sep: char)
    requires sep !in s
    ensures Split(s, sep) == [s]
  {
    var pieces := Split(s, sep);
    assert |pieces| == 1 by { NoSeparatorNoOccurrences(s, sep); }
  }

  lemma {:induction false} NoSeparatorNoOccurrences(s: string, c: char)
    requires c !in s
    ensures Occurrences(s, c) == 0
    decreases |s|
  {
    if |s| > 0 {
      NoSeparatorNoOccurrences(s[1..], c);
    }
  }

  /** A separator-free prefix followed by the separator becomes the first piece. */
  lemma {:induction false} SplitAfterPiece(p: string, sep: char, rest: string)
    requires sep !in p
    ensures Split(p + [sep] + rest, sep) == [p] + Split(rest, sep)
    decreases |p|
  {
    var s := p + [sep] + rest;
    if |p| == 0 {
      assert s == [sep] + rest;
      assert s[1..] == rest;
    } else {
      assert s[1..] == p[1..] + [sep] + rest;
      SplitAfterPiece(p[1..], sep, rest);
      assert s[0] == p[0];
      assert [p[0]] + p[1..] == p;
    }
  }

  /** The converse round trip: joining separator-free pieces and splitting
      again gives back exactly those pieces. */
  lemma {:induction false} SplitJoin(pieces: seq<string>, sep: char)
    requires |pieces| >= 1
    requires NoneContains(pieces, sep)
    ensures Split(Join(pieces, sep), sep) == pieces
    decreases |pieces|
  {
    if |pieces| == 1 {
      SplitWithoutSeparator(pieces[0], sep);
    } else {
      SplitJoin(pieces[1..], sep);
      SplitAfterPiece(pieces[0], sep, Join(pieces[1..], sep));
    }
  }

  lemma {:induction false} JoinAppend(a: seq<string>, b: seq<string>, sep: char)
    requires |a| >= 1 && |b| >= 1
    ensures Join(a + b, sep) == Join(a, sep) + [sep] + Join(b, sep)
    decreases |a|
  {
    if |a| == 1 {
      assert (a + b)[1..] == b;
    } else {
      assert (a + b)[1..] == a[1..] + b;
      JoinAppend(a[1..], b, sep);
    }
  }

  /** Splitting distributes over a separator: the pieces of `a + sep + b` are
      the pieces of `a` followed by the pieces of `b`. */
  lemma SplitAtSeparator(a: string, b: string, sep: char)
    ensures Split(a + [sep] + b, sep) == Split(a, sep) + Split(b, sep)
  {
    var pa, pb := Split(a, sep), Split(b, sep);
    JoinAppend(pa, pb, sep);
    SplitJoin(pa + pb, sep);
  }
}
