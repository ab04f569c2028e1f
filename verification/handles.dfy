/**
 The allow-list of sender handles. The configured text is split on commas,
 each piece is stripped of surrounding white space, and pieces left empty are
 dropped; the survivors keep their order and are compared later by exact,
 case-sensitive string equality.
 */
module Handles {
  import opened PyStr

  const Comma: char := ','

  /** What every entry of a parsed allow-list looks like. */
  predicate IsHandle(h: string) {
    h != "" && Comma !in h && Trimmed(h)
  }

  predicate OnlyCommasAndSpace(s: string) {
    forall k :: 0 <= k < |s| ==> s[k] == Comma || IsSpace(s[k])
  }

  /** The list comprehension's filter and map over the pieces: keep
      `piece.strip()` for every piece whose stripped form is non-empty. */
  function KeepStripped(pieces: seq<string>): seq<string>
  {
    if |pieces| == 0 then []
    else
      var h := Strip(pieces[0]);
      (if h != "" then [h] else []) + KeepStripped(pieces[1..])
  }

  /** The allow-list parsed from the configured text. */
  function Parse(text: string): seq<string>
  {
    KeepStripped(Split(text, Comma))
  }

  lemma {:induction false} KeepStrippedAppend(a: seq<string>, b: seq<string>)
    ensures KeepStripped(a + b) == KeepStripped(a) + KeepStripped(b)
    decreases |a|
  {
    if |a| == 0 {
      assert a + b == b;
    } else {
      assert (a + b)[0] == a[0];
      assert (a + b)[1..] == a[1..] + b;
      KeepStrippedAppend(a[1..], b);
    }
  }

  lemma {:induction false} KeepStrippedWellFormed(pieces: seq<string>)
    requires NoneContains(pieces, Comma)
    ensures forall k :: 0 <= k < |KeepStripped(pieces)| ==> IsHandle(KeepStripped(pieces)[k])
    decreases |pieces|
  {
    if |pieces| > 0 {
      var h := Strip(pieces[0]);
      assert Comma !in h by {
        var i :| 0 <= i <= |pieces[0]| - |h| && pieces[0][i..i + |h|] == h
                 && AllSpace(pieces[0][..i]) && AllSpace(pieces[0][i + |h|..]);
        forall k | 0 <= k < |h| ensures h[k] != Comma {
          assert h[k] == pieces[0][i + k];
        }
      }
      KeepStrippedWellFormed(pieces[1..]);
    }
  }

  /** Every parsed handle is non-empty, holds no comma and has no white space
      at either end. */
  lemma ParseWellFormed(text: string)
    ensures forall k :: 0 <= k < |Parse(text)| ==> IsHandle(Parse(text)[k])
  {
    KeepStrippedWellFormed(Split(text, Comma));
  }

  lemma {:induction false} KeepStrippedMembers(pieces: seq<string>, h: string)
    ensures h in KeepStripped(pieces) <==>
              h != "" && exists k :: 0 <= k < |pieces| && Strip(pieces[k]) == h
    decreases |pieces|
  {
    if |pieces| > 0 {
      KeepStrippedMembers(pieces[1..], h);
      if h != "" && Strip(pieces[0]) != h {
        if exists k :: 0 <= k < |pieces| && Strip(pieces[k]) == h {
          var k :| 0 <= k < |pieces| && Strip(pieces[k]) == h;
          assert Strip(pieces[1..][k - 1]) == h;
        }
      }
    }
  }

  /** A handle is on the list exactly when it is the non-empty stripped form
      of one of the comma-separated pieces. */
  lemma ParseMembers(text: string, h: string)
    ensures h in Parse(text) ==>
              h != "" && exists k :: 0 <= k < |Split(text, Comma)| && Strip(Split(text, Comma)[k]) == h
    ensures (h != "" && exists k :: 0 <= k < |Split(text, Comma)| && Strip(Split(text, Comma)[k]) == h) ==>
              h in Parse(text)
  {
    var pieces := Split(text, Comma);
    KeepStrippedMembers(pieces, h);
  }

  /** A comma-free text yields its stripped self, or nothing when that is
      empty. */
  lemma ParseSinglePiece(text: string)
    requires Comma !in text
    ensures Parse(text) == (if Strip(text) == "" then [] else [Strip(text)])
  {
    SplitWithoutSeparator(text, Comma);
    assert [text][1..] == [];
    assert KeepStripped([text]) == (if Strip(text) != "" then [Strip(text)] else []) + KeepStripped([]);
  }

  /** Parsing respects the commas: the list parsed from `a,b` is the list
      parsed from `a` followed by the list parsed from `b`, so entries keep
      the order in which they appear. */
  lemma ParseAtComma(a: string, b: string)
    ensures Parse(a + [Comma] + b) == Parse(a) + Parse(b)
  {
    SplitAtSeparator(a, b, Comma);
    KeepStrippedAppend(Split(a, Comma), Split(b, Comma));
  }

  predicate AllPiecesBlank(pieces: seq<string>) {
    forall k :: 0 <= k < |pieces| ==> AllSpace(pieces[k])
  }

  lemma {:induction false} KeepStrippedEmpty(pieces: seq<string>)
    ensures KeepStripped(pieces) == [] ==> AllPiecesBlank(pieces)
    ensures AllPiecesBlank(pieces) ==> KeepStripped(pieces) == []
    decreases |pieces|
  {
    if |pieces| > 0 {
      KeepStrippedEmpty(pieces[1..]);
      assert AllPiecesBlank(pieces) ==> AllPiecesBlank(pieces[1..]) by {
        if AllPiecesBlank(pieces) {
          forall k | 0 <= k < |pieces[1..]| ensures AllSpace(pieces[1..][k]) {
            assert pieces[1..][k] == pieces[k + 1];
          }
        }
      }
      assert AllSpace(pieces[0]) && AllPiecesBlank(pieces[1..]) ==> AllPiecesBlank(pieces) by {
        if AllSpace(pieces[0]) && AllPiecesBlank(pieces[1..]) {
          forall k | 0 <= k < |pieces| ensures AllSpace(pieces[k]) {
            if k > 0 { assert pieces[k] == pieces[1..][k - 1]; }
          }
        }
      }
    }
  }

  lemma OnlyCommasAndSpaceAround(a: string, b: string)
    ensures OnlyCommasAndSpace(a + [Comma] + b) ==> OnlyCommasAndSpace(a) && OnlyCommasAndSpace(b)
    ensures OnlyCommasAndSpace(a) && OnlyCommasAndSpace(b) ==> OnlyCommasAndSpace(a + [Comma] + b)
  {
    var s := a + [Comma] + b;
    if OnlyCommasAndSpace(s) {
      forall k | 0 <= k < |a| ensures a[k] == Comma || IsSpace(a[k]) { assert s[k] == a[k]; }
      forall k | 0 <= k < |b| ensures b[k] == Comma || IsSpace(b[k]) { assert s[|a| + 1 + k] == b[k]; }
    }
    if OnlyCommasAndSpace(a) && OnlyCommasAndSpace(b) {
      forall k | 0 <= k < |s| ensures s[k] == Comma || IsSpace(s[k]) {
        if k < |a| { assert s[k] == a[k]; }
        else if k > |a| { assert s[k] == b[k - |a| - 1]; }
      }
    }
  }

  /** Joined comma-free pieces hold only commas and white space exactly when
      every piece is blank. */
  lemma {:induction false} JoinedBlank(pieces: seq<string>)
    requires NoneContains(pieces, Comma)
    ensures OnlyCommasAndSpace(Join(pieces, Comma)) ==> AllPiecesBlank(pieces)
    ensures AllPiecesBlank(pieces) ==> OnlyCommasAndSpace(Join(pieces, Comma))
    decreases |pieces|
  {
    if |pieces| == 1 {
      assert forall k :: 0 <= k < |pieces[0]| ==> pieces[0][k] != Comma;
    } else if |pieces| > 1 {
      JoinedBlank(pieces[1..]);
      OnlyCommasAndSpaceAround(pieces[0], Join(pieces[1..], Comma));
      assert forall k :: 0 <= k < |pieces[0]| ==> pieces[0][k] != Comma;
      assert AllPiecesBlank(pieces) <==> AllSpace(pieces[0]) && AllPiecesBlank(pieces[1..]) by {
        if AllSpace(pieces[0]) && AllPiecesBlank(pieces[1..]) {
          forall k | 0 <= k < |pieces| ensures AllSpace(pieces[k]) {
            if k > 0 { assert pieces[k] == pieces[1..][k - 1]; }
          }
        }
      }
    }
  }

  /** The list is empty exactly when the text holds nothing but commas and
      white space; in particular the unset default `""` gives no handles. */
  lemma ParseEmptyIff(text: string)
    ensures Parse(text) == [] ==> OnlyCommasAndSpace(text)
    ensures OnlyCommasAndSpace(text) ==> Parse(text) == []
  {
    var pieces := Split(text, Comma);
    KeepStrippedEmpty(pieces);
    JoinedBlank(pieces);
  }

  /** A comma-free piece made of a handle padded with white space parses to
      that handle alone. */
  lemma ParsePadded(pre: string, h: string, post: string)
    requires AllSpace(pre) && AllSpace(post) && IsHandle(h)
    ensures Parse(pre + h + post) == [h]
  {
    var s := pre + h + post;
    assert s[|pre|..|pre| + |h|] == h && s[..|pre|] == pre && s[|pre| + |h|..] == post;
    StripUnique(s, h);
    assert Comma !in s by {
      forall k | 0 <= k < |s| ensures s[k] != Comma {
        if k < |pre| { assert s[k] == pre[k]; }
        else if k < |pre| + |h| { assert s[k] == h[k - |pre|]; }
        else { assert s[k] == post[k - |pre| - |h|]; }
      }
    }
    ParseSinglePiece(s);
  }

  lemma StripTrimmed(h: string)
    requires Trimmed(h)
    ensures Strip(h) == h
  {
    assert h[0..0 + |h|] == h && h[..0] == [] && h[0 + |h|..] == [];
    StripUnique(h, h);
  }

  lemma {:induction false} KeepStrippedHandles(hs: seq<string>)
    requires forall k :: 0 <= k < |hs| ==> IsHandle(hs[k])
    ensures KeepStripped(hs) == hs
    decreases |hs|
  {
    if |hs| > 0 {
      StripTrimmed(hs[0]);
      KeepStrippedHandles(hs[1..]);
      assert hs == [hs[0]] + hs[1..];
    }
  }

  /** Writing a list of well-formed handles out comma-separated and parsing
      it again gives back the same list, in the same order. */
  lemma ParseJoin(hs: seq<string>)
    requires forall k :: 0 <= k < |hs| ==> IsHandle(hs[k])
    ensures Parse(Join(hs, Comma)) == hs
  {
    if |hs| == 0 {
      ParseEmptyIff("");
    } else {
      SplitJoin(hs, Comma);
      KeepStrippedHandles(hs);
    }
  }

  /** Parsing is a normal form: re-parsing the comma-joined result of a parse
      reproduces it. */
  lemma ParseIdempotent(text: string)
    ensures Parse(Join(Parse(text), Comma)) == Parse(text)
  {
    ParseWellFormed(text);
    ParseJoin(Parse(text));
  }
}
