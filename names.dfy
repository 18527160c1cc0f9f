/** Names as the checkers build and compare them: scope segments joined by
    "::", Python's `str.strip()`, prefix and suffix tests, and the last
    segment of `str.split("::")`. */
module Names {
  import opened Wrappers

  const Sep: string := "::"

  /** `'::'.join(parts)`. */
  function Join(parts: seq<string>): string
  {
    if |parts| == 0 then ""
    else if |parts| == 1 then parts[0]
    else Join(parts[..|parts| - 1]) + Sep + parts[|parts| - 1]
  }

  /** Appending a segment to a non-empty path puts exactly one separator
      between the joined path and the new segment. */
  lemma JoinSnoc(parts: seq<string>, s: string)
    requires |parts| > 0
    ensures Join(parts + [s]) == Join(parts) + Sep + s
  {
    assert (parts + [s])[..|parts|] == parts;
  }

  /** Joining two non-empty paths one after the other is joining each and
      putting one separator between them. */
  lemma {:induction false} JoinAppend(a: seq<string>, b: seq<string>)
    requires |a| > 0 && |b| > 0
    ensures Join(a + b) == Join(a) + Sep + Join(b)
    decreases |b|
  {
    if |b| == 1 {
      assert a + b == a + [b[0]];
      JoinSnoc(a, b[0]);
    } else {
      var init := b[..|b| - 1];
      JoinAppend(a, init);
      assert (a + b)[..|a + b| - 1] == a + init;
      assert (a + b)[|a + b| - 1] == b[|b| - 1];
    }
  }

  predicate StartsWith(s: string, prefix: string) {
    |prefix| <= |s| && s[..|prefix|] == prefix
  }

  predicate EndsWith(s: string, suffix: string) {
    |suffix| <= |s| && s[|s| - |suffix|..] == suffix
  }

  /** The characters Python's `str.strip()` removes when given no argument. */
  predicate IsSpace(c: char) {
    c == ' ' || ('\t' <= c <= '\r') || ('\U{1C}' <= c <= '\U{1F}')
    || c == '\U{85}' || c == '\U{A0}' || c == '\U{1680}'
    || ('\U{2000}' <= c <= '\U{200A}') || c == '\U{2028}' || c == '\U{2029}'
    || c == '\U{202F}' || c == '\U{205F}' || c == '\U{3000}'
  }

  /** `s.lstrip()`: what is left is a suffix of `s` that does not start with
      whitespace, and everything removed was whitespace. */
  function TrimStart(s: string): (r: string)
    ensures |r| <= |s| && r == s[|s| - |r|..]
    ensures r == [] || !IsSpace(r[0])
    ensures forall k :: 0 <= k < |s| - |r| ==> IsSpace(s[k])
  {
    if s != [] && IsSpace(s[0]) then
      var r := TrimStart(s[1..]);
      assert s[1..][|s| - 1 - |r|..] == s[|s| - |r|..];
      assert forall k :: 1 <= k < |s| - |r| ==> s[k] == s[1..][k - 1];
      r
    else s
  }

  /** `s.rstrip()`: what is left is a prefix of `s` that does not end with
      whitespace, and everything removed was whitespace. */
  function TrimEnd(s: string): (r: string)
    ensures |r| <= |s| && r == s[..|r|]
    ensures r == [] || !IsSpace(r[|r| - 1])
    ensures forall k :: |r| <= k < |s| ==> IsSpace(s[k])
  {
    if s != [] && IsSpace(s[|s| - 1]) then TrimEnd(s[..|s| - 1]) else s
  }

  /** `r` is `s` with `i` characters of whitespace cut from the front and
      only whitespace cut from the back. */
  predicate TrimmedAt(s: string, r: string, i: nat) {
    && i + |r| <= |s| && r == s[i..i + |r|]
    && (forall k :: 0 <= k < i ==> IsSpace(s[k]))
    && (forall k :: i + |r| <= k < |s| ==> IsSpace(s[k]))
  }

  /** `s.strip()`: a contiguous part of `s`, neither starting nor ending
      with whitespace, with only whitespace cut off around it. */
  function Strip(s: string): (r: string)
    ensures exists i :: TrimmedAt(s, r, i)
    ensures r == [] || (!IsSpace(r[0]) && !IsSpace(r[|r| - 1]))
  {
    var t := TrimStart(s);
    var r := TrimEnd(t);
    var i := |s| - |t|;
    assert r == s[i..i + |r|];
    assert TrimmedAt(s, r, i);
    r
  }

  /** A name with no whitespace at either end is unchanged by `strip()`. */
  lemma StripUnchanged(s: string)
    requires s == [] || (!IsSpace(s[0]) && !IsSpace(s[|s| - 1]))
    ensures Strip(s) == s
  {
    var r := Strip(s);
    var i: nat :| TrimmedAt(s, r, i);
    if s != [] {
      assert !IsSpace(s[0]) && !IsSpace(s[|s| - 1]);
      assert i == 0;
      assert i + |r| == |s|;
    }
  }

  predicate SepAt(s: string, j: int) {
    0 <= j && j + 2 <= |s| && s[j..j + 2] == Sep
  }

  /** The first position, at or after `from`, where "::" occurs in `s`
      (`str.find`). */
  function FindSep(s: string, from: nat): (r: Option<nat>)
    requires from <= |s|
    ensures r.Some? ==> from <= r.value && SepAt(s, r.value)
    ensures r.Some? ==> forall j :: from <= j < r.value ==> !SepAt(s, j)
    ensures r.None? ==> forall j :: from <= j ==> !SepAt(s, j)
    decreases |s| - from
  {
    if from + 2 > |s| then None
    else if s[from..from + 2] == Sep then Some(from)
    else FindSep(s, from + 1)
  }

  predicate ContainsSep(s: string) {
    FindSep(s, 0).Some?
  }

  /** No "::" starts anywhere in `s`. */
  lemma NoSepAnywhere(s: string)
    requires !ContainsSep(s)
    ensures forall j :: !SepAt(s, j)
  {
    assert FindSep(s, 0).None?;
  }

  /** Pieces as `split("::")` may return them: none holds "::", and none but
      the last ends with ':' (else the scan would have stopped one
      character earlier). */
  predicate SplitPieces(pieces: seq<string>) {
    && |pieces| > 0
    && (forall k :: 0 <= k < |pieces| ==> !ContainsSep(pieces[k]))
    && (forall k :: 0 <= k < |pieces| - 1 ==> pieces[k] == [] || pieces[k][|pieces[k]| - 1] != ':')
  }

  /** A piece that may come before another one. */
  predicate InnerPiece(piece: string) {
    !ContainsSep(piece) && (piece == [] || piece[|piece| - 1] != ':')
  }

  /** Split pieces are an inner piece followed by split pieces, or a single
      piece without "::". */
  lemma SplitPiecesCons(head: string, tail: seq<string>)
    ensures SplitPieces([head] + tail) <==>
      (if tail == [] then !ContainsSep(head) else InnerPiece(head) && SplitPieces(tail))
  {
    var pieces := [head] + tail;
    assert pieces[0] == head;
    assert forall k :: 0 <= k < |tail| ==> pieces[k + 1] == tail[k];
    if tail != [] && InnerPiece(head) && SplitPieces(tail) {
      forall k | 0 <= k < |pieces|
        ensures !ContainsSep(pieces[k])
      {
        if k > 0 { assert pieces[k] == tail[k - 1]; }
      }
      forall k | 0 <= k < |pieces| - 1
        ensures pieces[k] == [] || pieces[k][|pieces[k]| - 1] != ':'
      {
        if k > 0 { assert pieces[k] == tail[k - 1]; }
      }
    }
  }

  /** The text before the first "::" is an inner piece. */
  lemma FirstPiece(s: string, i: nat)
    requires FindSep(s, 0) == Some(i)
    ensures InnerPiece(s[..i])
  {
    var head := s[..i];
    forall j | 0 <= j && j + 2 <= |head|
      ensures !SepAt(head, j)
    {
      assert head[j..j + 2] == s[j..j + 2];
      assert j < i;
      assert !SepAt(s, j);
    }
    assert FindSep(head, 0).None?;
    if i > 0 && s[i - 1] == ':' {
      assert s[i..i + 2] == Sep;
      assert s[i] == ':';
      assert s[i - 1..i + 1] == [s[i - 1], s[i]];
      assert SepAt(s, i - 1);
    }
  }

  /** When `s` is an inner piece, "::", and more, the first "::" of the
      whole is the one right after that piece. */
  lemma FirstSepAfterPiece(head: string, rest: string)
    requires InnerPiece(head)
    ensures FindSep(head + Sep + rest, 0) == Some(|head|)
  {
    var s := head + Sep + rest;
    var n := |head|;
    NoSepAnywhere(head);
    assert s[n..n + 2] == Sep;
    assert SepAt(s, n);
    forall j | 0 <= j < n
      ensures !SepAt(s, j)
    {
      if j + 2 <= n {
        assert s[j..j + 2] == head[j..j + 2];
        assert !SepAt(head, j);
      } else {
        assert head[n - 1] != ':';
        assert s[j..j + 2][0] == s[j] == head[n - 1];
        assert Sep[0] == ':';
      }
    }
  }

  /** `s.split("::")`: the separators are found left to right without
      overlap, and the pieces between them are returned. Joining the pieces
      gives `s` back. */
  function SplitAll(s: string): (r: seq<string>)
    ensures SplitPieces(r)
    ensures Join(r) == s
    decreases |s|
  {
    match FindSep(s, 0)
    case None => [s]
    case Some(i) =>
      var head, rest := s[..i], s[i + 2..];
      FirstPiece(s, i);
      var tail := SplitAll(rest);
      JoinAppend([head], tail);
      SplitPiecesCons(head, tail);
      assert s == head + Sep + rest;
      [head] + tail
  }

  /** The pieces are determined by `s`: any split pieces joining to `s` are
      exactly what `split("::")` returns. */
  lemma {:induction false} SplitUnique(pieces: seq<string>, s: string)
    requires SplitPieces(pieces) && Join(pieces) == s
    ensures SplitAll(s) == pieces
    decreases |pieces|
  {
    var head, tail := pieces[0], pieces[1..];
    assert pieces == [head] + tail;
    SplitPiecesCons(head, tail);
    if tail == [] {
      NoSepAnywhere(head);
      assert FindSep(s, 0).None?;
    } else {
      JoinAppend([head], tail);
      assert s == head + Sep + Join(tail);
      FirstSepAfterPiece(head, Join(tail));
      assert s[..|head|] == head;
      assert s[|head| + 2..] == Join(tail);
      SplitUnique(tail, Join(tail));
    }
  }

  /** `s.split("::")[-1]`: it holds no "::" and is either `s` itself or a
      suffix of `s` that follows a "::". */
  function LastSegment(s: string): (r: string)
    ensures !ContainsSep(r)
    ensures r == s || EndsWith(s, Sep + r)
    decreases |s|
  {
    match FindSep(s, 0)
    case None => s
    case Some(i) =>
      var rest := s[i + 2..];
      var r := LastSegment(rest);
      assert r == rest || EndsWith(rest, Sep + r);
      assert rest == s[|s| - |rest|..];
      if r == rest then
        assert s[|s| - |Sep + r|..] == Sep + r;
        r
      else
        assert s[|s| - |Sep + r|..] == rest[|rest| - |Sep + r|..];
        r
  }

  /** The last segment is the last piece of the whole split. */
  lemma {:induction false} LastSegmentIsLastPiece(s: string)
    ensures LastSegment(s) == SplitAll(s)[|SplitAll(s)| - 1]
    decreases |s|
  {
    match FindSep(s, 0)
    case None =>
    case Some(i) =>
      var rest := s[i + 2..];
      LastSegmentIsLastPiece(rest);
      assert SplitAll(s) == [s[..i]] + SplitAll(rest);
  }

  /** A run of four colons splits into two separators with an empty piece
      between them, so the last segment of "a::::b" is "b". */
  lemma LastSegmentOfColonRun()
    ensures SplitAll("a::::b") == ["a", "", "b"]
    ensures LastSegment("a::::b") == "b"
  {
    var pieces := ["a", "", "b"];
    assert pieces[..2] == ["a", ""] && pieces[..2][..1] == ["a"];
    assert Join(pieces) == "a::::b";
    forall k | 0 <= k < |pieces|
      ensures !ContainsSep(pieces[k])
    {
      assert FindSep(pieces[k], 0).None?;
    }
    SplitUnique(pieces, "a::::b");
    LastSegmentIsLastPiece("a::::b");
  }

  /** A name without "::" is its own last segment. */
  lemma LastSegmentOfSimpleName(s: string)
    requires !ContainsSep(s)
    ensures LastSegment(s) == s
  {
  }

  /** A string that ends with "::" followed by anything contains "::". */
  lemma SeparatedSuffix(s: string, b: string)
    ensures EndsWith(s, Sep + b) ==> ContainsSep(s)
  {
    if EndsWith(s, Sep + b) {
      var j := |s| - |b| - 2;
      assert s[j..j + 2] == (Sep + b)[..2];
      assert SepAt(s, j);
    }
  }

  /** `q + "::" + s` ends with "::" followed by `s`. */
  lemma QualifiedEndsWith(q: string, s: string)
    ensures EndsWith(q + Sep + s, Sep + s)
  {
    var t := q + Sep + s;
    assert t[|t| - |Sep + s|..] == Sep + s;
  }
}
