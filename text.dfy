/** The string operations the source relies on: `String.prototype.split` with a
    non-empty separator, `.pop()` of its result, and `String.prototype.trim`. */
module Text {
  import opened Wrappers

  /** `pat` occurs in `s` starting at index `i`. */
  predicate OccursAt(s: string, pat: string, i: nat)
  {
    i + |pat| <= |s| && s[i..i + |pat|] == pat
  }

  predicate Contains(s: string, pat: string)
  {
    exists i: nat | i <= |s| :: OccursAt(s, pat, i)
  }

  /** The first occurrence of `pat` in `s` at or after `from` (`indexOf`). */
  function FindFrom(s: string, pat: string, from: nat): (r: Option<nat>)
    requires from <= |s|
    ensures r.Some? ==> from <= r.value && r.value + |pat| <= |s|
    decreases |s| - from
  {
    if OccursAt(s, pat, from) then Some(from)
    else if from == |s| then None
    else FindFrom(s, pat, from + 1)
  }

  /** The search finds an occurrence, and none before it; or there is none
      from `from` on. */
  lemma {:induction false} FindFromFacts(s: string, pat: string, from: nat)
    requires from <= |s|
    ensures var r := FindFrom(s, pat, from);
      && (r.Some? ==> OccursAt(s, pat, r.value))
      && (r.Some? ==> forall k: nat :: from <= k < r.value ==> !OccursAt(s, pat, k))
      && (r.None? ==> forall k: nat :: from <= k ==> !OccursAt(s, pat, k))
    decreases |s| - from
  {
    if !OccursAt(s, pat, from) && from < |s| {
      FindFromFacts(s, pat, from + 1);
    }
  }

  function Find(s: string, pat: string): (r: Option<nat>)
    ensures r.None? <==> !Contains(s, pat)
    ensures r.Some? ==> OccursAt(s, pat, r.value)
    ensures r.Some? ==> forall k: nat :: k < r.value ==> !OccursAt(s, pat, k)
  {
    FindFromFacts(s, pat, 0);
    FindFrom(s, pat, 0)
  }

  /** The text before an occurrence contains no earlier occurrence. */
  lemma PrefixFree(s: string, pat: string, i: nat)
    requires pat != [] && i <= |s|
    requires forall k: nat :: k < i ==> !OccursAt(s, pat, k)
    ensures !Contains(s[..i], pat)
  {
    forall k: nat | OccursAt(s[..i], pat, k) ensures false {
      assert s[..i][k..k + |pat|] == s[k..k + |pat|];
      assert OccursAt(s, pat, k);
    }
  }

  /** `text.split(sep)` for a non-empty separator: the pieces between successive
      occurrences of `sep`, from left to right. */
  function Split(s: string, sep: string): (parts: seq<string>)
    requires sep != []
    ensures |parts| >= 1
    decreases |s|
  {
    match Find(s, sep)
    case None => [s]
    case Some(i) => [s[..i]] + Split(s[i + |sep|..], sep)
  }

  /** No piece of a split contains the separator. */
  lemma {:induction false} PiecesAreFree(s: string, sep: string)
    requires sep != []
    ensures forall k :: 0 <= k < |Split(s, sep)| ==> !Contains(Split(s, sep)[k], sep)
    decreases |s|
  {
    var f := Find(s, sep);
    if f.Some? {
      var i := f.value;
      var rest := s[i + |sep|..];
      PrefixFree(s, sep, i);
      PiecesAreFree(rest, sep);
      assert Split(s, sep) == [s[..i]] + Split(rest, sep);
    }
  }

  /** A text without the separator is its own only piece. */
  lemma NoSepOnePiece(s: string, sep: string)
    requires sep != [] && Find(s, sep).None?
    ensures Split(s, sep) == [s]
  {
  }

  /** Past the first separator, the pieces are those of the rest of the text. */
  lemma SplitTail(s: string, sep: string)
    requires sep != [] && Find(s, sep).Some?
    ensures var i := Find(s, sep).value + |sep|;
      i <= |s| && Split(s, sep)[1..] == Split(s[i..], sep)
  {
  }

  /** An occurrence in a suffix is an occurrence in the whole text. */
  lemma OccursShift(s: string, pat: string, i: nat, k: nat)
    requires i <= |s|
    ensures OccursAt(s[i..], pat, k) <==> OccursAt(s, pat, i + k)
  {
    if i + k + |pat| <= |s| {
      assert s[i..][k..k + |pat|] == s[i + k..i + k + |pat|];
    }
  }

  /** The text from index `i` up to the next occurrence of `sep` or the end. */
  function PieceAfter(s: string, sep: string, i: nat): (p: string)
    requires sep != [] && i <= |s|
    ensures i + |p| <= |s| && s[i..i + |p|] == p
    ensures i + |p| == |s| || OccursAt(s, sep, i + |p|)
    ensures !Contains(p, sep)
    ensures p == "" <==> i == |s| || OccursAt(s, sep, i)
  {
    var rest := s[i..];
    OccursShift(s, sep, i, 0);
    match Find(rest, sep)
    case None => assert rest[..|rest|] == rest; rest
    case Some(j) =>
      PrefixFree(rest, sep, j);
      OccursShift(s, sep, i, j);
      assert s[i..i + j] == rest[..j];
      rest[..j]
  }

  /** That piece is the first piece of splitting the rest of the text. */
  lemma PieceAfterSplit(s: string, sep: string, i: nat)
    requires sep != [] && i <= |s|
    ensures PieceAfter(s, sep, i) == Split(s[i..], sep)[0]
  {
  }

  /** So the second piece of a split is the piece after the first separator. */
  lemma SecondPiece(s: string, sep: string)
    requires sep != [] && Find(s, sep).Some?
    ensures |Split(s, sep)| >= 2
    ensures Split(s, sep)[1] == PieceAfter(s, sep, Find(s, sep).value + |sep|)
  {
    var i := Find(s, sep).value + |sep|;
    SplitTail(s, sep);
    PieceAfterSplit(s, sep, i);
  }

  /** `parts.join(sep)`. */
  function Join(parts: seq<string>, sep: string): string
  {
    if |parts| == 0 then ""
    else if |parts| == 1 then parts[0]
    else parts[0] + sep + Join(parts[1..], sep)
  }

  /** Splitting loses nothing: joining the pieces gives the text back. */
  lemma {:induction false} JoinSplit(s: string, sep: string)
    requires sep != []
    ensures Join(Split(s, sep), sep) == s
    decreases |s|
  {
    var f := Find(s, sep);
    if f.Some? {
      var i := f.value;
      var rest := s[i + |sep|..];
      JoinSplit(rest, sep);
      SplitTail(s, sep);
      var parts := Split(s, sep);
      assert parts[0] == s[..i];
      assert Join(parts, sep) == s[..i] + sep + rest;
      Around(s, sep, i);
    }
  }

  /** The text is what precedes an occurrence, the occurrence, and what follows. */
  lemma Around(s: string, sep: string, i: nat)
    requires OccursAt(s, sep, i)
    ensures s == s[..i] + sep + s[i + |sep|..]
  {
    assert s == s[..i] + s[i..i + |sep|] + s[i + |sep|..];
  }

  /** `text.split(sep).pop()`: the last piece. */
  function LastPiece(s: string, sep: string): string
    requires sep != []
  {
    var parts := Split(s, sep);
    parts[|parts| - 1]
  }

  /** Past the first occurrence, the last piece is that of the rest. */
  lemma LastPieceOfRest(s: string, sep: string)
    requires sep != [] && Find(s, sep).Some?
    ensures LastPiece(s, sep) == LastPiece(s[Find(s, sep).value + |sep|..], sep)
  {
    var rest := s[Find(s, sep).value + |sep|..];
    SplitTail(s, sep);
    var parts, tail := Split(s, sep), Split(rest, sep);
    assert parts[1..] == tail;
    assert parts[|parts| - 1] == tail[|tail| - 1];
  }

  /** The last piece is a suffix of the text. */
  lemma {:induction false} LastPieceIsSuffix(s: string, sep: string)
    requires sep != []
    ensures |LastPiece(s, sep)| <= |s|
    ensures s[|s| - |LastPiece(s, sep)|..] == LastPiece(s, sep)
    decreases |s|
  {
    var f := Find(s, sep);
    if f.Some? {
      var rest := s[f.value + |sep|..];
      LastPieceOfRest(s, sep);
      LastPieceIsSuffix(rest, sep);
      var t := LastPiece(s, sep);
      assert s[|s| - |t|..] == rest[|rest| - |t|..];
    } else {
      NoSepOnePiece(s, sep);
    }
  }

  /** Joining two or more pieces ends with the separator and the last piece. */
  lemma {:induction false} JoinLast(parts: seq<string>, sep: string)
    requires |parts| >= 2
    ensures Join(parts, sep) == Join(parts[..|parts| - 1], sep) + sep + parts[|parts| - 1]
    decreases |parts|
  {
    if |parts| > 2 {
      var n := |parts|;
      JoinLast(parts[1..], sep);
      assert parts[1..][..n - 2] == parts[..n - 1][1..];
      assert parts[1..][n - 2] == parts[n - 1];
    }
  }

  /** When `sep` occurs, an occurrence of it ends where the last piece starts. */
  lemma LastPieceAfterSep(s: string, sep: string)
    requires sep != [] && Find(s, sep).Some?
    ensures var t := LastPiece(s, sep);
      |t| + |sep| <= |s| && s[|s| - |t| - |sep|..|s| - |t|] == sep
  {
    var parts := Split(s, sep);
    SecondPiece(s, sep);
    JoinSplit(s, sep);
    JoinLast(parts, sep);
    var head, t := Join(parts[..|parts| - 1], sep), parts[|parts| - 1];
    assert s == head + sep + t;
    assert s[|s| - |t| - |sep|..|s| - |t|] == (head + sep + t)[|head|..|head| + |sep|];
  }

  /** The last piece is the suffix after the last `sep`: it holds no `sep` and
      follows an occurrence of it, and it is the whole text when `sep` does not
      occur. */
  lemma LastPieceIsTail(s: string, sep: string)
    requires sep != []
    ensures var t := LastPiece(s, sep);
      && !Contains(t, sep)
      && |t| <= |s| && s[|s| - |t|..] == t
      && (Contains(s, sep) ==> |t| + |sep| <= |s| && s[|s| - |t| - |sep|..|s| - |t|] == sep)
      && (!Contains(s, sep) ==> t == s)
  {
    LastPieceIsSuffix(s, sep);
    PiecesAreFree(s, sep);
    if Find(s, sep).Some? {
      LastPieceAfterSep(s, sep);
    } else {
      NoSepOnePiece(s, sep);
    }
  }

  /** ECMAScript white space and line terminators: the characters `trim` removes. */
  predicate IsJsSpace(c: char)
  {
    || c == '\t' || c == '\n' || c == '\U{000B}' || c == '\U{000C}' || c == '\r'
    || c == ' ' || c == '\U{00A0}' || c == '\U{1680}'
    || ('\U{2000}' <= c <= '\U{200A}')
    || c == '\U{2028}' || c == '\U{2029}' || c == '\U{202F}' || c == '\U{205F}'
    || c == '\U{3000}' || c == '\U{FEFF}'
  }

  /** Every character is white space (the empty text included). */
  predicate IsBlank(s: string)
  {
    forall i :: 0 <= i < |s| ==> IsJsSpace(s[i])
  }

  function TrimStart(s: string): (r: string)
    ensures |r| <= |s| && r == s[|s| - |r|..]
    ensures IsBlank(s[..|s| - |r|])
    ensures r == [] || !IsJsSpace(r[0])
  {
    if s != [] && IsJsSpace(s[0]) then
      var r := TrimStart(s[1..]);
      assert s[..|s| - |r|] == [s[0]] + s[1..][..|s[1..]| - |r|];
      r
    else s
  }

  function TrimEnd(s: string): (r: string)
    ensures |r| <= |s| && r == s[..|r|]
    ensures IsBlank(s[|r|..])
    ensures r == [] || !IsJsSpace(r[|r| - 1])
  {
    if s != [] && IsJsSpace(s[|s| - 1]) then
      var r := TrimEnd(s[..|s| - 1]);
      assert s[|r|..] == s[..|s| - 1][|r|..] + [s[|s| - 1]];
      r
    else s
  }

  /** `text.trim()`: the text without its leading and trailing white space;
      it neither starts nor ends with white space (TrimIsSlice places it in `s`). */
  function Trim(s: string): (r: string)
    ensures |r| <= |s|
    ensures r == [] || (!IsJsSpace(r[0]) && !IsJsSpace(r[|r| - 1]))
  {
    var t := TrimStart(s);
    var r := TrimEnd(t);
    assert r != [] ==> r[0] == t[0];
    r
  }

  /** The trimmed text is the slice of `s` between a blank prefix and a
      blank suffix. */
  lemma {:induction false} TrimIsSlice(s: string)
    ensures var r := Trim(s); var k := |s| - |TrimStart(s)|;
      && k + |r| <= |s| && r == s[k..k + |r|]
      && IsBlank(s[..k]) && IsBlank(s[k + |r|..])
  {
    var t := TrimStart(s);
    var r := TrimEnd(t);
    assert Trim(s) == r;
    BlankSlice(s, t, r);
  }

  /** A prefix `r` of a suffix `t` of `s` is the slice of `s` it came from,
      and blank parts around it stay blank. */
  lemma BlankSlice(s: string, t: string, r: string)
    requires |t| <= |s| && t == s[|s| - |t|..] && IsBlank(s[..|s| - |t|])
    requires |r| <= |t| && r == t[..|r|] && IsBlank(t[|r|..])
    ensures var k := |s| - |t|;
      && k + |r| <= |s| && r == s[k..k + |r|]
      && IsBlank(s[..k]) && IsBlank(s[k + |r|..])
  {
    var k := |s| - |t|;
    assert s[k + |r|..] == t[|r|..];
    assert forall i :: 0 <= i < |r| ==> r[i] == t[i] == s[k + i];
  }

  /** `!text.trim()` holds exactly for blank text. */
  lemma TrimEmptyIffBlank(s: string)
    ensures Trim(s) == [] <==> IsBlank(s)
  {
    var t := TrimStart(s);
    if Trim(s) == [] {
      assert t[0..] == t;
      assert s == s[..|s| - |t|] + t;
    }
  }
}
