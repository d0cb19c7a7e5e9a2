/**
 * The string primitives the dossier parser relies on, as JavaScript defines them:
 * `String.prototype.split` with a literal separator and `String.prototype.trim`.
 */
module Text {
  import opened Optional

  /** The separator the dossier response is split on. */
  const Delimiter: string := "---"

  /** The characters `trim` removes: ECMAScript WhiteSpace and LineTerminator. */
  predicate IsWhitespace(c: char) {
    var n := c as int;
    || n == 0x09 || n == 0x0A || n == 0x0B || n == 0x0C || n == 0x0D
    || n == 0x20 || n == 0xA0 || n == 0x1680 || 0x2000 <= n <= 0x200A
    || n == 0x2028 || n == 0x2029 || n == 0x202F || n == 0x205F
    || n == 0x3000 || n == 0xFEFF
  }

  /** Every character of `s` is whitespace. */
  predicate Blank(s: string) {
    forall i :: 0 <= i < |s| ==> IsWhitespace(s[i])
  }

  /** `s` neither starts nor ends with whitespace. */
  predicate Bare(s: string) {
    s == [] || (!IsWhitespace(s[0]) && !IsWhitespace(s[|s| - 1]))
  }

  /** `r` occurs in `s` at offset `a`, with only whitespace before and after it. */
  predicate SurroundedBy(s: string, r: string, a: nat) {
    && a + |r| <= |s|
    && s[a..a + |r|] == r
    && Blank(s[..a])
    && Blank(s[a + |r|..])
  }

  /** `sub` occurs in `s` starting at index `i`. */
  predicate IsAt(s: string, sub: string, i: nat) {
    i + |sub| <= |s| && s[i..i + |sub|] == sub
  }

  /** `sub` is a substring of `s`. */
  ghost predicate Contains(s: string, sub: string) {
    exists i: nat :: IsAt(s, sub, i)
  }

  /** `trimStart`: drops the leading whitespace. */
  function TrimStart(s: string): (r: string)
    ensures |r| <= |s| && r == s[|s| - |r|..]
    ensures Blank(s[..|s| - |r|])
    ensures r == [] || !IsWhitespace(r[0])
  {
    if |s| > 0 && IsWhitespace(s[0]) then
      var r := TrimStart(s[1..]);
      assert s[1..][..|s| - 1 - |r|] == s[1..|s| - |r|];
      r
    else
      s
  }

  /** `trimEnd`: drops the trailing whitespace. */
  function TrimEnd(s: string): (r: string)
    ensures |r| <= |s| && r == s[..|r|]
    ensures Blank(s[|r|..])
    ensures r == [] || !IsWhitespace(r[|r| - 1])
  {
    if |s| > 0 && IsWhitespace(s[|s| - 1]) then
      var init := s[..|s| - 1];
      var r := TrimEnd(init);
      assert init[..|r|] == s[..|r|];
      assert init[|r|..] == s[|r|..|s| - 1];
      assert forall i :: |r| <= i < |s| ==> IsWhitespace(s[i]) by {
        forall i | |r| <= i < |s| ensures IsWhitespace(s[i]) {
          if i < |s| - 1 {
            assert init[|r|..][i - |r|] == s[i];
          }
        }
      }
      assert forall i :: 0 <= i < |s| - |r| ==> s[|r|..][i] == s[|r| + i];
      r
    else
      s
  }

  /** `trim`: the text of `s` without its surrounding whitespace. */
  function Trim(s: string): (r: string)
    ensures Bare(r)
    ensures exists a: nat :: SurroundedBy(s, r, a)
  {
    TrimParts(s);
    TrimEnd(TrimStart(s))
  }

  /** Trimming the start and then the end leaves a bare text that sits in the
      input just after the leading whitespace. */
  lemma TrimParts(s: string)
    ensures Bare(TrimEnd(TrimStart(s)))
    ensures SurroundedBy(s, TrimEnd(TrimStart(s)), |s| - |TrimStart(s)|)
  {
    var t := TrimStart(s);
    var r := TrimEnd(t);
    SurroundedByParts(s, t, r);
    assert r != [] ==> r[0] == t[..|r|][0] == t[0];
  }

  /** Stripping a blank prefix and then a blank suffix leaves a text surrounded by
      whitespace in the original. */
  lemma SurroundedByParts(s: string, t: string, r: string)
    requires |t| <= |s| && t == s[|s| - |t|..] && Blank(s[..|s| - |t|])
    requires |r| <= |t| && r == t[..|r|] && Blank(t[|r|..])
    ensures SurroundedBy(s, r, |s| - |t|)
  {
    var a := |s| - |t|;
    assert s[a..a + |r|] == t[..|r|];
    assert s[a + |r|..] == t[|r|..];
  }

  /** The surrounding whitespace of `s` is determined by `s`: at most one bare
      text occurs in `s` with only whitespace around it. */
  lemma SurroundedUnique(s: string, r1: string, a1: nat, r2: string, a2: nat)
    requires Bare(r1) && SurroundedBy(s, r1, a1)
    requires Bare(r2) && SurroundedBy(s, r2, a2)
    ensures r1 == r2
  {
    SurroundedAt(s, r1, a1);
    SurroundedAt(s, r2, a2);
  }

  /** Reads `SurroundedBy` back character by character: each character of `s` is
      either whitespace outside `r` or the matching character of `r`. */
  lemma SurroundedAt(s: string, r: string, a: nat)
    requires SurroundedBy(s, r, a)
    ensures forall i :: 0 <= i < a ==> IsWhitespace(s[i])
    ensures forall i :: a <= i < a + |r| ==> s[i] == r[i - a]
    ensures forall i :: a + |r| <= i < |s| ==> IsWhitespace(s[i])
  {
    forall i | 0 <= i < a ensures IsWhitespace(s[i]) {
      assert s[..a][i] == s[i];
    }
    forall i | a + |r| <= i < |s| ensures IsWhitespace(s[i]) {
      assert s[a + |r|..][i - a - |r|] == s[i];
    }
  }

  /** `trim` is the unique bare text surrounded by whitespace in its input. */
  lemma TrimIsUnique(s: string, r: string, a: nat)
    requires Bare(r) && SurroundedBy(s, r, a)
    ensures Trim(s) == r
  {
    var a' :| SurroundedBy(s, Trim(s), a');
    SurroundedUnique(s, r, a, Trim(s), a');
  }

  /** Trimming twice is trimming once. */
  lemma TrimIdempotent(s: string)
    ensures Trim(Trim(s)) == Trim(s)
  {
    var r := Trim(s);
    assert r[0..0 + |r|] == r && r[..0] == [] && r[|r|..] == [];
    TrimIsUnique(r, r, 0);
  }

  /** Trimming never creates a substring that was not there before. */
  lemma TrimKeepsOut(s: string, sub: string)
    requires !Contains(s, sub)
    ensures !Contains(Trim(s), sub)
  {
    var r := Trim(s);
    var a: nat :| SurroundedBy(s, r, a);
    InsideKeepsOut(s, r, a, sub);
  }

  /** A text occurring inside `s` holds no substring that `s` lacks. */
  lemma InsideKeepsOut(s: string, r: string, a: nat, sub: string)
    requires a + |r| <= |s| && s[a..a + |r|] == r
    requires !Contains(s, sub)
    ensures !Contains(r, sub)
  {
    forall i: nat ensures !IsAt(r, sub, i) {
      if i + |sub| <= |r| {
        InnerSlice(s, a, a + |r|, i, i + |sub|);
        assert !IsAt(s, sub, a + i);
      }
    }
  }

  /** A slice of a slice is a slice. */
  lemma InnerSlice(s: string, a: nat, b: nat, i: nat, j: nat)
    requires a <= b <= |s| && i <= j <= b - a
    ensures s[a..b][i..j] == s[a + i..a + j]
  {
    assert forall k :: 0 <= k < j - i ==> s[a..b][i..j][k] == s[a + i + k];
  }

  /** The first occurrence of `sep` in `s` at or after `from`. */
  function Find(s: string, sep: string, from: nat): (r: Option<nat>)
    requires |sep| > 0
    ensures r.Some? ==> from <= r.value && IsAt(s, sep, r.value)
    ensures r.Some? ==> forall j: nat :: from <= j < r.value ==> !IsAt(s, sep, j)
    ensures r.None? ==> forall j: nat :: from <= j ==> !IsAt(s, sep, j)
    decreases |s| - from
  {
    if from + |sep| > |s| then None
    else if IsAt(s, sep, from) then Some(from)
    else Find(s, sep, from + 1)
  }

  /** `s.split(sep)` for a non-empty literal separator: the texts between the
      leftmost non-overlapping occurrences of `sep`. */
  function Split(s: string, sep: string): (parts: seq<string>)
    requires |sep| > 0
    ensures |parts| >= 1
    decreases |s|
  {
    match Find(s, sep, 0)
    case None => [s]
    case Some(i) => [s[..i]] + Split(s[i + |sep|..], sep)
  }

  /** `parts.join(sep)`. */
  function Join(parts: seq<string>, sep: string): string
    requires |parts| >= 1
  {
    if |parts| == 1 then parts[0] else parts[0] + sep + Join(parts[1..], sep)
  }

  /** Splitting loses nothing: joining the pieces with the separator gives the input back. */
  lemma {:induction false} SplitJoin(s: string, sep: string)
    requires |sep| > 0
    ensures Join(Split(s, sep), sep) == s
  {
    match Find(s, sep, 0)
    case None =>
    case Some(i) =>
      var rest := s[i + |sep|..];
      SplitJoin(rest, sep);
      var parts := Split(s, sep);
      assert parts[1..] == Split(rest, sep);
      assert s == s[..i] + s[i..i + |sep|] + rest;
  }

  /** No piece of a split contains the separator. */
  lemma {:induction false} SplitPiecesClean(s: string, sep: string)
    requires |sep| > 0
    ensures forall k :: 0 <= k < |Split(s, sep)| ==> !Contains(Split(s, sep)[k], sep)
    decreases |s|
  {
    match Find(s, sep, 0)
    case None =>
    case Some(i) =>
      var rest := s[i + |sep|..];
      SplitPiecesClean(rest, sep);
      forall j: nat ensures !IsAt(s[..i], sep, j) {
        if j + |sep| <= i {
          assert s[..i][j..j + |sep|] == s[j..j + |sep|];
          assert !IsAt(s, sep, j);
        }
      }
      var parts := Split(s, sep);
      forall k | 0 < k < |parts| ensures !Contains(parts[k], sep) {
        assert parts[k] == Split(rest, sep)[k - 1];
      }
  }

  /** `parts` cuts its join at the leftmost occurrences of `sep`: no occurrence of
      `sep` starts inside a piece before the separator that follows it (it could
      only reach into that separator, never past it), and the last piece holds none. */
  ghost predicate LeftmostPieces(parts: seq<string>, sep: string)
    requires |sep| > 0
  {
    && |parts| >= 1
    && (forall k :: 0 <= k < |parts| - 1 ==> !Contains(parts[k] + sep[..|sep| - 1], sep))
    && !Contains(parts[|parts| - 1], sep)
  }

  /** `Split` cuts at the leftmost occurrences of the separator. */
  lemma {:induction false} SplitLeftmost(s: string, sep: string)
    requires |sep| > 0
    ensures LeftmostPieces(Split(s, sep), sep)
    decreases |s|
  {
    match Find(s, sep, 0)
    case None =>
    case Some(i) =>
      var rest := s[i + |sep|..];
      SplitLeftmost(rest, sep);
      FirstCutClean(s, sep, i);
      LeftmostCons(s[..i], Split(rest, sep), sep);
  }

  /** The text before the first occurrence, with all but the last character of the
      separator after it, holds no occurrence. */
  lemma FirstCutClean(s: string, sep: string, i: nat)
    requires |sep| > 0 && Find(s, sep, 0) == Some(i)
    ensures !Contains(s[..i] + sep[..|sep| - 1], sep)
  {
    var m := i + |sep| - 1;
    var t := s[..i] + sep[..|sep| - 1];
    assert s[i..m] == s[i..i + |sep|][..|sep| - 1];
    assert t == s[..m] by {
      assert s[..m] == s[..i] + s[i..m];
    }
    forall j: nat | j + |sep| <= |t| ensures !IsAt(t, sep, j) {
      assert j < i;
      assert !IsAt(s, sep, j);
      PrefixSlice(s, m, j, j + |sep|);
    }
  }

  /** A piece cut at the leftmost occurrence may go in front of a leftmost split. */
  lemma LeftmostCons(p: string, parts: seq<string>, sep: string)
    requires |sep| > 0 && LeftmostPieces(parts, sep)
    requires !Contains(p + sep[..|sep| - 1], sep)
    ensures LeftmostPieces([p] + parts, sep)
  {
    var all := [p] + parts;
    forall k | 1 <= k < |all| - 1 ensures !Contains(all[k] + sep[..|sep| - 1], sep) {
      assert all[k] == parts[k - 1];
    }
  }

  /** The pieces a split must produce are fixed: any decomposition of `s` that joins
      back to it and cuts at the leftmost occurrences is `Split(s, sep)`. */
  lemma {:induction false} SplitUnique(s: string, sep: string, parts: seq<string>)
    requires |sep| > 0 && LeftmostPieces(parts, sep) && Join(parts, sep) == s
    ensures parts == Split(s, sep)
    decreases |parts|
  {
    if |parts| == 1 {
      SplitWithout(parts[0], sep);
    } else {
      var rest := Join(parts[1..], sep);
      LeftmostTail(parts, sep);
      SplitUnique(rest, sep, parts[1..]);
      SplitCons(parts[0], sep, rest);
      assert parts == [parts[0]] + parts[1..];
    }
  }

  /** A piece holding no occurrence, even reaching into the separator after it, is
      split off at that separator. */
  lemma SplitCons(p: string, sep: string, rest: string)
    requires |sep| > 0 && !Contains(p + sep[..|sep| - 1], sep)
    ensures Split(p + sep + rest, sep) == [p] + Split(rest, sep)
  {
    var s := p + sep + rest;
    var n := |p|;
    assert IsAt(s, sep, n) by {
      assert s[n..n + |sep|] == sep;
    }
    var t := p + sep[..|sep| - 1];
    assert t == s[..n + |sep| - 1] by {
      assert sep == sep[..|sep| - 1] + sep[|sep| - 1..];
      assert s == t + (sep[|sep| - 1..] + rest);
    }
    forall j: nat | j < n ensures !IsAt(s, sep, j) {
      assert !IsAt(t, sep, j);
      PrefixSlice(s, n + |sep| - 1, j, j + |sep|);
    }
    assert Find(s, sep, 0) == Some(n);
    assert s[..n] == p && s[n + |sep|..] == rest;
  }

  /** A slice of a prefix is a slice. */
  lemma PrefixSlice(s: string, m: nat, j: nat, k: nat)
    requires j <= k <= m <= |s|
    ensures s[..m][j..k] == s[j..k]
  {
    assert forall x :: 0 <= x < k - j ==> s[..m][j..k][x] == s[j + x];
  }

  /** Dropping the first piece of a leftmost split leaves a leftmost split. */
  lemma LeftmostTail(parts: seq<string>, sep: string)
    requires |sep| > 0 && LeftmostPieces(parts, sep) && |parts| > 1
    ensures LeftmostPieces(parts[1..], sep)
  {
    forall k | 0 <= k < |parts| - 2 ensures !Contains(parts[1..][k] + sep[..|sep| - 1], sep) {
      assert parts[1..][k] == parts[k + 1];
    }
  }

  /** JavaScript's `"----".split("---")` is `["", "-"]`, not `["-", ""]`: the match
      that starts first wins. */
  lemma SplitFourDashes()
    ensures Split("----", Delimiter) == ["", "-"]
  {
    assert IsAt("----", Delimiter, 0) by {
      assert "----"[0..3] == Delimiter;
    }
    assert "----"[3..] == "-";
    assert Split("-", Delimiter) == ["-"];
  }

  /** A text without the separator splits into itself alone. */
  lemma SplitWithout(s: string, sep: string)
    requires |sep| > 0 && !Contains(s, sep)
    ensures Split(s, sep) == [s]
  {
    if Find(s, sep, 0).Some? {
      assert false;
    }
  }

  /** A piece followed by the delimiter is split off as one part, provided the piece
      holds no delimiter and does not end in a dash that would start one early. */
  lemma SplitOnDelimiter(p: string, rest: string)
    requires !Contains(p, Delimiter)
    requires p == [] || p[|p| - 1] != '-'
    ensures Split(p + Delimiter + rest, Delimiter) == [p] + Split(rest, Delimiter)
  {
    var s := p + Delimiter + rest;
    var n := |p|;
    assert IsAt(s, Delimiter, n) by {
      assert s[n..n + 3] == Delimiter;
    }
    forall j: nat | j < n ensures !IsAt(s, Delimiter, j) {
      if j + 3 <= n {
        assert s[j..j + 3] == p[j..j + 3];
        assert !IsAt(p, Delimiter, j);
      } else {
        assert s[j..j + 3][n - 1 - j] == p[n - 1];
      }
    }
    match Find(s, Delimiter, 0)
    case None =>
    case Some(i) =>
      assert i == n;
      assert s[..n] == p;
      assert s[n + 3..] == rest;
  }
}
