/**
 * The order `Array.prototype.sort()` uses when no comparator is given: strings
 * compared lexicographically by UTF-16 code unit.
 */
module Order {

  /** The position of `c` in UTF-16 code-unit order. A character below U+D800 is
      one code unit equal to its code point; a character above U+FFFF is a
      surrogate pair whose first unit lies in D800..DBFF, so it sorts after
      every character below U+D800 and before every character in E000..FFFF,
      and two such characters compare as their code points do. That this is the
      code-unit order is `LessIsCodeUnitOrder`. */
  function Rank(c: char): (k: int)
    ensures c as int < 0xD800 ==> k == c as int
  {
    var n := c as int;
    if n < 0xD800 then n
    else if n >= 0x1_0000 then n - 0x1_0000 + 0xD800
    else n + 0x10_0000
  }

  /** `a` sorts strictly before `b`: at the first differing character the rank
      of `a` is smaller, or `a` is a proper prefix of `b`. */
  predicate Less(a: string, b: string)
    decreases |a|
  {
    if |a| == 0 then |b| > 0
    else if |b| == 0 then false
    else if a[0] != b[0] then Rank(a[0]) < Rank(b[0])
    else Less(a[1..], b[1..])
  }

  /** The UTF-16 code units of one character: the character itself below U+10000,
      otherwise its surrogate pair. */
  function Units(c: char): (u: seq<int>)
    ensures 1 <= |u| <= 2
    ensures c as int < 0x1_0000 <==> |u| == 1
    ensures c as int >= 0x1_0000 ==> 0xD800 <= u[0] < 0xDC00 <= u[1] < 0xE000
  {
    var n := c as int;
    if n < 0x1_0000 then [n]
    else [0xD800 + (n - 0x1_0000) / 0x400, 0xDC00 + (n - 0x1_0000) % 0x400]
  }

  /** The code units JavaScript holds for `s`. */
  function Utf16(s: string): (u: seq<int>)
    ensures |s| <= |u| <= 2 * |s|
  {
    if s == [] then [] else Units(s[0]) + Utf16(s[1..])
  }

  /** The comparison ECMAScript's `IsLessThan` makes of two strings: at the first
      differing code unit the smaller one wins, and a proper prefix comes first. */
  predicate CodeUnitLess(x: seq<int>, y: seq<int>)
    decreases |x|
  {
    if |x| == 0 then |y| > 0
    else if |y| == 0 then false
    else if x[0] != y[0] then x[0] < y[0]
    else CodeUnitLess(x[1..], y[1..])
  }

  /** `Less`, compared character by character through `Rank`, is the code-unit
      comparison of the strings' UTF-16 encodings. */
  lemma {:induction false} LessIsCodeUnitOrder(a: string, b: string)
    ensures Less(a, b) <==> CodeUnitLess(Utf16(a), Utf16(b))
    decreases |a|
  {
    if |a| > 0 && |b| > 0 {
      if a[0] != b[0] {
        UnitsOrder(a[0], b[0], Utf16(a[1..]), Utf16(b[1..]));
      } else {
        CommonPrefix(Units(a[0]), Utf16(a[1..]), Utf16(b[1..]));
        LessIsCodeUnitOrder(a[1..], b[1..]);
      }
    }
  }

  /** Code-unit order is not code-point order: an emoji (a surrogate pair) sorts
      before a full-width letter from U+FF00..U+FFEF, but after any ASCII letter. */
  lemma AstralBetweenBands()
    ensures Less("\U{1F600}", "\U{FF21}") && Less("z", "\U{1F600}")
  {
  }

  /** A shared prefix does not decide the comparison. */
  lemma {:induction false} CommonPrefix(p: seq<int>, x: seq<int>, y: seq<int>)
    ensures CodeUnitLess(p + x, p + y) <==> CodeUnitLess(x, y)
    decreases |p|
  {
    if p != [] {
      assert (p + x)[1..] == p[1..] + x && (p + y)[1..] == p[1..] + y;
      CommonPrefix(p[1..], x, y);
    } else {
      assert p + x == x && p + y == y;
    }
  }

  /** Two different characters compare by their first differing code unit, which
      lies inside their own encodings, and that comparison is the one of their ranks. */
  lemma UnitsOrder(c: char, d: char, x: seq<int>, y: seq<int>)
    requires c != d
    ensures CodeUnitLess(Units(c) + x, Units(d) + y) <==> Rank(c) < Rank(d)
  {
    var u, v := Units(c) + x, Units(d) + y;
    var n, m := c as int, d as int;
    if n >= 0x1_0000 && m >= 0x1_0000 && u[0] == v[0] {
      var hi := (n - 0x1_0000) / 0x400;
      assert (m - 0x1_0000) / 0x400 == hi;
      assert n - 0x1_0000 == 0x400 * hi + (n - 0x1_0000) % 0x400;
      assert m - 0x1_0000 == 0x400 * hi + (m - 0x1_0000) % 0x400;
      assert u[1..][0] == u[1] && v[1..][0] == v[1];
    } else if n >= 0x1_0000 && m >= 0x1_0000 {
      var hn, hm := (n - 0x1_0000) / 0x400, (m - 0x1_0000) / 0x400;
      assert n - 0x1_0000 == 0x400 * hn + (n - 0x1_0000) % 0x400;
      assert m - 0x1_0000 == 0x400 * hm + (m - 0x1_0000) % 0x400;
      assert hn < hm ==> 0x400 * hn + 0x400 <= 0x400 * hm;
      assert hm < hn ==> 0x400 * hm + 0x400 <= 0x400 * hn;
    }
  }

  predicate LessEq(a: string, b: string) {
    a == b || Less(a, b)
  }

  lemma {:induction false} LessIrreflexive(a: string)
    ensures !Less(a, a)
    decreases |a|
  {
    if |a| > 0 {
      LessIrreflexive(a[1..]);
    }
  }

  lemma {:induction false} LessAsymmetric(a: string, b: string)
    ensures Less(a, b) ==> !Less(b, a)
    decreases |a|
  {
    if |a| > 0 && |b| > 0 && a[0] == b[0] {
      LessAsymmetric(a[1..], b[1..]);
    }
  }

  lemma {:induction false} LessTransitive(a: string, b: string, c: string)
    ensures Less(a, b) && Less(b, c) ==> Less(a, c)
    decreases |a|
  {
    if |a| > 0 && |b| > 0 && |c| > 0 && a[0] == b[0] == c[0] {
      LessTransitive(a[1..], b[1..], c[1..]);
    }
  }

  lemma {:induction false} LessTotal(a: string, b: string)
    ensures a == b || Less(a, b) || Less(b, a)
    decreases |a|
  {
    if |a| > 0 && |b| > 0 && a[0] == b[0] {
      LessTotal(a[1..], b[1..]);
      assert a[1..] == b[1..] ==> a == [a[0]] + a[1..] == [b[0]] + b[1..] == b;
    }
  }

  /** Equal strings are the only ones that sort at the same place. */
  lemma LessEqAntisymmetric(a: string, b: string)
    requires LessEq(a, b) && LessEq(b, a)
    ensures a == b
  {
    LessAsymmetric(a, b);
  }

  predicate Sorted(s: seq<string>) {
    forall i, j :: 0 <= i < j < |s| ==> LessEq(s[i], s[j])
  }

  /** Places `x` into the sorted `s`, before the first element it does not follow. */
  function Insert(x: string, s: seq<string>): (r: seq<string>)
    requires Sorted(s)
    ensures |r| == |s| + 1 && Sorted(r)
    ensures multiset(r) == multiset(s) + multiset{x}
  {
    if s == [] then [x]
    else if LessEq(x, s[0]) then
      LessEqChain(x, s);
      [x] + s
    else
      var rest := Insert(x, s[1..]);
      LessTotal(x, s[0]);
      HeadBelow(s[0], x, s[1..], rest);
      assert s == [s[0]] + s[1..];
      [s[0]] + rest
  }

  /** `x`, at or below the head of the sorted `s`, may be put in front of it. */
  lemma LessEqChain(x: string, s: seq<string>)
    requires Sorted(s) && s != [] && LessEq(x, s[0])
    ensures Sorted([x] + s)
  {
    forall j | 0 <= j < |s| ensures LessEq(x, s[j]) {
      LessTransitive(x, s[0], s[j]);
    }
  }

  /** `h`, at or below every element of the sorted `t` and below `x`, may be put in
      front of any sorted arrangement `rest` of `t` and `x`. */
  lemma HeadBelow(h: string, x: string, t: seq<string>, rest: seq<string>)
    requires Sorted([h] + t) && Less(h, x)
    requires Sorted(rest) && multiset(rest) == multiset(t) + multiset{x}
    ensures Sorted([h] + rest)
  {
    forall j | 0 <= j < |rest| ensures LessEq(h, rest[j]) {
      assert rest[j] in multiset(rest);
      if rest[j] != x {
        assert rest[j] in multiset(t);
        var k :| 0 <= k < |t| && t[k] == rest[j];
        assert ([h] + t)[0] == h && ([h] + t)[k + 1] == t[k];
      }
    }
    var s := [h] + rest;
    forall i, j | 0 <= i < j < |s| ensures LessEq(s[i], s[j]) {
      if i > 0 {
        assert s[i] == rest[i - 1] && s[j] == rest[j - 1];
      }
    }
  }

  /** The default `sort()`: the elements of `s` in code-unit order. */
  function Sort(s: seq<string>): (r: seq<string>)
    ensures |r| == |s| && Sorted(r)
    ensures multiset(r) == multiset(s)
  {
    if s == [] then []
    else
      assert s == [s[0]] + s[1..];
      Insert(s[0], Sort(s[1..]))
  }

  /** A sorted arrangement of a collection of strings is unique. */
  lemma {:induction false} SortedUnique(a: seq<string>, b: seq<string>)
    requires Sorted(a) && Sorted(b) && multiset(a) == multiset(b)
    ensures a == b
    decreases |a|
  {
    if a == [] {
      assert |multiset(b)| == 0;
    } else {
      assert b != [] by {
        assert |multiset(b)| == |multiset(a)| > 0;
      }
      SameHead(a, b);
      DropHead(a);
      DropHead(b);
      SortedTail(a);
      SortedTail(b);
      SortedUnique(a[1..], b[1..]);
      assert a == [a[0]] + a[1..] && b == [b[0]] + b[1..];
    }
  }

  /** Two sorted arrangements of one collection start with the same string. */
  lemma SameHead(a: seq<string>, b: seq<string>)
    requires Sorted(a) && Sorted(b) && multiset(a) == multiset(b)
    requires a != [] && b != []
    ensures a[0] == b[0]
  {
    assert a[0] in multiset(b) && b[0] in multiset(a);
    var i :| 0 <= i < |a| && a[i] == b[0];
    var j :| 0 <= j < |b| && b[j] == a[0];
    assert LessEq(a[0], a[i]) && LessEq(b[0], b[j]);
    LessEqAntisymmetric(a[0], b[0]);
  }

  lemma DropHead(s: seq<string>)
    requires s != []
    ensures multiset(s[1..]) == multiset(s) - multiset{s[0]}
  {
    assert s == [s[0]] + s[1..];
  }

  lemma SortedTail(s: seq<string>)
    requires Sorted(s) && s != []
    ensures Sorted(s[1..])
  {
    forall i, j | 0 <= i < j < |s| - 1 ensures LessEq(s[1..][i], s[1..][j]) {
      assert s[1..][i] == s[i + 1] && s[1..][j] == s[j + 1];
    }
  }

  /** Whatever algorithm a JavaScript engine uses, its result is `Sort`: any sorted
      permutation of `s` is `Sort(s)`. */
  lemma SortIsDetermined(s: seq<string>, t: seq<string>)
    requires Sorted(t) && multiset(t) == multiset(s)
    ensures t == Sort(s)
  {
    SortedUnique(t, Sort(s));
  }
}
