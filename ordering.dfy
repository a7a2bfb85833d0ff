/** The orderings the views sort by: lexicographic order on strings under
    two collations (code points for `sorted()` in Python, UTF-16 code units
    for the default `sort()` in JavaScript), "distinct values in order" as
    `[...new Set(xs)].sort(...)` builds it, and the stable comparison sort
    `Array.prototype.sort` performs with a numeric comparator. */
module Ordering {
  import opened Common

  /** How two characters compare: by code point, or by their UTF-16 code
      units. */
  datatype Collation = CodePoints | Utf16Units

  /** A character's rank under the collation. A character above U+FFFF is
      encoded from a lead surrogate (U+D800 to U+DBFF), so under UTF-16 it
      ranks after U+0000 to U+D7FF and before U+E000 to U+FFFF. */
  function CharKey(o: Collation, c: char): int
  {
    var n := c as int;
    if o == CodePoints || n < 0xD800 then n
    else if n >= 0x1_0000 then n - 0x1_0000 + 0xD800
    else n + 0x10_0000
  }

  lemma CharKeyInjective(o: Collation, x: char, y: char)
    requires x != y
    ensures CharKey(o, x) != CharKey(o, y)
  {
  }

  /** Strict lexicographic order of strings, character by character. */
  predicate LexLess(o: Collation, a: string, b: string)
    decreases |a|
  {
    if a == [] then b != []
    else if b == [] then false
    else CharKey(o, a[0]) < CharKey(o, b[0]) || (a[0] == b[0] && LexLess(o, a[1..], b[1..]))
  }

  lemma {:induction false} LexIrreflexive(o: Collation, a: string)
    ensures !LexLess(o, a, a)
    decreases |a|
  {
    if a != [] { LexIrreflexive(o, a[1..]); }
  }

  lemma {:induction false} LexTransitive(o: Collation, a: string, b: string, c: string)
    requires LexLess(o, a, b) && LexLess(o, b, c)
    ensures LexLess(o, a, c)
    decreases |a|
  {
    if a != [] && b != [] && c != [] && a[0] == b[0] == c[0] {
      LexTransitive(o, a[1..], b[1..], c[1..]);
    }
  }

  lemma {:induction false} LexTotal(o: Collation, a: string, b: string)
    requires a != b
    ensures LexLess(o, a, b) || LexLess(o, b, a)
    decreases |a|
  {
    if a != [] && b != [] {
      if a[0] == b[0] {
        assert a == [a[0]] + a[1..] && b == [b[0]] + b[1..];
        LexTotal(o, a[1..], b[1..]);
      } else {
        CharKeyInjective(o, a[0], b[0]);
      }
    }
  }

  lemma LexAsymmetric(o: Collation, a: string, b: string)
    requires LexLess(o, a, b)
    ensures !LexLess(o, b, a)
  {
    if LexLess(o, b, a) {
      LexTransitive(o, a, b, a);
      LexIrreflexive(o, a);
    }
  }

  /** The UTF-16 encoding of a character: one code unit up to U+FFFF, a
      lead and a trail surrogate above. */
  function CharUnits(c: char): (r: seq<int>)
    ensures 1 <= |r| <= 2
  {
    var n := c as int;
    if n < 0x1_0000 then [n]
    else [0xD800 + (n - 0x1_0000) / 0x400, 0xDC00 + (n - 0x1_0000) % 0x400]
  }

  /** The UTF-16 encoding of a string, one element per code unit. */
  function Utf16(s: string): seq<int>
    decreases |s|
  {
    if s == [] then [] else CharUnits(s[0]) + Utf16(s[1..])
  }

  /** Strict lexicographic order of code-unit sequences: how JavaScript
      compares two strings. */
  predicate UnitsLess(a: seq<int>, b: seq<int>)
    decreases |a|
  {
    if a == [] then b != []
    else if b == [] then false
    else a[0] < b[0] || (a[0] == b[0] && UnitsLess(a[1..], b[1..]))
  }

  lemma {:induction false} UnitsLessPrefix(p: seq<int>, u: seq<int>, v: seq<int>)
    ensures UnitsLess(p + u, p + v) <==> UnitsLess(u, v)
    decreases |p|
  {
    if p != [] {
      assert (p + u)[1..] == p[1..] + u && (p + v)[1..] == p[1..] + v;
      UnitsLessPrefix(p[1..], u, v);
    } else {
      assert p + u == u && p + v == v;
    }
  }

  /** Two different characters' encodings decide the comparison before
      either ends, in the order of their UTF-16 ranks. */
  lemma CharUnitsLess(x: char, y: char, u: seq<int>, v: seq<int>)
    requires x != y
    ensures UnitsLess(CharUnits(x) + u, CharUnits(y) + v) <==> CharKey(Utf16Units, x) < CharKey(Utf16Units, y)
  {
    var a, b := CharUnits(x) + u, CharUnits(y) + v;
    assert a[0] == CharUnits(x)[0] && b[0] == CharUnits(y)[0];
    if x as int >= 0x1_0000 && y as int >= 0x1_0000 && a[0] == b[0] {
      assert a[1..] == [CharUnits(x)[1]] + u && b[1..] == [CharUnits(y)[1]] + v;
    }
  }

  /** Comparing under `Utf16Units` is comparing the UTF-16 encodings. */
  lemma {:induction false} Utf16Order(a: string, b: string)
    ensures LexLess(Utf16Units, a, b) <==> UnitsLess(Utf16(a), Utf16(b))
    decreases |a|
  {
    if a != [] && b != [] {
      if a[0] == b[0] {
        Utf16Order(a[1..], b[1..]);
        UnitsLessPrefix(CharUnits(a[0]), Utf16(a[1..]), Utf16(b[1..]));
      } else {
        CharUnitsLess(a[0], b[0], Utf16(a[1..]), Utf16(b[1..]));
      }
    }
  }

  /** The collations disagree once a character above U+FFFF meets one
      from U+E000 to U+FFFF: U+1D400 sorts before U+FF21 in JavaScript and
      after it by code point. */
  lemma CollationsDiffer()
    ensures SortedDistinct(Utf16Units, ["\U{FF21}", "\U{1D400}"]) == ["\U{1D400}", "\U{FF21}"]
    ensures SortedDistinct(CodePoints, ["\U{FF21}", "\U{1D400}"]) == ["\U{FF21}", "\U{1D400}"]
  {
    var a, b := "\U{FF21}", "\U{1D400}";
    assert ["\U{FF21}", "\U{1D400}"][..1] == [a];
    assert [a][..0] == [];
    assert SortedDistinct(Utf16Units, [a]) == [a];
    assert SortedDistinct(CodePoints, [a]) == InsertLex(CodePoints, [], a) == [a];
    assert LexLess(Utf16Units, b, a);
    assert !LexLess(CodePoints, b, a);
    assert InsertLex(CodePoints, [a], b) == [a] + InsertLex(CodePoints, [], b);
  }

  predicate Bmp(s: string)
  {
    forall k :: 0 <= k < |s| ==> s[k] as int < 0x1_0000
  }

  /** Without characters above U+FFFF the collations agree. */
  lemma {:induction false} CollationsAgreeOnBmp(a: string, b: string)
    requires Bmp(a) && Bmp(b)
    ensures LexLess(CodePoints, a, b) <==> LexLess(Utf16Units, a, b)
    decreases |a|
  {
    if a != [] && b != [] {
      assert a[0] as int < 0x1_0000 && b[0] as int < 0x1_0000;
      assert Bmp(a[1..]) && Bmp(b[1..]) by {
        forall k | 0 <= k < |a| - 1 ensures a[1..][k] as int < 0x1_0000 { assert a[1..][k] == a[k + 1]; }
        forall k | 0 <= k < |b| - 1 ensures b[1..][k] as int < 0x1_0000 { assert b[1..][k] == b[k + 1]; }
      }
      CollationsAgreeOnBmp(a[1..], b[1..]);
    }
  }

  predicate StrictlyAscending(o: Collation, s: seq<string>)
  {
    forall i, j :: 0 <= i < j < |s| ==> LexLess(o, s[i], s[j])
  }

  /** Inserts `x` into a strictly ascending list unless it is present. */
  function InsertLex(o: Collation, s: seq<string>, x: string): seq<string>
  {
    if s == [] then [x]
    else if x == s[0] then s
    else if LexLess(o, x, s[0]) then [x] + s
    else [s[0]] + InsertLex(o, s[1..], x)
  }

  lemma {:induction false} InsertLexSpec(o: Collation, s: seq<string>, x: string)
    requires StrictlyAscending(o, s)
    ensures StrictlyAscending(o, InsertLex(o, s, x))
    ensures forall y :: y in InsertLex(o, s, x) <==> y in s || y == x
  {
    if s == [] {
    } else if x == s[0] {
    } else if LexLess(o, x, s[0]) {
      var r := [x] + s;
      forall i, j | 0 <= i < j < |r| ensures LexLess(o, r[i], r[j]) {
        if i == 0 && j > 1 { LexTransitive(o, x, s[0], s[j - 1]); }
      }
    } else {
      LexTotal(o, x, s[0]);
      InsertLexSpec(o, s[1..], x);
      var t := InsertLex(o, s[1..], x);
      var r := [s[0]] + t;
      forall i, j | 0 <= i < j < |r| ensures LexLess(o, r[i], r[j]) {
        if i == 0 {
          assert r[j] in s[1..] || r[j] == x;
        }
      }
    }
  }

  /** The distinct strings of `xs` in ascending order:
      `[...new Set(xs)].sort()` under `Utf16Units`, `sorted(set(xs))`
      under `CodePoints`. */
  function SortedDistinct(o: Collation, xs: seq<string>): seq<string>
  {
    if xs == [] then [] else InsertLex(o, SortedDistinct(o, xs[..|xs| - 1]), xs[|xs| - 1])
  }

  lemma {:induction false} SortedDistinctSpec(o: Collation, xs: seq<string>)
    ensures StrictlyAscending(o, SortedDistinct(o, xs))
    ensures forall y :: y in SortedDistinct(o, xs) <==> y in xs
  {
    if xs != [] {
      var init := xs[..|xs| - 1];
      SortedDistinctSpec(o, init);
      InsertLexSpec(o, SortedDistinct(o, init), xs[|xs| - 1]);
      assert xs == init + [xs[|xs| - 1]];
    }
  }

  /** A strictly ascending list is determined by its elements. */
  lemma {:induction false} AscendingUnique(o: Collation, a: seq<string>, b: seq<string>)
    requires StrictlyAscending(o, a) && StrictlyAscending(o, b)
    requires forall y :: y in a <==> y in b
    ensures a == b
    decreases |a|
  {
    if a == [] {
      assert forall k :: 0 <= k < |b| ==> b[k] !in a;
    } else {
      assert a[0] in a;
      assert a[0] in b;
      assert b[0] in b;
      assert b[0] in a;
      if a[0] != b[0] {
        var k :| 0 <= k < |a| && a[k] == b[0];
        var m :| 0 <= m < |b| && b[m] == a[0];
        assert LexLess(o, a[0], b[0]);
        assert LexLess(o, b[0], a[0]);
        LexAsymmetric(o, a[0], b[0]);
      }
      forall y ensures y in a[1..] <==> y in b[1..] {
        if y in a[1..] {
          var k :| 1 <= k < |a| && a[k] == y;
          if y == b[0] { LexIrreflexive(o, a[0]); }
          assert y in b;
        }
        if y in b[1..] {
          var k :| 1 <= k < |b| && b[k] == y;
          if y == a[0] { LexIrreflexive(o, b[0]); }
          assert y in a;
        }
      }
      AscendingUnique(o, a[1..], b[1..]);
      assert a == [a[0]] + a[1..] && b == [b[0]] + b[1..];
    }
  }

  /** `SortedDistinct` depends only on which strings occur. */
  lemma SortedDistinctSameElements(o: Collation, xs: seq<string>, ys: seq<string>)
    requires forall y :: y in xs <==> y in ys
    ensures SortedDistinct(o, xs) == SortedDistinct(o, ys)
  {
    SortedDistinctSpec(o, xs);
    SortedDistinctSpec(o, ys);
    AscendingUnique(o, SortedDistinct(o, xs), SortedDistinct(o, ys));
  }

  predicate StrictlyDescending(s: seq<real>)
  {
    forall i, j :: 0 <= i < j < |s| ==> s[i] > s[j]
  }

  /** Inserts `x` into a strictly descending list unless it is present. */
  function InsertDesc(s: seq<real>, x: real): seq<real>
  {
    if s == [] then [x]
    else if x == s[0] then s
    else if x > s[0] then [x] + s
    else [s[0]] + InsertDesc(s[1..], x)
  }

  lemma {:induction false} InsertDescSpec(s: seq<real>, x: real)
    requires StrictlyDescending(s)
    ensures StrictlyDescending(InsertDesc(s, x))
    ensures forall y :: y in InsertDesc(s, x) <==> y in s || y == x
  {
    if s != [] && x != s[0] && x < s[0] {
      InsertDescSpec(s[1..], x);
      var r := [s[0]] + InsertDesc(s[1..], x);
      forall i, j | 0 <= i < j < |r| ensures r[i] > r[j] {
        if i == 0 { assert r[j] in s[1..] || r[j] == x; }
      }
    }
  }

  /** The distinct values of `xs`, largest first:
      `[...new Set(xs)].sort((a, b) => b - a)`. */
  function DistinctDescending(xs: seq<real>): seq<real>
  {
    if xs == [] then [] else InsertDesc(DistinctDescending(xs[..|xs| - 1]), xs[|xs| - 1])
  }

  lemma {:induction false} DistinctDescendingSpec(xs: seq<real>)
    ensures StrictlyDescending(DistinctDescending(xs))
    ensures forall y :: y in DistinctDescending(xs) <==> y in xs
  {
    if xs != [] {
      var init := xs[..|xs| - 1];
      DistinctDescendingSpec(init);
      InsertDescSpec(DistinctDescending(init), xs[|xs| - 1]);
      assert xs == init + [xs[|xs| - 1]];
    }
  }

  /** A strictly descending list is determined by its elements. */
  lemma {:induction false} DescendingUnique(a: seq<real>, b: seq<real>)
    requires StrictlyDescending(a) && StrictlyDescending(b)
    requires forall y :: y in a <==> y in b
    ensures a == b
    decreases |a|
  {
    if a == [] {
      assert forall k :: 0 <= k < |b| ==> b[k] !in a;
    } else {
      assert a[0] in a && b[0] in b;
      assert a[0] in b;
      assert b[0] in a;
      assert a[0] == b[0];
      forall y ensures y in a[1..] <==> y in b[1..] {
        if y in a[1..] { assert y in b; }
        if y in b[1..] { assert y in a; }
      }
      DescendingUnique(a[1..], b[1..]);
      assert a == [a[0]] + a[1..] && b == [b[0]] + b[1..];
    }
  }

  lemma DistinctDescendingSameElements(xs: seq<real>, ys: seq<real>)
    requires forall y :: y in xs <==> y in ys
    ensures DistinctDescending(xs) == DistinctDescending(ys)
  {
    DistinctDescendingSpec(xs);
    DistinctDescendingSpec(ys);
    DescendingUnique(DistinctDescending(xs), DistinctDescending(ys));
  }

  predicate StrictlyAscendingInts(s: seq<int>)
  {
    forall i, j :: 0 <= i < j < |s| ==> s[i] < s[j]
  }

  /** Inserts `x` into a strictly ascending list unless it is present. */
  function InsertAsc(s: seq<int>, x: int): seq<int>
  {
    if s == [] then [x]
    else if x == s[0] then s
    else if x < s[0] then [x] + s
    else [s[0]] + InsertAsc(s[1..], x)
  }

  lemma {:induction false} InsertAscSpec(s: seq<int>, x: int)
    requires StrictlyAscendingInts(s)
    ensures StrictlyAscendingInts(InsertAsc(s, x))
    ensures forall y :: y in InsertAsc(s, x) <==> y in s || y == x
  {
    if s != [] && x != s[0] && x > s[0] {
      InsertAscSpec(s[1..], x);
      var r := [s[0]] + InsertAsc(s[1..], x);
      forall i, j | 0 <= i < j < |r| ensures r[i] < r[j] {
        if i == 0 { assert r[j] in s[1..] || r[j] == x; }
      }
    }
  }

  /** The distinct values of `xs`, smallest first: the numeric sort of an
      object's integer keys. */
  function DistinctAscending(xs: seq<int>): seq<int>
  {
    if xs == [] then [] else InsertAsc(DistinctAscending(xs[..|xs| - 1]), xs[|xs| - 1])
  }

  lemma {:induction false} DistinctAscendingSpec(xs: seq<int>)
    ensures StrictlyAscendingInts(DistinctAscending(xs))
    ensures forall y :: y in DistinctAscending(xs) <==> y in xs
  {
    if xs != [] {
      var init := xs[..|xs| - 1];
      DistinctAscendingSpec(init);
      InsertAscSpec(DistinctAscending(init), xs[|xs| - 1]);
      assert xs == init + [xs[|xs| - 1]];
    }
  }

  /** `xs.indexOf(x)`: the first index holding `x`, or -1. */
  function IndexOf<T(==)>(xs: seq<T>, x: T): (r: int)
    ensures -1 <= r < |xs|
    ensures r >= 0 ==> xs[r] == x && forall k :: 0 <= k < r ==> xs[k] != x
    ensures r == -1 <==> x !in xs
  {
    if xs == [] then -1
    else if xs[0] == x then 0
    else var k := IndexOf(xs[1..], x); if k < 0 then -1 else k + 1
  }

  /** Inserts `x` after every element whose key is at most its own. */
  function InsertByKey<T>(s: seq<T>, x: T, key: T -> real): seq<T>
  {
    if s == [] then [x]
    else if key(x) < key(s[0]) then [x] + s
    else [s[0]] + InsertByKey(s[1..], x, key)
  }

  /** Stable ascending sort by a numeric key, as `Array.prototype.sort`
      with the comparator `(a, b) => key(a) - key(b)`. */
  function SortByKey<T>(s: seq<T>, key: T -> real): seq<T>
  {
    if s == [] then [] else InsertByKey(SortByKey(s[..|s| - 1], key), s[|s| - 1], key)
  }

  predicate SortedByKey<T>(s: seq<T>, key: T -> real)
  {
    forall i, j :: 0 <= i < j < |s| ==> key(s[i]) <= key(s[j])
  }

  lemma {:induction false} InsertByKeyMultiset<T>(s: seq<T>, x: T, key: T -> real)
    ensures multiset(InsertByKey(s, x, key)) == multiset(s) + multiset{x}
  {
    if s != [] && key(x) >= key(s[0]) {
      InsertByKeyMultiset(s[1..], x, key);
      assert s == [s[0]] + s[1..];
    }
  }

  lemma {:induction false} InsertByKeySpec<T>(s: seq<T>, x: T, key: T -> real)
    requires SortedByKey(s, key)
    ensures SortedByKey(InsertByKey(s, x, key), key)
    ensures multiset(InsertByKey(s, x, key)) == multiset(s) + multiset{x}
  {
    InsertByKeyMultiset(s, x, key);
    if s != [] && key(x) >= key(s[0]) {
      InsertByKeySpec(s[1..], x, key);
      var t := InsertByKey(s[1..], x, key);
      InsertByKeyMultiset(s[1..], x, key);
      forall j | 0 <= j < |t| ensures key(s[0]) <= key(t[j]) {
        assert t[j] in multiset(s[1..]) + multiset{x};
        if t[j] != x {
          var k :| 0 <= k < |s| - 1 && s[1..][k] == t[j];
          assert s[k + 1] == t[j];
        }
      }
    }
  }

  /** The sort yields an ascending arrangement of exactly the input. */
  lemma {:induction false} SortByKeySpec<T>(s: seq<T>, key: T -> real)
    ensures SortedByKey(SortByKey(s, key), key)
    ensures multiset(SortByKey(s, key)) == multiset(s)
  {
    if s != [] {
      var init := s[..|s| - 1];
      SortByKeySpec(init, key);
      InsertByKeySpec(SortByKey(init, key), s[|s| - 1], key);
      assert s == init + [s[|s| - 1]];
    }
  }

  /** An element no smaller than every key goes last. */
  lemma {:induction false} InsertByKeyLast<T>(s: seq<T>, x: T, key: T -> real)
    requires forall i :: 0 <= i < |s| ==> key(s[i]) <= key(x)
    ensures InsertByKey(s, x, key) == s + [x]
  {
    if s != [] {
      InsertByKeyLast(s[1..], x, key);
      assert s == [s[0]] + s[1..];
    }
  }

  /** Sorting an already sorted sequence leaves it as it is. */
  lemma {:induction false} SortByKeySorted<T>(s: seq<T>, key: T -> real)
    requires SortedByKey(s, key)
    ensures SortByKey(s, key) == s
  {
    if s != [] {
      var init := s[..|s| - 1];
      assert SortedByKey(init, key);
      SortByKeySorted(init, key);
      InsertByKeyLast(init, s[|s| - 1], key);
      assert s == init + [s[|s| - 1]];
    }
  }
}
