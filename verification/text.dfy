/** String helpers: the UTF-16 code-unit order JavaScript uses to compare and
    sort strings, a stable insertion sort, `join`, and character classes. */
module Text {

  /** The UTF-16 code units of one character: itself below U+10000, else a
      high surrogate followed by a low one. */
  function Units(c: char): (u: seq<int>)
    ensures 1 <= |u| <= 2
    ensures |u| == 1 <==> (c as int) < 0x1_0000
    ensures |u| == 1 ==> u[0] == c as int
    ensures |u| == 2 ==> 0xD800 <= u[0] < 0xDC00 && 0xDC00 <= u[1] < 0xE000
  {
    var v := c as int;
    if v < 0x1_0000 then [v]
    else [0xD800 + (v - 0x1_0000) / 0x400, 0xDC00 + (v - 0x1_0000) % 0x400]
  }

  /** The UTF-16 encoding of a string, as JavaScript stores it. */
  function Utf16(s: string): seq<int> {
    if |s| == 0 then [] else Units(s[0]) + Utf16(s[1..])
  }

  /** Different characters have different code units. */
  lemma UnitsInjective(c: char, d: char)
    requires Units(c) == Units(d)
    ensures c == d
  {
    var v, w := c as int, d as int;
    if v >= 0x1_0000 {
      assert (v - 0x1_0000) / 0x400 == (w - 0x1_0000) / 0x400;
      assert (v - 0x1_0000) % 0x400 == (w - 0x1_0000) % 0x400;
      assert v - 0x1_0000 == (v - 0x1_0000) / 0x400 * 0x400 + (v - 0x1_0000) % 0x400;
      assert w - 0x1_0000 == (w - 0x1_0000) / 0x400 * 0x400 + (w - 0x1_0000) % 0x400;
    }
  }

  /** Two encodings are equal only for equal strings: the first unit tells
      whether a character takes one unit or two. */
  lemma {:induction false} Utf16Injective(a: string, b: string)
    requires Utf16(a) == Utf16(b)
    ensures a == b
    decreases |a|
  {
    if |a| > 0 && |b| > 0 {
      var ua, ub := Units(a[0]), Units(b[0]);
      assert Utf16(a)[0] == ua[0] && Utf16(b)[0] == ub[0];
      assert |ua| == |ub|;
      assert ua == Utf16(a)[..|ua|] && ub == Utf16(b)[..|ub|];
      UnitsInjective(a[0], b[0]);
      assert Utf16(a[1..]) == Utf16(a)[|ua|..] && Utf16(b[1..]) == Utf16(b)[|ub|..];
      Utf16Injective(a[1..], b[1..]);
      assert a == [a[0]] + a[1..] && b == [b[0]] + b[1..];
    }
  }

  /** Lexicographic order of code-unit sequences. */
  predicate LexBelow(a: seq<int>, b: seq<int>)
    decreases |a|
  {
    if |a| == 0 then |b| > 0
    else if |b| == 0 then false
    else if a[0] == b[0] then LexBelow(a[1..], b[1..])
    else a[0] < b[0]
  }

  /** `a < b` on JavaScript strings: their UTF-16 code units compared lexicographically. */
  predicate Below(a: string, b: string) {
    LexBelow(Utf16(a), Utf16(b))
  }

  predicate AtMost(a: string, b: string) {
    !Below(b, a)
  }

  lemma {:induction false} LexAsymmetric(a: seq<int>, b: seq<int>)
    ensures !(LexBelow(a, b) && LexBelow(b, a))
    decreases |a|
  {
    if |a| > 0 && |b| > 0 && a[0] == b[0] {
      LexAsymmetric(a[1..], b[1..]);
    }
  }

  lemma {:induction false} LexIrreflexive(a: seq<int>)
    ensures !LexBelow(a, a)
    decreases |a|
  {
    if |a| > 0 {
      LexIrreflexive(a[1..]);
    }
  }

  lemma {:induction false} LexTotal(a: seq<int>, b: seq<int>)
    ensures LexBelow(a, b) || a == b || LexBelow(b, a)
    decreases |a|
  {
    if |a| > 0 && |b| > 0 && a[0] == b[0] {
      LexTotal(a[1..], b[1..]);
      if a[1..] == b[1..] {
        assert a == [a[0]] + a[1..] && b == [b[0]] + b[1..];
      }
    }
  }

  lemma BelowAsymmetric(a: string, b: string)
    ensures !(Below(a, b) && Below(b, a))
  {
    LexAsymmetric(Utf16(a), Utf16(b));
  }

  lemma BelowIrreflexive(a: string)
    ensures !Below(a, a)
  {
    LexIrreflexive(Utf16(a));
  }

  /** Every two strings are comparable, so `AtMost` is a total order. */
  lemma BelowTotal(a: string, b: string)
    ensures Below(a, b) || a == b || Below(b, a)
  {
    LexTotal(Utf16(a), Utf16(b));
    if Utf16(a) == Utf16(b) {
      Utf16Injective(a, b);
    }
  }

  lemma {:induction false} LexTransitive(a: seq<int>, b: seq<int>, c: seq<int>)
    requires LexBelow(a, b) && LexBelow(b, c)
    ensures LexBelow(a, c)
    decreases |a|
  {
    if |a| > 0 && a[0] == b[0] && b[0] == c[0] {
      LexTransitive(a[1..], b[1..], c[1..]);
    }
  }

  lemma BelowTransitive(a: string, b: string, c: string)
    requires Below(a, b) && Below(b, c)
    ensures Below(a, c)
  {
    LexTransitive(Utf16(a), Utf16(b), Utf16(c));
  }

  lemma AtMostTransitive(a: string, b: string, c: string)
    requires AtMost(a, b) && AtMost(b, c)
    ensures AtMost(a, c)
  {
    BelowTotal(a, b);
    BelowTotal(b, c);
    if Below(a, b) && Below(b, c) {
      BelowTransitive(a, b, c);
      BelowAsymmetric(a, c);
    }
  }

  predicate SortedBy<T>(xs: seq<T>, key: T -> string) {
    forall i :: 0 < i < |xs| ==> AtMost(key(xs[i - 1]), key(xs[i]))
  }

  /** The elements whose key is `k`, in their order. */
  function WithKey<T>(xs: seq<T>, key: T -> string, k: string): seq<T> {
    if |xs| == 0 then []
    else (if key(xs[0]) == k then [xs[0]] else []) + WithKey(xs[1..], key, k)
  }

  /** Places `x` before the first element whose key is not below `x`'s,
      so `x` goes ahead of the equal keys already present. */
  function Insert<T>(x: T, ys: seq<T>, key: T -> string): (r: seq<T>)
    requires SortedBy(ys, key)
    ensures SortedBy(r, key)
    ensures multiset(r) == multiset(ys) + multiset{x}
    ensures |ys| > 0 ==> r[0] == x || r[0] == ys[0]
    ensures |ys| == 0 ==> r == [x]
  {
    if |ys| == 0 then [x]
    else if AtMost(key(x), key(ys[0])) then [x] + ys
    else
      BelowAsymmetric(key(x), key(ys[0]));
      var rest := Insert(x, ys[1..], key);
      assert ys == [ys[0]] + ys[1..];
      var r := [ys[0]] + rest;
      assert SortedBy(r, key) by {
        forall i | 0 < i < |r|
          ensures AtMost(key(r[i - 1]), key(r[i]))
        {
          if i > 1 {
            assert r[i - 1] == rest[i - 2] && r[i] == rest[i - 1];
          } else if rest[0] != x {
            assert rest[0] == ys[1];
          }
        }
      }
      r
  }

  /** Inserting `x` puts it ahead of the elements with its key and moves no
      other element past one with the same key. */
  lemma {:induction false} InsertKeepsKeyOrder<T>(x: T, ys: seq<T>, key: T -> string, k: string)
    requires SortedBy(ys, key)
    ensures WithKey(Insert(x, ys, key), key, k) == (if key(x) == k then [x] else []) + WithKey(ys, key, k)
    decreases |ys|
  {
    if |ys| == 0 {
      assert Insert(x, ys, key) == [x];
      WithKeyCons(x, [], key, k);
    } else if AtMost(key(x), key(ys[0])) {
      assert Insert(x, ys, key) == [x] + ys;
      WithKeyCons(x, ys, key, k);
    } else {
      var rest := Insert(x, ys[1..], key);
      assert Insert(x, ys, key) == [ys[0]] + rest;
      // ys[0] is strictly below x, so it cannot share x's key.
      BelowIrreflexive(key(x));
      assert key(ys[0]) != key(x);
      SortedTail(ys, key);
      InsertKeepsKeyOrder(x, ys[1..], key, k);
      WithKeyCons(ys[0], rest, key, k);
      assert ys == [ys[0]] + ys[1..];
      WithKeyCons(ys[0], ys[1..], key, k);
    }
  }

  lemma WithKeyCons<T>(y: T, ys: seq<T>, key: T -> string, k: string)
    ensures WithKey([y] + ys, key, k) == (if key(y) == k then [y] else []) + WithKey(ys, key, k)
  {
    assert ([y] + ys)[1..] == ys;
  }

  /** A stable sort by `key`, as `Array.prototype.sort`: the result is ordered,
      a permutation of the input, and elements with equal keys keep their
      input order. */
  function SortBy<T>(xs: seq<T>, key: T -> string): (r: seq<T>)
    ensures SortedBy(r, key)
    ensures multiset(r) == multiset(xs)
    ensures |r| == |xs|
    ensures forall k {:trigger WithKey(r, key, k)} :: WithKey(r, key, k) == WithKey(xs, key, k)
  {
    if |xs| == 0 then []
    else
      assert xs == [xs[0]] + xs[1..];
      var rest := SortBy(xs[1..], key);
      assert forall k {:trigger WithKey(xs, key, k)} :: WithKey(Insert(xs[0], rest, key), key, k) == WithKey(xs, key, k) by {
        forall k
          ensures WithKey(Insert(xs[0], rest, key), key, k) == WithKey(xs, key, k)
        {
          InsertKeepsKeyOrder(xs[0], rest, key, k);
        }
      }
      Insert(xs[0], rest, key)
  }

  /** The first element of an ordered sequence is at most every element. */
  lemma {:induction false} SortedLeast<T>(xs: seq<T>, key: T -> string, i: nat)
    requires SortedBy(xs, key) && i < |xs|
    ensures AtMost(key(xs[0]), key(xs[i]))
    decreases i
  {
    if i == 0 {
      BelowIrreflexive(key(xs[0]));
    } else {
      SortedLeast(xs, key, i - 1);
      AtMostTransitive(key(xs[0]), key(xs[i - 1]), key(xs[i]));
    }
  }

  lemma SortedTail<T>(xs: seq<T>, key: T -> string)
    requires SortedBy(xs, key) && |xs| > 0
    ensures SortedBy(xs[1..], key)
  {
    forall k | 0 < k < |xs[1..]|
      ensures AtMost(key(xs[1..][k - 1]), key(xs[1..][k]))
    {
      assert xs[1..][k - 1] == xs[k] && xs[1..][k] == xs[k + 1];
    }
  }

  lemma SameTail<T>(a: seq<T>, b: seq<T>)
    requires |a| > 0 && |b| > 0 && a[0] == b[0]
    requires multiset(a) == multiset(b)
    ensures multiset(a[1..]) == multiset(b[1..])
  {
    assert a == [a[0]] + a[1..];
    assert b == [b[0]] + b[1..];
    assert multiset(a) == multiset{a[0]} + multiset(a[1..]);
    assert multiset(b) == multiset{a[0]} + multiset(b[1..]);
    assert multiset(a[1..]) == multiset(a) - multiset{a[0]};
    assert multiset(b[1..]) == multiset(b) - multiset{a[0]};
  }

  /** An ordered permutation of a collection of strings is unique, so
      sorting determines its result. */
  lemma {:induction false} SortedUnique(a: seq<string>, b: seq<string>)
    requires SortedBy(a, Identity) && SortedBy(b, Identity)
    requires multiset(a) == multiset(b)
    ensures a == b
    decreases |a|
  {
    if |a| == 0 {
      assert |multiset(b)| == 0;
    } else {
      assert |b| == |multiset(b)| == |multiset(a)| == |a|;
      assert a[0] in multiset(b) && b[0] in multiset(a);
      var j :| 0 <= j < |b| && b[j] == a[0];
      var i :| 0 <= i < |a| && a[i] == b[0];
      SortedLeast(b, Identity, j);
      SortedLeast(a, Identity, i);
      BelowTotal(a[0], b[0]);
      SameTail(a, b);
      SortedTail(a, Identity);
      SortedTail(b, Identity);
      SortedUnique(a[1..], b[1..]);
      assert a == [a[0]] + a[1..] && b == [b[0]] + b[1..];
    }
  }

  function Identity(s: string): string {
    s
  }

  /** `xs.join(sep)`. */
  function Join(xs: seq<string>, sep: string): string {
    if |xs| == 0 then ""
    else if |xs| == 1 then xs[0]
    else xs[0] + sep + Join(xs[1..], sep)
  }

  predicate IsAlphaNumericChar(c: char) {
    ('a' <= c <= 'z') || ('A' <= c <= 'Z') || ('0' <= c <= '9')
  }

  predicate IsAlphaNumeric(s: string) {
    forall i :: 0 <= i < |s| ==> IsAlphaNumericChar(s[i])
  }

  /** `toUpperCase` on one character, for the ASCII range. */
  function ToUpper(c: char): char {
    if 'a' <= c <= 'z' then (c as int - 32) as char else c
  }

  function ToLower(c: char): char {
    if 'A' <= c <= 'Z' then (c as int + 32) as char else c
  }
}
