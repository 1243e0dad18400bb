/**
 * Orders used by the site's sorts. Every sort key is encoded as a sequence of integers
 * compared lexicographically, which covers numbers (`[n]`, or `[-n]` for descending),
 * strings (code points, ascending or descending) and tuples of them (concatenation).
 * `SortBy` is a stable insertion sort, the behaviour of Rust's `sort_by`/`sort_by_key`
 * and of JavaScript's `Array.prototype.sort`.
 */
module Ordering {
  import opened Seqs

  /** Lexicographic order; a proper prefix comes first. */
  predicate LexLe(a: seq<int>, b: seq<int>)
    decreases |a|
  {
    |a| == 0 || (|b| > 0 && (a[0] < b[0] || (a[0] == b[0] && LexLe(a[1..], b[1..]))))
  }

  lemma {:induction false} LexLeReflexive(a: seq<int>)
    ensures LexLe(a, a)
    decreases |a|
  {
    if |a| > 0 {
      LexLeReflexive(a[1..]);
    }
  }

  lemma {:induction false} LexLeTotal(a: seq<int>, b: seq<int>)
    ensures LexLe(a, b) || LexLe(b, a)
    decreases |a|
  {
    if |a| > 0 && |b| > 0 && a[0] == b[0] {
      LexLeTotal(a[1..], b[1..]);
    }
  }

  lemma {:induction false} LexLeTransitive(a: seq<int>, b: seq<int>, c: seq<int>)
    requires LexLe(a, b) && LexLe(b, c)
    ensures LexLe(a, c)
    decreases |a|
  {
    if |a| > 0 && a[0] == b[0] && b[0] == c[0] {
      LexLeTransitive(a[1..], b[1..], c[1..]);
    }
  }

  lemma {:induction false} LexLeAntisymmetric(a: seq<int>, b: seq<int>)
    requires LexLe(a, b) && LexLe(b, a)
    ensures a == b
    decreases |a|
  {
    if |a| > 0 {
      LexLeAntisymmetric(a[1..], b[1..]);
      assert a == [a[0]] + a[1..] && b == [b[0]] + b[1..];
    }
  }

  /** Tuples compare component-wise: with a shared first component the rest decides. */
  lemma {:induction false} LexLeSharedPrefix(p: seq<int>, x: seq<int>, y: seq<int>)
    ensures LexLe(p + x, p + y) == LexLe(x, y)
    decreases |p|
  {
    if |p| > 0 {
      assert (p + x)[1..] == p[1..] + x && (p + y)[1..] == p[1..] + y;
      LexLeSharedPrefix(p[1..], x, y);
    } else {
      assert p + x == x && p + y == y;
    }
  }

  /** Tuples compare component-wise: differing fixed-width first components decide alone. */
  lemma {:induction false} LexLeEqualWidth(p: seq<int>, q: seq<int>, x: seq<int>, y: seq<int>)
    requires |p| == |q| && p != q
    ensures LexLe(p + x, q + y) == LexLe(p, q)
    decreases |p|
  {
    if p[0] == q[0] {
      assert p[1..] != q[1..] by {
        assert p == [p[0]] + p[1..] && q == [q[0]] + q[1..];
      }
      assert (p + x)[1..] == p[1..] + x && (q + y)[1..] == q[1..] + y;
      LexLeEqualWidth(p[1..], q[1..], x, y);
    }
  }

  // ---------------------------------------------------------------- strings

  /** A string as a prefix-free key: each code point shifted up by one, then a terminating 0. */
  function StrKey(s: string): (k: seq<int>)
    ensures |k| == |s| + 1 && k[|s|] == 0
    ensures forall i :: 0 <= i < |s| ==> k[i] == s[i] as int + 1 > 0
  {
    seq(|s|, i requires 0 <= i < |s| => s[i] as int + 1) + [0]
  }

  /** The same key with the order of code points reversed, for descending string sorts. */
  function StrKeyDesc(s: string): (k: seq<int>)
    ensures |k| == |s| + 1 && k[|s|] == 0
    ensures forall i :: 0 <= i < |s| ==> k[i] == -(s[i] as int + 1) < 0
  {
    seq(|s|, i requires 0 <= i < |s| => -(s[i] as int + 1)) + [0]
  }

  /** Code-point order on strings: Rust's `Ord for String`, and JavaScript's `<` on strings of the Basic Multilingual Plane. */
  predicate StrLe(a: string, b: string)
  {
    LexLe(StrKey(a), StrKey(b))
  }

  lemma StrKeyTail(s: string)
    requires |s| > 0
    ensures StrKey(s) == [s[0] as int + 1] + StrKey(s[1..])
    ensures StrKeyDesc(s) == [-(s[0] as int + 1)] + StrKeyDesc(s[1..])
  {
  }

  lemma StrKeyInjective(a: string, b: string)
    ensures StrKey(a) == StrKey(b) ==> a == b
  {
    if StrKey(a) == StrKey(b) {
      assert |a| == |b|;
      assert forall i :: 0 <= i < |a| ==> a[i] as int + 1 == StrKey(a)[i] == StrKey(b)[i] == b[i] as int + 1;
    }
  }

  /** The descending key reverses the ascending order exactly. */
  lemma {:induction false} StrKeyDescReverses(a: string, b: string)
    ensures LexLe(StrKeyDesc(a), StrKeyDesc(b)) <==> StrLe(b, a)
    decreases |a|
  {
    if |a| > 0 && |b| > 0 {
      StrKeyTail(a);
      StrKeyTail(b);
      if a[0] == b[0] {
        StrKeyDescReverses(a[1..], b[1..]);
      }
    }
  }

  /** A string key followed by more components: distinct strings decide on their own. */
  lemma {:induction false} StrKeyThenRest(a: string, b: string, x: seq<int>, y: seq<int>)
    requires a != b
    ensures LexLe(StrKey(a) + x, StrKey(b) + y) == StrLe(a, b)
    decreases |a|
  {
    if |a| > 0 && |b| > 0 && a[0] == b[0] {
      assert a[1..] != b[1..] by {
        assert a == [a[0]] + a[1..] && b == [b[0]] + b[1..];
      }
      StrKeyThenRest(a[1..], b[1..], x, y);
      StrKeyThenRestShared(a, b, x, y);
    } else {
      StrKeyThenRestDiffer(a, b, x, y);
    }
  }

  /** The step of `StrKeyThenRest` past a shared first character. */
  lemma StrKeyThenRestShared(a: string, b: string, x: seq<int>, y: seq<int>)
    requires |a| > 0 && |b| > 0 && a[0] == b[0]
    requires LexLe(StrKey(a[1..]) + x, StrKey(b[1..]) + y) == StrLe(a[1..], b[1..])
    ensures LexLe(StrKey(a) + x, StrKey(b) + y) == StrLe(a, b)
  {
    var h := [a[0] as int + 1];
    var ta, tb := StrKey(a[1..]), StrKey(b[1..]);
    StrKeyTail(a);
    StrKeyTail(b);
    assert StrKey(a) + x == h + (ta + x);
    assert StrKey(b) + y == h + (tb + y);
    LexLeSharedPrefix(h, ta + x, tb + y);
    LexLeSharedPrefix(h, ta, tb);
  }

  /** The case of `StrKeyThenRest` decided by the first key component. */
  lemma StrKeyThenRestDiffer(a: string, b: string, x: seq<int>, y: seq<int>)
    requires a != b && !(|a| > 0 && |b| > 0 && a[0] == b[0])
    ensures LexLe(StrKey(a) + x, StrKey(b) + y) == StrLe(a, b)
  {
    var ka, kb := StrKey(a), StrKey(b);
    assert (ka + x)[0] == ka[0] && (kb + y)[0] == kb[0];
    assert ka[0] != kb[0];
  }

  // ---------------------------------------------------------------- sorting

  ghost predicate SortedBy<T>(s: seq<T>, key: T -> seq<int>)
  {
    forall i, j :: 0 <= i < j < |s| ==> LexLe(key(s[i]), key(s[j]))
  }

  /** Places `x` before the first element whose key is not smaller, hence before its equals. */
  function Insert<T(!new)>(x: T, s: seq<T>, key: T -> seq<int>): (r: seq<T>)
    ensures |r| == |s| + 1
    ensures multiset(r) == multiset(s) + multiset{x}
    decreases |s|
  {
    if |s| == 0 then [x]
    else if LexLe(key(x), key(s[0])) then [x] + s
    else
      assert s == [s[0]] + s[1..];
      [s[0]] + Insert(x, s[1..], key)
  }

  lemma {:induction false} InsertSorted<T(!new)>(x: T, s: seq<T>, key: T -> seq<int>)
    requires SortedBy(s, key)
    ensures SortedBy(Insert(x, s, key), key)
    decreases |s|
  {
    if |s| > 0 {
      if LexLe(key(x), key(s[0])) {
        forall j | 0 <= j < |s|
          ensures LexLe(key(x), key(s[j]))
        {
          if j > 0 {
            LexLeTransitive(key(x), key(s[0]), key(s[j]));
          }
        }
        SortedCons(x, s, key);
      } else {
        LexLeTotal(key(x), key(s[0]));
        InsertSorted(x, s[1..], key);
        InsertLowerBound(s[0], x, s[1..], key);
        SortedCons(s[0], Insert(x, s[1..], key), key);
      }
    } else {
      SortedCons(x, s, key);
    }
  }

  /** A lower bound of `x` and of every element of `s` bounds every element after inserting `x`. */
  lemma {:induction false} InsertLowerBound<T(!new)>(y: T, x: T, s: seq<T>, key: T -> seq<int>)
    requires LexLe(key(y), key(x))
    requires forall j :: 0 <= j < |s| ==> LexLe(key(y), key(s[j]))
    ensures forall j :: 0 <= j < |Insert(x, s, key)| ==> LexLe(key(y), key(Insert(x, s, key)[j]))
    decreases |s|
  {
    if |s| > 0 && !LexLe(key(x), key(s[0])) {
      InsertLowerBound(y, x, s[1..], key);
      var t := Insert(x, s[1..], key);
      assert forall j :: 1 <= j < |t| + 1 ==> ([s[0]] + t)[j] == t[j - 1];
    }
  }

  /** Putting a lower bound in front of a sorted sequence keeps it sorted. */
  lemma SortedCons<T>(h: T, t: seq<T>, key: T -> seq<int>)
    requires SortedBy(t, key)
    requires forall j :: 0 <= j < |t| ==> LexLe(key(h), key(t[j]))
    ensures SortedBy([h] + t, key)
  {
    var r := [h] + t;
    forall i, j | 0 <= i < j < |r|
      ensures LexLe(key(r[i]), key(r[j]))
    {
      assert r[j] == t[j - 1];
      if i > 0 {
        assert r[i] == t[i - 1];
      }
    }
  }

  /** Stable sort by key. */
  function SortBy<T(!new)>(s: seq<T>, key: T -> seq<int>): (r: seq<T>)
    ensures |r| == |s|
    ensures multiset(r) == multiset(s)
    ensures SortedBy(r, key)
    decreases |s|
  {
    if |s| == 0 then []
    else
      var t := SortBy(s[1..], key);
      InsertSorted(s[0], t, key);
      MultisetCons(s);
      Insert(s[0], t, key)
  }

  lemma MultisetCons<T>(s: seq<T>)
    requires |s| > 0
    ensures multiset(s) == multiset(s[1..]) + multiset{s[0]}
  {
    assert s == [s[0]] + s[1..];
  }

  /** Inserting `x` adds it to the elements of its own key, ahead of them, and leaves every other key's elements alone. */
  lemma {:induction false} InsertWithKey<T(!new)>(x: T, s: seq<T>, key: T -> seq<int>, k: seq<int>)
    ensures WithKey(Insert(x, s, key), key, k) == (if key(x) == k then [x] else []) + WithKey(s, key, k)
    decreases |s|
  {
    if |s| == 0 || LexLe(key(x), key(s[0])) {
      assert ([x] + s)[1..] == s;
    } else {
      InsertWithKey(x, s[1..], key, k);
      LexLeReflexive(key(x));
      InsertWithKeyPast(x, s, key, k);
    }
  }

  /** The step of `InsertWithKey` past a head with a smaller key. */
  lemma InsertWithKeyPast<T(!new)>(x: T, s: seq<T>, key: T -> seq<int>, k: seq<int>)
    requires |s| > 0 && key(s[0]) != key(x)
    requires Insert(x, s, key) == [s[0]] + Insert(x, s[1..], key)
    requires WithKey(Insert(x, s[1..], key), key, k) == (if key(x) == k then [x] else []) + WithKey(s[1..], key, k)
    ensures WithKey(Insert(x, s, key), key, k) == (if key(x) == k then [x] else []) + WithKey(s, key, k)
  {
    var t := Insert(x, s[1..], key);
    assert ([s[0]] + t)[1..] == t;
  }

  lemma WithKeyNone<T(!new)>(s: seq<T>, key: T -> seq<int>, k: seq<int>)
    requires forall j :: 0 <= j < |s| ==> key(s[j]) != k
    ensures WithKey(s, key, k) == []
  {
  }

  lemma {:induction false} WithKeyConcat<T(!new)>(a: seq<T>, b: seq<T>, key: T -> seq<int>, k: seq<int>)
    ensures WithKey(a + b, key, k) == WithKey(a, key, k) + WithKey(b, key, k)
    decreases |a|
  {
    if |a| == 0 {
      assert a + b == b;
    } else {
      assert (a + b)[1..] == a[1..] + b;
      WithKeyConcat(a[1..], b, key, k);
    }
  }

  /**
   * Stability: for every key, the elements carrying it come out in their input order.
   * Together with `SortedBy` and the multiset equation this pins the output down.
   */
  lemma {:induction false} SortByStable<T(!new)>(s: seq<T>, key: T -> seq<int>, k: seq<int>)
    ensures WithKey(SortBy(s, key), key, k) == WithKey(s, key, k)
    decreases |s|
  {
    if |s| > 0 {
      SortByStable(s[1..], key, k);
      InsertWithKey(s[0], SortBy(s[1..], key), key, k);
    }
  }

  /** The first element of a sorted sequence has the least key. */
  lemma SortedHead<T>(s: seq<T>, key: T -> seq<int>, i: int)
    requires SortedBy(s, key) && 0 < i < |s|
    ensures LexLe(key(s[0]), key(s[i]))
  {
  }

  /** A filter of a sorted sequence is sorted: it keeps a subsequence. */
  lemma {:induction false} FilterSorted<T(!new)>(s: seq<T>, p: T -> bool, key: T -> seq<int>)
    requires SortedBy(s, key)
    ensures SortedBy(Filter(s, p), key)
    decreases |s|
  {
    if |s| > 0 {
      FilterSorted(s[1..], p, key);
      var t := Filter(s[1..], p);
      if p(s[0]) {
        forall j | 0 <= j < |t|
          ensures LexLe(key(s[0]), key(t[j]))
        {
          assert t[j] in s[1..];
          var m :| 0 <= m < |s[1..]| && s[1..][m] == t[j];
          assert s[m + 1] == t[j];
        }
      }
    }
  }

  /** Two sorted arrangements of the same elements under a separating key start alike. */
  lemma SortedSameHead<T(!new)>(a: seq<T>, b: seq<T>, key: T -> seq<int>)
    requires |a| > 0 && SortedBy(a, key) && SortedBy(b, key) && multiset(a) == multiset(b)
    requires forall x, y :: x in a && y in a && key(x) == key(y) ==> x == y
    ensures |b| > 0 && a[0] == b[0]
  {
    assert a[0] in multiset(b) && b[0] in multiset(a);
    var j :| 0 <= j < |b| && b[j] == a[0];
    var i :| 0 <= i < |a| && a[i] == b[0];
    if i > 0 {
      assert LexLe(key(a[0]), key(a[i]));
    } else {
      LexLeReflexive(key(a[0]));
    }
    if j > 0 {
      assert LexLe(key(b[0]), key(b[j]));
    } else {
      LexLeReflexive(key(b[0]));
    }
    LexLeAntisymmetric(key(a[0]), key(b[0]));
  }

  lemma MultisetTail<T>(a: seq<T>, b: seq<T>)
    requires |a| > 0 && |b| > 0 && a[0] == b[0] && multiset(a) == multiset(b)
    ensures multiset(a[1..]) == multiset(b[1..])
  {
    assert a == [a[0]] + a[1..] && b == [b[0]] + b[1..];
    assert multiset(a[1..]) == multiset(a) - multiset{a[0]};
    assert multiset(b[1..]) == multiset(b) - multiset{b[0]};
  }

  lemma SortedTail<T>(a: seq<T>, key: T -> seq<int>)
    requires |a| > 0 && SortedBy(a, key)
    ensures SortedBy(a[1..], key)
  {
    assert forall i :: 0 <= i < |a| - 1 ==> a[1..][i] == a[i + 1];
  }

  /**
   * A key that tells elements apart fixes the sorted order: two sorted arrangements of the
   * same elements are the same sequence.
   */
  lemma {:induction false} SortedUnique<T(!new)>(a: seq<T>, b: seq<T>, key: T -> seq<int>)
    requires SortedBy(a, key) && SortedBy(b, key) && multiset(a) == multiset(b)
    requires forall x, y :: x in a && y in a && key(x) == key(y) ==> x == y
    ensures a == b
    decreases |a|
  {
    if |a| == 0 {
      assert |b| == |multiset(b)| == 0;
    } else {
      SortedSameHead(a, b, key);
      MultisetTail(a, b);
      SortedTail(a, key);
      SortedTail(b, key);
      forall x, y | x in a[1..] && y in a[1..] && key(x) == key(y)
        ensures x == y
      {
        assert x in a && y in a;
      }
      SortedUnique(a[1..], b[1..], key);
    }
  }

  /** The elements with one key, taken from a sorted sequence, are sorted. */
  lemma {:induction false} WithKeySorted<T(!new), K>(s: seq<T>, group: T -> K, k: K, key: T -> seq<int>)
    requires SortedBy(s, key)
    ensures SortedBy(WithKey(s, group, k), key)
    decreases |s|
  {
    if |s| > 0 {
      SortedTail(s, key);
      WithKeySorted(s[1..], group, k, key);
      var t := WithKey(s[1..], group, k);
      if group(s[0]) == k {
        forall j | 0 <= j < |t|
          ensures LexLe(key(s[0]), key(t[j]))
        {
          WithKeyMembers(s[1..], group, k, t[j]);
          var m :| 0 <= m < |s[1..]| && s[1..][m] == t[j];
          assert s[m + 1] == t[j];
        }
      }
    }
  }
}
