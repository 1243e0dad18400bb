/**
 * Order-preserving filtering, first-occurrence de-duplication, grouping by a key and
 * flattening: the building blocks of the site's list pages. The partition lemmas are
 * what "every entry appears in exactly one group" means.
 */
module Seqs {

  /** The elements satisfying `p`, in their original order. */
  function Filter<T(!new)>(s: seq<T>, p: T -> bool): (r: seq<T>)
    ensures |r| <= |s|
    ensures forall x :: x in r <==> x in s && p(x)
    ensures multiset(r) <= multiset(s)
    ensures forall i :: 0 <= i < |r| ==> p(r[i])
  {
    if |s| == 0 then []
    else
      assert s == [s[0]] + s[1..];
      if p(s[0]) then [s[0]] + Filter(s[1..], p) else Filter(s[1..], p)
  }

  /** One step of a filter: the head, when it qualifies, then the filtered tail. */
  lemma FilterCons<T(!new)>(s: seq<T>, p: T -> bool)
    requires |s| > 0
    ensures Filter(s, p) == (if p(s[0]) then [s[0]] else []) + Filter(s[1..], p)
  {
  }

  /** Filtering distributes over concatenation: kept elements keep their relative order. */
  lemma {:induction false} FilterConcat<T(!new)>(a: seq<T>, b: seq<T>, p: T -> bool)
    ensures Filter(a + b, p) == Filter(a, p) + Filter(b, p)
    decreases |a|
  {
    if |a| == 0 {
      assert a + b == b;
    } else {
      assert (a + b)[1..] == a[1..] + b;
      FilterConcat(a[1..], b, p);
    }
  }

  /** A filter and its complement share the elements out between them. */
  lemma {:induction false} FilterComplement<T(!new)>(s: seq<T>, p: T -> bool, q: T -> bool)
    requires forall x :: q(x) == !p(x)
    ensures multiset(Filter(s, p)) + multiset(Filter(s, q)) == multiset(s)
    decreases |s|
  {
    if |s| > 0 {
      FilterComplement(s[1..], p, q);
      FilterComplementStep(s, p, q);
    }
  }

  lemma FilterComplementStep<T(!new)>(s: seq<T>, p: T -> bool, q: T -> bool)
    requires |s| > 0 && q(s[0]) == !p(s[0])
    requires multiset(Filter(s[1..], p)) + multiset(Filter(s[1..], q)) == multiset(s[1..])
    ensures multiset(Filter(s, p)) + multiset(Filter(s, q)) == multiset(s)
  {
    FilterCons(s, p);
    FilterCons(s, q);
    SplitHead(s, p(s[0]), Filter(s[1..], p), Filter(s[1..], q), Filter(s, p), Filter(s, q));
  }

  /** The head goes to exactly one side of a split; the tail's split is unchanged. */
  lemma SplitHead<T>(s: seq<T>, kept: bool, a: seq<T>, b: seq<T>, a': seq<T>, b': seq<T>)
    requires |s| > 0
    requires a' == (if kept then [s[0]] else []) + a && b' == (if kept then [] else [s[0]]) + b
    requires multiset(a) + multiset(b) == multiset(s[1..])
    ensures multiset(a') + multiset(b') == multiset(s)
  {
    assert s == [s[0]] + s[1..];
    assert multiset(s) == multiset{s[0]} + multiset(s[1..]);
    if kept {
      assert multiset(a') == multiset{s[0]} + multiset(a) && b' == b;
    } else {
      assert multiset(b') == multiset{s[0]} + multiset(b) && a' == a;
    }
  }

  /** A filter keeps everything exactly when every element qualifies. */
  lemma {:induction false} FilterAll<T(!new)>(s: seq<T>, p: T -> bool)
    requires forall i :: 0 <= i < |s| ==> p(s[i])
    ensures Filter(s, p) == s
    decreases |s|
  {
    if |s| > 0 {
      FilterAll(s[1..], p);
    }
  }

  /** The elements whose key is `k`, in order. */
  function WithKey<T(!new), K(==)>(s: seq<T>, key: T -> K, k: K): (r: seq<T>)
    ensures |r| <= |s|
    ensures forall i :: 0 <= i < |r| ==> key(r[i]) == k
  {
    if |s| == 0 then []
    else
      if key(s[0]) == k then [s[0]] + WithKey(s[1..], key, k) else WithKey(s[1..], key, k)
  }

  /** Exactly the elements of `s` with key `k` survive. */
  lemma {:induction false} WithKeyMembers<T(!new), K>(s: seq<T>, key: T -> K, k: K, x: T)
    ensures x in WithKey(s, key, k) <==> x in s && key(x) == k
    decreases |s|
  {
    if |s| > 0 {
      WithKeyMembers(s[1..], key, k, x);
      assert s == [s[0]] + s[1..];
    }
  }

  /** The elements whose key is not `k`, in order. */
  function WithoutKey<T(!new), K(==)>(s: seq<T>, key: T -> K, k: K): (r: seq<T>)
    ensures forall x :: x in r <==> x in s && key(x) != k
  {
    if |s| == 0 then []
    else if key(s[0]) != k then [s[0]] + WithoutKey(s[1..], key, k)
    else WithoutKey(s[1..], key, k)
  }

  lemma {:induction false} KeySplit<T(!new), K>(s: seq<T>, key: T -> K, k: K)
    ensures multiset(WithKey(s, key, k)) + multiset(WithoutKey(s, key, k)) == multiset(s)
    decreases |s|
  {
    if |s| > 0 {
      KeySplit(s[1..], key, k);
      assert s == [s[0]] + s[1..];
    }
  }

  lemma {:induction false} WithKeyAfterRemoval<T(!new), K>(s: seq<T>, key: T -> K, k: K, k': K)
    requires k != k'
    ensures WithKey(WithoutKey(s, key, k), key, k') == WithKey(s, key, k')
    decreases |s|
  {
    if |s| > 0 {
      WithKeyAfterRemoval(s[1..], key, k, k');
    }
  }

  predicate NoDup<T(==)>(s: seq<T>)
  {
    forall i, j :: 0 <= i < j < |s| ==> s[i] != s[j]
  }

  /** First occurrences only, in order of first appearance. */
  function Dedup<T(==,!new)>(s: seq<T>): (r: seq<T>)
    ensures NoDup(r)
    ensures forall x :: x in r <==> x in s
    decreases |s|
  {
    if |s| == 0 then []
    else
      var d := Dedup(s[..|s| - 1]);
      var last := s[|s| - 1];
      assert forall x :: x in s <==> x in s[..|s| - 1] || x == last by {
        assert s == s[..|s| - 1] + [last];
      }
      if last in d then d else d + [last]
  }

  function Flatten<T>(ss: seq<seq<T>>): seq<T>
  {
    if |ss| == 0 then [] else ss[0] + Flatten(ss[1..])
  }

  /** One group per key of `ks`, each holding the elements with that key in input order. */
  function GroupsBy<T(!new), K(==)>(s: seq<T>, key: T -> K, ks: seq<K>): (r: seq<seq<T>>)
    ensures |r| == |ks|
    ensures forall i :: 0 <= i < |ks| ==> r[i] == WithKey(s, key, ks[i])
  {
    if |ks| == 0 then [] else [WithKey(s, key, ks[0])] + GroupsBy(s, key, ks[1..])
  }

  /**
   * Grouping over distinct keys that cover every element is a partition: the groups,
   * concatenated, hold each element exactly as often as the input does.
   */
  lemma {:induction false} GroupsPartition<T(!new), K>(s: seq<T>, key: T -> K, ks: seq<K>)
    requires NoDup(ks)
    requires forall x :: x in s ==> key(x) in ks
    ensures multiset(Flatten(GroupsBy(s, key, ks))) == multiset(s)
    decreases |ks|
  {
    if |ks| > 0 {
      var k := ks[0];
      var rest := WithoutKey(s, key, k);
      var tail := ks[1..];
      assert forall x :: x in rest ==> key(x) in tail by {
        forall x | x in rest
          ensures key(x) in tail
        {
          assert key(x) in ks && key(x) != k;
        }
      }
      assert NoDup(tail);
      GroupsPartition(rest, key, tail);
      assert GroupsBy(s, key, tail) == GroupsBy(rest, key, tail) by {
        forall i | 0 <= i < |tail|
          ensures WithKey(s, key, tail[i]) == WithKey(rest, key, tail[i])
        {
          assert tail[i] == ks[i + 1] && ks[0] != ks[i + 1];
          WithKeyAfterRemoval(s, key, k, tail[i]);
        }
      }
      assert GroupsBy(s, key, ks)[1..] == GroupsBy(s, key, tail);
      KeySplit(s, key, k);
    }
  }

  /** Flattening lists that are pointwise permutations of each other gives permutations. */
  lemma {:induction false} FlattenPermuted<T>(a: seq<seq<T>>, b: seq<seq<T>>)
    requires |a| == |b| && forall i :: 0 <= i < |a| ==> multiset(a[i]) == multiset(b[i])
    ensures multiset(Flatten(a)) == multiset(Flatten(b))
    decreases |a|
  {
    if |a| > 0 {
      FlattenPermuted(a[1..], b[1..]);
      assert multiset(a[0]) == multiset(b[0]);
    }
  }

  /** The position of the first occurrence of `x`. */
  function IndexIn<T(==)>(s: seq<T>, x: T): (i: nat)
    requires x in s
    ensures i < |s| && s[i] == x && x !in s[..i]
  {
    if s[0] == x then 0
    else
      var i := IndexIn(s[1..], x) + 1;
      assert s[..i] == [s[0]] + s[1..][..i - 1];
      i
  }

  /** Appending leaves the first occurrence of an element already present where it was. */
  lemma IndexInSnoc<T>(s: seq<T>, y: T, x: T)
    requires x in s
    ensures IndexIn(s + [y], x) == IndexIn(s, x)
  {
    var i := IndexIn(s, x);
    var t := s + [y];
    assert t[..i] == s[..i] && t[i] == x;
  }

  /** `Dedup` lists the values in the order of their first occurrence. */
  lemma {:induction false} DedupOrder<T(!new)>(s: seq<T>, i: int, j: int)
    requires 0 <= i < j < |Dedup(s)|
    ensures Dedup(s)[i] in s && Dedup(s)[j] in s
    ensures IndexIn(s, Dedup(s)[i]) < IndexIn(s, Dedup(s)[j])
    decreases |s|
  {
    var p := s[..|s| - 1];
    var last := s[|s| - 1];
    var d := Dedup(p);
    assert s == p + [last];
    if j < |d| {
      DedupOrder(p, i, j);
      IndexInSnoc(p, last, d[i]);
      IndexInSnoc(p, last, d[j]);
    } else {
      assert last !in d && Dedup(s) == d + [last] && Dedup(s)[j] == last && Dedup(s)[i] == d[i];
      assert last !in p;
      IndexInSnoc(p, last, d[i]);
      assert s[..|p|] == p;
    }
  }

  /** A sequence of one repeated value de-duplicates to that value alone. */
  lemma {:induction false} DedupConstant<T(!new)>(s: seq<T>, x: T)
    requires |s| > 0 && forall i :: 0 <= i < |s| ==> s[i] == x
    ensures Dedup(s) == [x]
    decreases |s|
  {
    if |s| > 1 {
      DedupConstant(s[..|s| - 1], x);
    }
  }

  /** How many elements satisfy `p`. */
  function Count<T(!new)>(s: seq<T>, p: T -> bool): (n: nat)
    ensures n == |Filter(s, p)|
  {
    if |s| == 0 then 0 else (if p(s[0]) then 1 else 0) + Count(s[1..], p)
  }

  function Reverse<T(!new)>(s: seq<T>): (r: seq<T>)
    ensures |r| == |s|
    ensures forall i :: 0 <= i < |s| ==> r[i] == s[|s| - 1 - i]
  {
    seq(|s|, i requires 0 <= i < |s| => s[|s| - 1 - i])
  }

  lemma ReverseConcat<T(!new)>(a: seq<T>, b: seq<T>)
    ensures Reverse(a + b) == Reverse(b) + Reverse(a)
  {
  }

  /** Filtering commutes with reversal: walking the other way keeps the same elements in the other order. */
  lemma {:induction false} FilterReverse<T(!new)>(s: seq<T>, p: T -> bool)
    ensures Filter(Reverse(s), p) == Reverse(Filter(s, p))
    decreases |s|
  {
    if |s| > 0 {
      var t := s[1..];
      var h := if p(s[0]) then [s[0]] else [];
      calc {
        Filter(Reverse(s), p);
        { ReverseCons(s); }
        Filter(Reverse(t) + [s[0]], p);
        { FilterConcat(Reverse(t), [s[0]], p); }
        Filter(Reverse(t), p) + Filter([s[0]], p);
        { FilterReverse(t, p); FilterSingle(s[0], p); }
        Reverse(Filter(t, p)) + h;
        { ReverseConcat(h, Filter(t, p)); }
        Reverse(h + Filter(t, p));
      }
    }
  }

  lemma ReverseCons<T(!new)>(s: seq<T>)
    requires |s| > 0
    ensures Reverse(s) == Reverse(s[1..]) + [s[0]]
  {
  }

  lemma FilterSingle<T(!new)>(x: T, p: T -> bool)
    ensures Filter([x], p) == if p(x) then [x] else []
  {
  }

  /** Without duplicates every element occurs exactly once. */
  lemma {:induction false} NoDupCount<T(!new)>(s: seq<T>, x: T)
    requires NoDup(s)
    ensures multiset(s)[x] <= 1
    decreases |s|
  {
    if |s| > 0 {
      assert s == [s[0]] + s[1..];
      NoDupCount(s[1..], x);
      assert s[0] !in s[1..];
    }
  }

  /** A rearrangement of a duplicate-free sequence is duplicate-free. */
  lemma NoDupPermutation<T(!new)>(a: seq<T>, b: seq<T>)
    requires NoDup(a) && multiset(a) == multiset(b)
    ensures NoDup(b)
  {
    forall i, j | 0 <= i < j < |b|
      ensures b[i] != b[j]
    {
      if b[i] == b[j] {
        var x := b[i];
        assert b == b[..j] + [x] + b[j + 1..];
        assert x in b[..j];
        assert multiset(b)[x] >= 2;
        NoDupCount(a, x);
        assert false;
      }
    }
  }
}
