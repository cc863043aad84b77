/**
 * `Array.prototype.map` and `Array.prototype.filter` on sequences, with the
 * facts about them that the rest of the model uses: a filter keeps exactly
 * the matching elements, in order, and a map of a permutation is a
 * permutation.
 */
module Sequences {

  /** `a` is `b` with some elements left out, the rest in the same order. */
  predicate IsSubsequence<T(==)>(a: seq<T>, b: seq<T>)
    decreases |b|
  {
    if |a| == 0 then true
    else if |b| == 0 then false
    else if a[0] == b[0] then IsSubsequence(a[1..], b[1..])
    else IsSubsequence(a, b[1..])
  }

  /** `s.filter(keep)`. */
  function Filter<T>(s: seq<T>, keep: T -> bool): (r: seq<T>)
    ensures |r| <= |s|
    ensures forall i :: 0 <= i < |r| ==> keep(r[i])
    ensures forall x :: x in r ==> x in s
    decreases |s|
  {
    if |s| == 0 then []
    else (if keep(s[0]) then [s[0]] else []) + Filter(s[1..], keep)
  }

  /** A filter keeps every copy of a matching element and no copy of any other. */
  lemma {:induction false} FilterCounts<T>(s: seq<T>, keep: T -> bool)
    ensures forall x :: multiset(Filter(s, keep))[x] == if keep(x) then multiset(s)[x] else 0
    decreases |s|
  {
    if |s| > 0 {
      FilterCounts(s[1..], keep);
      assert s == [s[0]] + s[1..];
      assert multiset(Filter(s, keep)) == multiset(if keep(s[0]) then [s[0]] else []) + multiset(Filter(s[1..], keep));
    }
  }

  lemma {:induction false} FilterIsSubsequence<T>(s: seq<T>, keep: T -> bool)
    ensures IsSubsequence(Filter(s, keep), s)
    decreases |s|
  {
    if |s| > 0 {
      FilterIsSubsequence(s[1..], keep);
      if keep(s[0]) {
        assert Filter(s, keep) == [s[0]] + Filter(s[1..], keep);
        assert Filter(s, keep)[1..] == Filter(s[1..], keep);
      } else {
        assert Filter(s, keep) == Filter(s[1..], keep);
        var f := Filter(s[1..], keep);
        if |f| > 0 {
          assert f[0] in f;
          assert keep(f[0]);
          SubsequenceSkip(f, s);
        }
      }
    }
  }

  /** A subsequence of `s[1..]` is a subsequence of `s`. */
  lemma {:induction false} SubsequenceSkip<T>(a: seq<T>, s: seq<T>)
    requires |s| > 0 && IsSubsequence(a, s[1..])
    ensures IsSubsequence(a, s)
    decreases |s|, 0
  {
    if |a| > 0 && a[0] == s[0] {
      SubsequenceTail(a, s[1..]);
    }
  }

  /** Dropping the first element of a subsequence keeps it a subsequence. */
  lemma {:induction false} SubsequenceTail<T>(a: seq<T>, s: seq<T>)
    requires |a| > 0 && IsSubsequence(a, s)
    ensures IsSubsequence(a[1..], s)
    decreases |s|, 1
  {
    if a[0] != s[0] {
      SubsequenceTail(a, s[1..]);
    }
    SubsequenceSkip(a[1..], s);
  }

  lemma {:induction false} FilterAppend<T>(a: seq<T>, b: seq<T>, keep: T -> bool)
    ensures Filter(a + b, keep) == Filter(a, keep) + Filter(b, keep)
    decreases |a|
  {
    if |a| == 0 {
      assert a + b == b;
    } else {
      FilterAppend(a[1..], b, keep);
      assert (a + b)[0] == a[0];
      assert (a + b)[1..] == a[1..] + b;
    }
  }

  /** Filters by two conditions that agree everywhere are the same. */
  lemma {:induction false} FilterSame<T>(s: seq<T>, f: T -> bool, g: T -> bool)
    requires forall x :: f(x) == g(x)
    ensures Filter(s, f) == Filter(s, g)
    decreases |s|
  {
    if |s| > 0 {
      FilterSame(s[1..], f, g);
    }
  }

  /** Filtering keeps everything when everything passes. */
  lemma {:induction false} FilterAll<T>(s: seq<T>, keep: T -> bool)
    requires forall i :: 0 <= i < |s| ==> keep(s[i])
    ensures Filter(s, keep) == s
    decreases |s|
  {
    if |s| > 0 {
      FilterAll(s[1..], keep);
      assert s == [s[0]] + s[1..];
    }
  }

  /** Two filters in a row are one filter by both conditions. */
  lemma {:induction false} FilterFilter<T>(s: seq<T>, first: T -> bool, second: T -> bool, both: T -> bool)
    requires forall x :: both(x) == (first(x) && second(x))
    ensures Filter(Filter(s, first), second) == Filter(s, both)
    decreases |s|
  {
    if |s| > 0 {
      FilterFilter(s[1..], first, second, both);
      FilterAppend(if first(s[0]) then [s[0]] else [], Filter(s[1..], first), second);
    }
  }

  /** `s.map(f)`. */
  function Map<T, U>(s: seq<T>, f: T -> U): (r: seq<U>)
    ensures |r| == |s|
    ensures forall i :: 0 <= i < |s| ==> r[i] == f(s[i])
  {
    seq(|s|, i requires 0 <= i < |s| => f(s[i]))
  }

  /** Mapping a sequence with a new first element. */
  lemma MapCons<T, U>(x: T, s: seq<T>, f: T -> U)
    ensures Map([x] + s, f) == [f(x)] + Map(s, f)
  {
  }

  lemma RemoveAt<T>(s: seq<T>, i: nat)
    requires i < |s|
    ensures multiset(s) == multiset(s[..i] + s[i + 1..]) + multiset{s[i]}
  {
    assert s == s[..i] + [s[i]] + s[i + 1..];
  }

  /** Removing the same element from two permutations of each other leaves two permutations of each other. */
  lemma PermutationWithout<T>(a: seq<T>, b: seq<T>, i: nat)
    requires multiset(a) == multiset(b)
    requires |a| > 0 && i < |b| && b[i] == a[0]
    ensures multiset(a[1..]) == multiset(b[..i] + b[i + 1..])
  {
    RemoveAt(a, 0);
    RemoveAt(b, i);
    assert a[..0] + a[1..] == a[1..];
    var x, z := multiset(a[1..]), multiset(b[..i] + b[i + 1..]);
    assert x + multiset{a[0]} == z + multiset{a[0]};
    forall e ensures x[e] == z[e] {
      assert (x + multiset{a[0]})[e] == (z + multiset{a[0]})[e];
    }
  }

  lemma MapRemoveAt<T, U>(s: seq<T>, i: nat, f: T -> U)
    requires i < |s|
    ensures multiset(Map(s, f)) == multiset(Map(s[..i] + s[i + 1..], f)) + multiset{f(s[i])}
  {
    var m := Map(s, f);
    RemoveAt(m, i);
    assert m[..i] + m[i + 1..] == Map(s[..i] + s[i + 1..], f);
  }

  lemma MapHead<T, U>(s: seq<T>, f: T -> U)
    requires |s| > 0
    ensures multiset(Map(s, f)) == multiset(Map(s[1..], f)) + multiset{f(s[0])}
  {
    var m := Map(s, f);
    assert m == [f(s[0])] + Map(s[1..], f);
  }

  /** Mapping two permutations of each other gives two permutations of each other. */
  lemma {:induction false} MapPermutation<T, U>(a: seq<T>, b: seq<T>, f: T -> U)
    requires multiset(a) == multiset(b)
    ensures multiset(Map(a, f)) == multiset(Map(b, f))
    decreases |a|
  {
    if |a| == 0 {
      assert |b| == |multiset(b)| == 0;
    } else {
      var x := a[0];
      assert x in multiset(b);
      var i :| 0 <= i < |b| && b[i] == x;
      var rest := b[..i] + b[i + 1..];
      PermutationWithout(a, b, i);
      MapPermutation(a[1..], rest, f);
      MapHead(a, f);
      MapRemoveAt(b, i, f);
    }
  }
}
