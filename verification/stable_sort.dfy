/**
 * `Array.prototype.sort` with a numeric comparator `(a, b) => key(a) - key(b)`
 * (ascending) or `key(b) - key(a)` (descending). ECMAScript requires the sort
 * to be stable, so elements with equal keys keep their relative order; the
 * model is an insertion sort, and its contract is exactly that: ordered,
 * a permutation, and stable.
 */
module StableSort {
  import opened Sequences

  datatype Order = Ascending | Descending

  /** `a` may come before `b` in order `o`. */
  predicate InOrder(o: Order, a: int, b: int) {
    match o
    case Ascending => a <= b
    case Descending => a >= b
  }

  /** Every earlier element may come before every later one. */
  predicate SortedBy<T>(s: seq<T>, key: T -> int, o: Order) {
    forall i, j :: 0 <= i < j < |s| ==> InOrder(o, key(s[i]), key(s[j]))
  }

  /** The elements of `s` whose key is `k`, in the order they have in `s`. */
  function WithKey<T>(s: seq<T>, key: T -> int, k: int): (r: seq<T>)
    ensures |r| <= |s|
    ensures forall i :: 0 <= i < |r| ==> key(r[i]) == k
  {
    Filter(s, x => key(x) == k)
  }

  /** The sort is stable: for every key, the elements with that key appear in the same order. */
  ghost predicate StableFor<T>(r: seq<T>, s: seq<T>, key: T -> int) {
    forall k :: WithKey(r, key, k) == WithKey(s, key, k)
  }

  lemma WithKeyAppend<T>(a: seq<T>, b: seq<T>, key: T -> int, k: int)
    ensures WithKey(a + b, key, k) == WithKey(a, key, k) + WithKey(b, key, k)
  {
    FilterAppend(a, b, x => key(x) == k);
  }

  /** Two adjacent elements with different keys can be swapped without changing any WithKey. */
  lemma {:induction false} SwapDistinctKeys<T>(x: T, y: T, rest: seq<T>, key: T -> int, k: int)
    requires key(x) != key(y)
    ensures WithKey([x, y] + rest, key, k) == WithKey([y, x] + rest, key, k)
  {
    WithKeyAppend([x, y], rest, key, k);
    WithKeyAppend([y, x], rest, key, k);
    assert [x] + [y] == [x, y] && [y] + [x] == [y, x];
    WithKeyAppend([x], [y], key, k);
    WithKeyAppend([y], [x], key, k);
    WithKeySingle(x, key, k);
    WithKeySingle(y, key, k);
  }

  lemma WithKeySingle<T>(x: T, key: T -> int, k: int)
    ensures WithKey([x], key, k) == if key(x) == k then [x] else []
  {
    assert [x][1..] == [];
  }

  /** Inserts `x` before the first element it may precede, i.e. after every element that must precede it. */
  function Insert<T>(x: T, s: seq<T>, key: T -> int, o: Order): (r: seq<T>)
    ensures |r| == |s| + 1
    ensures r[0] == x || (|s| > 0 && r[0] == s[0])
    decreases |s|
  {
    if |s| == 0 then [x]
    else if InOrder(o, key(x), key(s[0])) then [x] + s
    else [s[0]] + Insert(x, s[1..], key, o)
  }

  lemma {:induction false} InsertElements<T>(x: T, s: seq<T>, key: T -> int, o: Order)
    ensures multiset(Insert(x, s, key, o)) == multiset(s) + multiset{x}
    decreases |s|
  {
    if |s| > 0 && !InOrder(o, key(x), key(s[0])) {
      InsertElements(x, s[1..], key, o);
      assert s == [s[0]] + s[1..];
    }
  }

  lemma {:induction false} InsertSorted<T>(x: T, s: seq<T>, key: T -> int, o: Order)
    requires SortedBy(s, key, o)
    ensures SortedBy(Insert(x, s, key, o), key, o)
    decreases |s|
  {
    if |s| > 0 && !InOrder(o, key(x), key(s[0])) {
      var t := Insert(x, s[1..], key, o);
      InsertSorted(x, s[1..], key, o);
      InsertElements(x, s[1..], key, o);
      var r := [s[0]] + t;
      assert r == Insert(x, s, key, o);
      forall j | 0 < j < |r|
        ensures InOrder(o, key(r[0]), key(r[j]))
      {
        assert r[j] == t[j - 1];
        assert t[j - 1] in multiset(t);
        if t[j - 1] != x {
          assert t[j - 1] in multiset(s[1..]);
          var m :| 0 <= m < |s[1..]| && s[1..][m] == t[j - 1];
          assert s[1..][m] == s[m + 1];
        }
      }
    }
  }

  lemma {:induction false} InsertStable<T>(x: T, s: seq<T>, key: T -> int, o: Order, k: int)
    ensures WithKey(Insert(x, s, key, o), key, k) == WithKey([x] + s, key, k)
    decreases |s|
  {
    if |s| > 0 && !InOrder(o, key(x), key(s[0])) {
      var t := Insert(x, s[1..], key, o);
      InsertStable(x, s[1..], key, o, k);
      WithKeyAppend([s[0]], t, key, k);
      WithKeyAppend([s[0]], [x] + s[1..], key, k);
      assert [s[0]] + ([x] + s[1..]) == [s[0], x] + s[1..];
      SwapDistinctKeys(s[0], x, s[1..], key, k);
      assert [x, s[0]] + s[1..] == [x] + s;
    }
  }

  /** Stable insertion sort: ordered, a permutation of `s`, and equal keys keep their order. */
  function Sort<T(==)>(s: seq<T>, key: T -> int, o: Order): (r: seq<T>)
    ensures SortedBy(r, key, o)
    ensures multiset(r) == multiset(s)
    ensures |r| == |s|
    ensures StableFor(r, s, key)
    decreases |s|
  {
    if |s| == 0 then
      []
    else
      var t := Sort(s[1..], key, o);
      var r := Insert(s[0], t, key, o);
      InsertSorted(s[0], t, key, o);
      InsertElements(s[0], t, key, o);
      assert s == [s[0]] + s[1..];
      assert StableFor(r, s, key) by {
        forall k
          ensures WithKey(r, key, k) == WithKey(s, key, k)
        {
          InsertStable(s[0], t, key, o, k);
          WithKeyAppend([s[0]], t, key, k);
          WithKeyAppend([s[0]], s[1..], key, k);
        }
      }
      r
  }

  /**
   * A stable sort has only one possible result: any ordered sequence that
   * keeps every key's elements in their original order is `Sort(s)`.
   */
  lemma {:induction false} SortUnique<T>(r: seq<T>, s: seq<T>, key: T -> int, o: Order)
    requires SortedBy(r, key, o)
    requires StableFor(r, s, key)
    requires multiset(r) == multiset(s)
    ensures r == Sort(s, key, o)
  {
    var q := Sort(s, key, o);
    SortedStableEqual(r, q, key, o);
  }

  /** Sequences with the same elements per key are empty together. */
  lemma NonEmptyTogether<T>(a: seq<T>, b: seq<T>, key: T -> int)
    requires forall k :: WithKey(a, key, k) == WithKey(b, key, k)
    ensures |a| > 0 ==> |b| > 0
  {
    if |a| > 0 {
      WithKeyHead(a, key);
      assert |WithKey(b, key, key(a[0]))| > 0;
    }
  }

  /** Two ordered sequences with the same elements per key start with the same key. */
  lemma HeadKeysAgree<T>(a: seq<T>, b: seq<T>, key: T -> int, o: Order)
    requires SortedBy(a, key, o) && SortedBy(b, key, o)
    requires |a| > 0 && |b| > 0
    requires forall k :: WithKey(a, key, k) == WithKey(b, key, k)
    ensures key(a[0]) == key(b[0])
  {
    var ka, kb := key(a[0]), key(b[0]);
    WithKeyHead(a, key);
    WithKeyHead(b, key);
    assert |WithKey(b, key, ka)| > 0;
    WithKeyMember(b, key, ka);
    var j :| 0 <= j < |b| && key(b[j]) == ka;
    assert |WithKey(a, key, kb)| > 0;
    WithKeyMember(a, key, kb);
    var i :| 0 <= i < |a| && key(a[i]) == kb;
    assert InOrder(o, kb, ka) by {
      if j > 0 {
        assert InOrder(o, key(b[0]), key(b[j]));
      }
    }
    assert InOrder(o, ka, kb) by {
      if i > 0 {
        assert InOrder(o, key(a[0]), key(a[i]));
      }
    }
  }

  /** Two ordered sequences with the same elements per key are equal. */
  lemma {:induction false} SortedStableEqual<T>(a: seq<T>, b: seq<T>, key: T -> int, o: Order)
    requires SortedBy(a, key, o) && SortedBy(b, key, o)
    requires forall k :: WithKey(a, key, k) == WithKey(b, key, k)
    ensures a == b
    decreases |a| + |b|
  {
    NonEmptyTogether(a, b, key);
    NonEmptyTogether(b, a, key);
    if |a| > 0 {
      HeadKeysAgree(a, b, key, o);
      var ka := key(a[0]);
      WithKeyHead(a, key);
      WithKeyHead(b, key);
      assert a[0] == b[0] by {
        assert WithKey(a, key, ka)[0] == a[0];
        assert WithKey(b, key, ka)[0] == b[0];
      }
      forall k
        ensures WithKey(a[1..], key, k) == WithKey(b[1..], key, k)
      {
        if ka == k {
          assert WithKey(a[1..], key, k) == WithKey(a, key, k)[1..];
          assert WithKey(b[1..], key, k) == WithKey(b, key, k)[1..];
        } else {
          assert WithKey(a[1..], key, k) == WithKey(a, key, k);
          assert WithKey(b[1..], key, k) == WithKey(b, key, k);
        }
      }
      SortedStableEqual(a[1..], b[1..], key, o);
      assert a == [a[0]] + a[1..] && b == [b[0]] + b[1..];
    }
  }

  lemma WithKeyHead<T>(s: seq<T>, key: T -> int)
    requires |s| > 0
    ensures WithKey(s, key, key(s[0])) == [s[0]] + WithKey(s[1..], key, key(s[0]))
  {
  }

  /** WithKey(s, k) is non-empty exactly when some element of `s` has key `k`. */
  lemma {:induction false} WithKeyMember<T>(s: seq<T>, key: T -> int, k: int)
    ensures |WithKey(s, key, k)| > 0 <==> exists j :: 0 <= j < |s| && key(s[j]) == k
    decreases |s|
  {
    if |s| > 0 {
      WithKeyMember(s[1..], key, k);
      if key(s[0]) != k {
        assert forall j :: 1 <= j < |s| ==> s[j] == s[1..][j - 1];
      } else {
        assert key(s[0]) == k;
      }
    }
  }
}
