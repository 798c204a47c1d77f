/**
 * Stable sorting by a key, the behaviour of ECMAScript's `Array.prototype.sort`
 * (stable since ES2019) when the comparator is a difference of keys.
 *
 * Keys are lexicographic pairs of reals so that a single definition covers the
 * numeric keys of the course sorts and the (semester, collation) key of the grades
 * table. An abstract `localeCompare` is represented by a collation key of type `real`:
 * every total preorder on a countable set such as the strings has such a key.
 */
module StableSort {

  datatype SortKey = SortKey(major: real, minor: real)

  /** Lexicographic order on keys: a total preorder (in fact a total order). */
  predicate KeyLe(a: SortKey, b: SortKey) {
    a.major < b.major || (a.major == b.major && a.minor <= b.minor)
  }

  /** Key `a` sorts strictly before key `b`. */
  predicate KeyLt(a: SortKey, b: SortKey) {
    !KeyLe(b, a)
  }

  lemma KeyLeTotal(a: SortKey, b: SortKey, c: SortKey)
    ensures KeyLe(a, a)
    ensures KeyLe(a, b) || KeyLe(b, a)
    ensures KeyLe(a, b) && KeyLe(b, c) ==> KeyLe(a, c)
    ensures KeyLe(a, b) && KeyLe(b, a) ==> a == b
  {
  }

  ghost predicate SortedBy<T>(s: seq<T>, key: T -> SortKey) {
    forall i, j :: 0 <= i < j < |s| ==> KeyLe(key(s[i]), key(s[j]))
  }

  /** The elements whose key is `k`, in their order in `s`. */
  function WithKey<T>(s: seq<T>, key: T -> SortKey, k: SortKey): seq<T> {
    if |s| == 0 then []
    else (if key(s[0]) == k then [s[0]] else []) + WithKey(s[1..], key, k)
  }

  /** Equal keys appear in the same relative order in `r` as in `s`. */
  ghost predicate StableWrt<T>(r: seq<T>, s: seq<T>, key: T -> SortKey) {
    forall k :: WithKey(r, key, k) == WithKey(s, key, k)
  }

  lemma {:induction false} WithKeyConcat<T>(a: seq<T>, b: seq<T>, key: T -> SortKey, k: SortKey)
    ensures WithKey(a + b, key, k) == WithKey(a, key, k) + WithKey(b, key, k)
  {
    if |a| == 0 {
      assert a + b == b;
    } else {
      assert (a + b)[0] == a[0];
      assert (a + b)[1..] == a[1..] + b;
      WithKeyConcat(a[1..], b, key, k);
    }
  }

  /** Places `x` in front of the first element whose key is strictly greater. */
  function Insert<T>(s: seq<T>, x: T, key: T -> SortKey): seq<T> {
    if |s| == 0 then [x]
    else if KeyLt(key(x), key(s[0])) then [x] + s
    else [s[0]] + Insert(s[1..], x, key)
  }

  /** Insertion sort: each element in turn is inserted after its equals. */
  function Sort<T>(s: seq<T>, key: T -> SortKey): seq<T> {
    if |s| == 0 then [] else Insert(Sort(s[..|s| - 1], key), s[|s| - 1], key)
  }

  lemma {:induction false} InsertPermutes<T>(s: seq<T>, x: T, key: T -> SortKey)
    ensures multiset(Insert(s, x, key)) == multiset(s) + multiset{x}
  {
    if |s| > 0 && !KeyLt(key(x), key(s[0])) {
      assert s == [s[0]] + s[1..];
      InsertPermutes(s[1..], x, key);
    }
  }

  lemma {:induction false} InsertSorted<T>(s: seq<T>, x: T, key: T -> SortKey)
    requires SortedBy(s, key)
    ensures SortedBy(Insert(s, x, key), key)
  {
    if |s| > 0 && !KeyLt(key(x), key(s[0])) {
      var t := Insert(s[1..], x, key);
      InsertSorted(s[1..], x, key);
      HeadBelowInsert(s, x, key);
      var r := [s[0]] + t;
      assert Insert(s, x, key) == r;
      forall i, j | 0 <= i < j < |r| ensures KeyLe(key(r[i]), key(r[j])) {
        assert r[j] == t[j - 1];
        if i > 0 {
          assert r[i] == t[i - 1];
        }
      }
    }
  }

  /** When `x` goes past the head of a sorted `s`, that head is at most everything after it. */
  lemma HeadBelowInsert<T>(s: seq<T>, x: T, key: T -> SortKey)
    requires SortedBy(s, key) && |s| > 0 && !KeyLt(key(x), key(s[0]))
    ensures forall j :: 0 <= j < |Insert(s[1..], x, key)| ==> KeyLe(key(s[0]), key(Insert(s[1..], x, key)[j]))
  {
    var tail := s[1..];
    var t := Insert(tail, x, key);
    InsertPermutes(tail, x, key);
    forall j | 0 <= j < |t| ensures KeyLe(key(s[0]), key(t[j])) {
      assert t[j] in multiset(t);
      if t[j] != x {
        assert t[j] in multiset(tail);
        assert t[j] in tail;
      }
    }
  }

  lemma {:induction false} InsertWithKey<T>(s: seq<T>, x: T, key: T -> SortKey, k: SortKey)
    requires SortedBy(s, key)
    ensures WithKey(Insert(s, x, key), key, k) == WithKey(s, key, k) + (if key(x) == k then [x] else [])
  {
    var g: seq<T> := if key(x) == k then [x] else [];
    if |s| == 0 {
      assert WithKey([x], key, k) == g + WithKey([x][1..], key, k);
    } else {
      var f: seq<T> := if key(s[0]) == k then [s[0]] else [];
      assert WithKey(s, key, k) == f + WithKey(s[1..], key, k);
      if KeyLt(key(x), key(s[0])) {
        var r := [x] + s;
        assert r[0] == x && r[1..] == s;
        assert WithKey(r, key, k) == g + WithKey(s, key, k);
        if key(x) == k {
          NoneWithKey(s, key, k);
        }
      } else {
        var t := Insert(s[1..], x, key);
        var r := [s[0]] + t;
        assert r[0] == s[0] && r[1..] == t;
        assert WithKey(r, key, k) == f + WithKey(t, key, k);
        assert SortedBy(s[1..], key);
        InsertWithKey(s[1..], x, key, k);
        assert WithKey(t, key, k) == WithKey(s[1..], key, k) + g;
      }
    }
  }

  /** In a sorted sequence whose first key is greater than `k`, no element has key `k`. */
  lemma {:induction false} NoneWithKey<T>(s: seq<T>, key: T -> SortKey, k: SortKey)
    requires SortedBy(s, key)
    requires |s| > 0 && KeyLt(k, key(s[0]))
    ensures WithKey(s, key, k) == []
  {
    if |s| > 1 {
      assert KeyLe(key(s[0]), key(s[1]));
      NoneWithKey(s[1..], key, k);
    }
  }

  /**
   * The sort yields a permutation of its input, ordered by key, in which elements
   * with equal keys keep their input order.
   */
  lemma {:induction false} SortProperties<T>(s: seq<T>, key: T -> SortKey)
    ensures multiset(Sort(s, key)) == multiset(s)
    ensures SortedBy(Sort(s, key), key)
    ensures StableWrt(Sort(s, key), s, key)
  {
    if |s| > 0 {
      var init, last := s[..|s| - 1], s[|s| - 1];
      assert s == init + [last];
      assert s[..|s| - 1] == init;
      SortProperties(init, key);
      InsertPermutes(Sort(init, key), last, key);
      InsertSorted(Sort(init, key), last, key);
      forall k ensures WithKey(Sort(s, key), key, k) == WithKey(s, key, k) {
        InsertWithKey(Sort(init, key), last, key, k);
        WithKeyConcat(init, [last], key, k);
      }
    }
  }

  /** Insertion sort as a loop over the input, computing the same sequence as `Sort`. */
  method InsertionSort<T>(s: seq<T>, key: T -> SortKey) returns (r: seq<T>)
    ensures r == Sort(s, key)
    ensures multiset(r) == multiset(s)
    ensures SortedBy(r, key)
    ensures StableWrt(r, s, key)
  {
    r := [];
    var i := 0;
    while i < |s|
      invariant 0 <= i <= |s|
      invariant r == Sort(s[..i], key)
    {
      assert s[..i + 1][..i] == s[..i];
      r := Insert(r, s[i], key);
      i := i + 1;
    }
    assert s[..|s|] == s;
    SortProperties(s, key);
  }
}
