/** Sequence operations of `Array.prototype` and `String.prototype` the core uses. */
module Seqs {

  /** `indexOf`: the first position of `x`, or -1 when `x` does not occur. */
  function IndexOf<T(==)>(s: seq<T>, x: T): (r: int)
    ensures -1 <= r < |s|
    ensures r == -1 <==> x !in s
    ensures r >= 0 ==> s[r] == x && x !in s[..r]
  {
    if |s| == 0 then -1
    else if s[0] == x then 0
    else
      var k := IndexOf(s[1..], x);
      if k == -1 then -1
      else
        assert s[..k + 1] == [s[0]] + s[1..][..k];
        k + 1
  }

  /** Appending an element moves no first position, and a new element is found last. */
  lemma IndexOfAppend<T>(s: seq<T>, x: T, y: T)
    ensures y in s ==> IndexOf(s + [x], y) == IndexOf(s, y)
    ensures y !in s && y == x ==> IndexOf(s + [x], y) == |s|
  {
    var k := IndexOf(s + [x], y);
    if y in s {
      var m := IndexOf(s, y);
      assert (s + [x])[m] == y;
      assert (s + [x])[..m] == s[..m];
      assert k <= m;
      assert (s + [x])[..k] == s[..k];
    } else if y == x {
      assert (s + [x])[|s|] == y;
      assert (s + [x])[..|s|] == s;
    }
  }

  /** `a` is `b` with some elements removed, the rest kept in order. */
  ghost predicate IsSubsequence<T>(a: seq<T>, b: seq<T>)
    decreases |b|
  {
    |a| == 0 || (|b| > 0 && ((a[0] == b[0] && IsSubsequence(a[1..], b[1..])) || IsSubsequence(a, b[1..])))
  }

  /** `Array.prototype.filter`. */
  function Filter<T(!new)>(s: seq<T>, p: T -> bool): (r: seq<T>)
    ensures |r| <= |s|
    ensures IsSubsequence(r, s)
    ensures forall x :: x in r <==> x in s && p(x)
  {
    if |s| == 0 then []
    else
      var rest := Filter(s[1..], p);
      assert s == [s[0]] + s[1..];
      if p(s[0]) then [s[0]] + rest else rest
  }

  /** Filtering keeps every copy of an element that passes and no copy of one that fails. */
  lemma {:induction false} FilterCount<T(!new)>(s: seq<T>, p: T -> bool, x: T)
    ensures multiset(Filter(s, p))[x] == if p(x) then multiset(s)[x] else 0
  {
    if |s| > 0 {
      assert s == [s[0]] + s[1..];
      FilterCount(s[1..], p, x);
    }
  }

  lemma {:induction false} FilterConcat<T(!new)>(a: seq<T>, b: seq<T>, p: T -> bool)
    ensures Filter(a + b, p) == Filter(a, p) + Filter(b, p)
  {
    if |a| == 0 {
      assert a + b == b;
    } else {
      assert (a + b)[0] == a[0];
      assert (a + b)[1..] == a[1..] + b;
      FilterConcat(a[1..], b, p);
    }
  }

  /** A predicate every element meets keeps the whole sequence. */
  lemma {:induction false} FilterAll<T(!new)>(s: seq<T>, p: T -> bool)
    requires forall i :: 0 <= i < |s| ==> p(s[i])
    ensures Filter(s, p) == s
  {
    if |s| > 0 {
      FilterAll(s[1..], p);
    }
  }

  /** A filter keeps the whole sequence exactly when every element passes. */
  lemma {:induction false} FilterFull<T(!new)>(s: seq<T>, p: T -> bool)
    ensures |Filter(s, p)| == |s| <==> forall i :: 0 <= i < |s| ==> p(s[i])
  {
    if |s| > 0 {
      FilterFull(s[1..], p);
      assert forall i :: 1 <= i < |s| ==> s[i] == s[1..][i - 1];
    }
  }

  /** Filtering twice is filtering once by the conjunction. */
  lemma {:induction false} FilterFilter<T(!new)>(s: seq<T>, p: T -> bool, q: T -> bool, pq: T -> bool)
    requires forall x :: pq(x) == (p(x) && q(x))
    ensures Filter(Filter(s, p), q) == Filter(s, pq)
  {
    if |s| > 0 {
      FilterFilter(s[1..], p, q, pq);
    }
  }

  /** `needle` occurs in `hay` starting at `i`. */
  predicate OccursAt(hay: string, needle: string, i: nat) {
    i + |needle| <= |hay| && hay[i..i + |needle|] == needle
  }

  /** `String.prototype.includes`. */
  function Includes(hay: string, needle: string): (r: bool)
    ensures r <==> exists i: nat :: OccursAt(hay, needle, i)
    decreases |hay|
  {
    if |needle| <= |hay| && hay[..|needle|] == needle then
      assert OccursAt(hay, needle, 0);
      true
    else if |hay| == 0 then
      false
    else
      var r := Includes(hay[1..], needle);
      if r then
        var i: nat :| OccursAt(hay[1..], needle, i);
        assert OccursAt(hay, needle, i + 1);
        true
      else
        forall i: nat | OccursAt(hay, needle, i) ensures false {
          if i > 0 {
            assert OccursAt(hay[1..], needle, i - 1);
          }
        }
        false
  }

  /** The first index at or after `k` where `needle` occurs in `hay`, or -1. */
  function FindFrom(hay: string, needle: string, k: nat): (r: int)
    requires k <= |hay|
    ensures r == -1 || (k <= r && OccursAt(hay, needle, r))
    ensures r == -1 ==> forall j: nat :: k <= j ==> !OccursAt(hay, needle, j)
    ensures r >= 0 ==> forall j: nat :: k <= j < r ==> !OccursAt(hay, needle, j)
    decreases |hay| - k
  {
    if OccursAt(hay, needle, k) then k
    else if k == |hay| then -1
    else FindFrom(hay, needle, k + 1)
  }

  /** The first occurrence of `needle` in `hay`, or -1 (`String.prototype.indexOf`). */
  function FindFirst(hay: string, needle: string): int {
    FindFrom(hay, needle, 0)
  }

  /** An occurrence with none before it is the one `FindFirst` reports. */
  lemma FindFirstIs(hay: string, needle: string, i: nat)
    requires OccursAt(hay, needle, i)
    requires forall j: nat :: j < i ==> !OccursAt(hay, needle, j)
    ensures FindFirst(hay, needle) == i
  {
  }

  /** `FindFirst` finds something exactly when `needle` is included in `hay`. */
  lemma FindFirstAgreesWithIncludes(hay: string, needle: string)
    ensures FindFirst(hay, needle) >= 0 <==> Includes(hay, needle)
  {
    if FindFirst(hay, needle) >= 0 {
      assert OccursAt(hay, needle, FindFirst(hay, needle) as nat);
    }
  }

  /** The first index from `from` on where `hit` holds, or `n` when it holds nowhere before `n`. */
  function FirstHit(hit: nat -> bool, from: nat, n: nat): (k: nat)
    requires from <= n
    ensures from <= k <= n
    ensures hit(k) || k == n
    ensures forall q :: from <= q < k ==> !hit(q)
    decreases n - from
  {
    if from == n || hit(from) then from else FirstHit(hit, from + 1, n)
  }

  /**
   * `hay.replace(needle, replacement)` with a string pattern: only the first occurrence
   * is replaced, and a text without one comes back unchanged.
   */
  function ReplaceFirst(hay: string, needle: string, replacement: string): string {
    var i := FindFirst(hay, needle);
    if i < 0 then hay else hay[..i] + replacement + hay[i + |needle|..]
  }

  /** Taking the first element from one sequence and a copy of it from a permutation of it leaves permutations. */
  lemma RemoveMatched<T>(a: seq<T>, b: seq<T>, k: nat)
    requires multiset(a) == multiset(b) && |a| > 0 && k < |b| && b[k] == a[0]
    ensures multiset(a[1..]) == multiset(b[..k] + b[k + 1..])
  {
    var x, rest := a[0], b[..k] + b[k + 1..];
    assert a == [x] + a[1..];
    assert b == b[..k] + [x] + b[k + 1..];
    assert multiset(a) == multiset{x} + multiset(a[1..]);
    assert multiset(b) == multiset(b[..k]) + multiset{x} + multiset(b[k + 1..]);
    assert multiset(rest) == multiset(b[..k]) + multiset(b[k + 1..]);
    forall y ensures multiset(a[1..])[y] == multiset(rest)[y] {
      assert multiset(a)[y] == multiset(b)[y];
    }
  }
}
