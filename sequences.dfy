/** The list operations the Hough stages borrow from LINQ: `Where` with an
    index, and `GroupBy(key).Select(g => g.First())`, which keeps the first
    element of every key in order of first appearance. */
module Sequences {

  /** The elements of `s[..n]` at the indices `keep` accepts, in their order. */
  function Where<T>(s: seq<T>, keep: int -> bool, n: nat): (r: seq<T>)
    requires n <= |s|
    ensures |r| <= n
    decreases n
  {
    if n == 0 then [] else Where(s, keep, n - 1) + (if keep(n - 1) then [s[n - 1]] else [])
  }

  /** The indices below `n` that `keep` accepts, in increasing order. */
  function Kept(keep: int -> bool, n: nat): (r: seq<int>)
    ensures forall k :: 0 <= k < |r| ==> 0 <= r[k] < n && keep(r[k])
    ensures forall k1, k2 :: 0 <= k1 < k2 < |r| ==> r[k1] < r[k2]
    ensures forall i :: 0 <= i < n && keep(i) ==> i in r
    decreases n
  {
    if n == 0 then [] else Kept(keep, n - 1) + (if keep(n - 1) then [n - 1] else [])
  }

  /** `Where` picks exactly the elements at the kept indices: the result is the
      subsequence of `s[..n]` that `keep` selects, order preserved. */
  lemma {:induction false} WhereAt<T>(s: seq<T>, keep: int -> bool, n: nat)
    requires n <= |s|
    ensures |Where(s, keep, n)| == |Kept(keep, n)|
    ensures forall k :: 0 <= k < |Kept(keep, n)| ==> Where(s, keep, n)[k] == s[Kept(keep, n)[k]]
    decreases n
  {
    if n > 0 {
      WhereAt(s, keep, n - 1);
    }
  }

  /** No element before index `i` has the key of `s[i]`. */
  predicate IsFirst<T, K(==)>(s: seq<T>, key: T -> K, i: int)
    requires 0 <= i < |s|
  {
    forall j :: 0 <= j < i ==> key(s[j]) != key(s[i])
  }

  /** `GroupBy(key).Select(g => g.First())`: the first element of each key, in
      order of first appearance. */
  function FirstPerKey<T, K(==)>(s: seq<T>, key: T -> K): (r: seq<T>)
    ensures |r| <= |s|
  {
    Where(s, i => 0 <= i < |s| && IsFirst(s, key, i), |s|)
  }

  /** The kept elements have pairwise distinct keys. */
  lemma FirstPerKeyDistinct<T, K>(s: seq<T>, key: T -> K)
    ensures forall k1, k2 :: 0 <= k1 < k2 < |FirstPerKey(s, key)| ==>
      key(FirstPerKey(s, key)[k1]) != key(FirstPerKey(s, key)[k2])
  {
    var keep := i => 0 <= i < |s| && IsFirst(s, key, i);
    WhereAt(s, keep, |s|);
    var idx := Kept(keep, |s|);
    forall k1, k2 | 0 <= k1 < k2 < |idx|
      ensures key(s[idx[k1]]) != key(s[idx[k2]])
    {
      assert keep(idx[k2]);
    }
  }

  /** The first element with the key of `s[i]` sits at or before `i`. */
  lemma {:induction false} FirstOccurrence<T, K>(s: seq<T>, key: T -> K, i: int) returns (j: int)
    requires 0 <= i < |s|
    ensures 0 <= j <= i && key(s[j]) == key(s[i]) && IsFirst(s, key, j)
    decreases i
  {
    if IsFirst(s, key, i) {
      j := i;
    } else {
      var m :| 0 <= m < i && key(s[m]) == key(s[i]);
      j := FirstOccurrence(s, key, m);
    }
  }

  /** Every key of `s` is kept, and what is kept is the first element of its key:
      `FirstPerKey` is the subsequence of `s` at the first occurrence of each key. */
  lemma FirstPerKeyComplete<T, K>(s: seq<T>, key: T -> K, i: int)
    requires 0 <= i < |s|
    ensures exists k :: 0 <= k < |FirstPerKey(s, key)| && key(FirstPerKey(s, key)[k]) == key(s[i])
  {
    var keep := i => 0 <= i < |s| && IsFirst(s, key, i);
    var j := FirstOccurrence(s, key, i);
    WhereAt(s, keep, |s|);
    var idx := Kept(keep, |s|);
    assert keep(j);
    var k :| 0 <= k < |idx| && idx[k] == j;
    assert FirstPerKey(s, key)[k] == s[j];
  }

  /** Every kept element is the first of its key in `s`, and the kept elements
      keep their order in `s`. */
  lemma FirstPerKeyIsSubsequence<T, K>(s: seq<T>, key: T -> K)
    ensures var idx := Kept(i => 0 <= i < |s| && IsFirst(s, key, i), |s|);
      |idx| == |FirstPerKey(s, key)| &&
      (forall k :: 0 <= k < |idx| ==> 0 <= idx[k] < |s| && IsFirst(s, key, idx[k]) && FirstPerKey(s, key)[k] == s[idx[k]]) &&
      (forall k1, k2 :: 0 <= k1 < k2 < |idx| ==> idx[k1] < idx[k2])
  {
    WhereAt(s, i => 0 <= i < |s| && IsFirst(s, key, i), |s|);
  }

  /** `Where` only drops elements: everything it returns comes from `s`. */
  lemma {:induction false} WhereSubset<T>(s: seq<T>, keep: int -> bool, n: nat, x: T)
    requires n <= |s| && x in Where(s, keep, n)
    ensures x in s
    decreases n
  {
    var prev := Where(s, keep, n - 1);
    assert Where(s, keep, n) == prev + (if keep(n - 1) then [s[n - 1]] else []);
    if x in prev {
      WhereSubset(s, keep, n - 1, x);
    }
  }

  /** `Where` with an index test that accepts every index returns the prefix unchanged. */
  lemma {:induction false} WhereAll<T>(s: seq<T>, keep: int -> bool, n: nat)
    requires n <= |s| && forall i :: 0 <= i < n ==> keep(i)
    ensures Where(s, keep, n) == s[..n]
    decreases n
  {
    if n > 0 {
      WhereAll(s, keep, n - 1);
      assert s[..n] == s[..n - 1] + [s[n - 1]];
    }
  }

  /** Everything `FirstPerKey` returns comes from `s`. */
  lemma FirstPerKeySubset<T, K>(s: seq<T>, key: T -> K, x: T)
    requires x in FirstPerKey(s, key)
    ensures x in s
  {
    WhereSubset(s, i => 0 <= i < |s| && IsFirst(s, key, i), |s|, x);
  }
}
