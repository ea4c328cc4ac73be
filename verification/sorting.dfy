/** A deterministic insertion sort by an integer key. It stands for Go's
    `sort.Slice`, which is not stable: the two agree whenever the keys are
    distinct. */
module Sorting {

  /** `s` is ascending by `key`. */
  ghost predicate SortedBy<T>(s: seq<T>, key: T -> int) {
    forall i, j :: 0 <= i < j < |s| ==> key(s[i]) <= key(s[j])
  }

  /** No two elements of `s` share a key. */
  ghost predicate DistinctKeys<T>(s: seq<T>, key: T -> int) {
    forall i, j :: 0 <= i < j < |s| ==> key(s[i]) != key(s[j])
  }

  /** Inserts `x` into an ascending sequence, before the first element
      whose key is not smaller. */
  function InsertBy<T>(x: T, s: seq<T>, key: T -> int): (r: seq<T>)
    requires SortedBy(s, key)
    ensures |r| == |s| + 1
    ensures multiset(r) == multiset(s) + multiset{x}
    ensures SortedBy(r, key)
  {
    if |s| == 0 then [x]
    else if key(x) <= key(s[0]) then [x] + s
    else
      var tail := s[1..];
      SortedTail(s, key);
      var rest := InsertBy(x, tail, key);
      assert s == [s[0]] + tail;
      assert forall i :: 0 <= i < |rest| ==> key(s[0]) <= key(rest[i]) by {
        forall i | 0 <= i < |rest| ensures key(s[0]) <= key(rest[i]) {
          FirstIsLeast(s, x, rest, i, key);
        }
      }
      var r := [s[0]] + rest;
      assert forall i :: 0 < i < |r| ==> r[i] == rest[i - 1];
      assert multiset(r) == multiset{s[0]} + multiset(rest);
      r
  }

  /** Every element of `s[1..] + [x]`, in any order, has a key no smaller
      than `s[0]`'s when `x`'s is larger. */
  lemma FirstIsLeast<T>(s: seq<T>, x: T, rest: seq<T>, i: nat, key: T -> int)
    requires |s| > 0 && SortedBy(s, key) && key(s[0]) < key(x)
    requires multiset(rest) == multiset(s[1..]) + multiset{x} && i < |rest|
    ensures key(s[0]) <= key(rest[i])
  {
    assert rest[i] in multiset(rest);
    if rest[i] != x {
      assert rest[i] in multiset(s[1..]);
      var j :| 0 <= j < |s[1..]| && s[1..][j] == rest[i];
      assert s[1..][j] == s[j + 1];
    }
  }

  /** A permutation of `s` that is ascending by `key`. */
  function SortBy<T>(s: seq<T>, key: T -> int): (r: seq<T>)
    ensures |r| == |s|
    ensures multiset(r) == multiset(s)
    ensures SortedBy(r, key)
  {
    if |s| == 0 then []
    else
      var front := s[..|s| - 1];
      assert s == front + [s[|s| - 1]];
      InsertBy(s[|s| - 1], SortBy(front, key), key)
  }

  /** Two ascending permutations of one another with pairwise distinct keys
      are equal: an unstable sort and this one give the same result. */
  lemma {:induction false} SortedPermutationUnique<T>(a: seq<T>, b: seq<T>, key: T -> int)
    requires SortedBy(a, key) && SortedBy(b, key)
    requires multiset(a) == multiset(b)
    requires DistinctKeys(a, key)
    ensures a == b
    decreases |a|
  {
    var n := |a|;
    assert n == |b| by { assert |a| == |multiset(a)| == |multiset(b)| == |b|; }
    if n > 0 {
      SortedHeadsEqual(a, b, key);
      var a', b' := a[1..], b[1..];
      assert multiset(a') == multiset(b') by {
        DropHead(a);
        DropHead(b);
      }
      SortedTail(a, key);
      SortedTail(b, key);
      SortedPermutationUnique(a', b', key);
      assert a == [a[0]] + a';
      assert b == [b[0]] + b';
    }
  }

  /** The first elements of two non-empty ascending permutations of one
      another with distinct keys are the same minimum. */
  lemma SortedHeadsEqual<T>(a: seq<T>, b: seq<T>, key: T -> int)
    requires SortedBy(a, key) && SortedBy(b, key)
    requires multiset(a) == multiset(b) && |a| > 0 && |b| > 0
    requires DistinctKeys(a, key)
    ensures a[0] == b[0]
  {
    assert a[0] in multiset(b);
    assert b[0] in multiset(a);
    var i :| 0 <= i < |b| && b[i] == a[0];
    var j :| 0 <= j < |a| && a[j] == b[0];
    var ka, kb := key(a[0]), key(b[0]);
    assert kb <= ka by { assert key(b[0]) <= key(b[i]); }
    assert ka <= kb by { assert key(a[0]) <= key(a[j]); }
    assert key(a[j]) == key(a[0]);
  }

  /** The rest of an ascending sequence with distinct keys is one too. */
  lemma SortedTail<T>(s: seq<T>, key: T -> int)
    requires |s| > 0
    ensures SortedBy(s, key) ==> SortedBy(s[1..], key)
    ensures DistinctKeys(s, key) ==> DistinctKeys(s[1..], key)
  {
    var t := s[1..];
    assert forall i :: 0 <= i < |t| ==> t[i] == s[i + 1];
  }

  /** Dropping the first element takes it out of the multiset. */
  lemma DropHead<T>(s: seq<T>)
    requires |s| > 0
    ensures multiset(s[1..]) == multiset(s) - multiset{s[0]}
  {
    assert s == [s[0]] + s[1..];
  }

  /** Occurrences of one value at two positions count twice. */
  lemma CountTwice<T>(s: seq<T>, i: nat, j: nat)
    requires i < j < |s| && s[i] == s[j]
    ensures multiset(s)[s[i]] >= 2
  {
    assert s == s[..i] + [s[i]] + s[i + 1..j] + [s[j]] + s[j + 1..];
  }

  /** A value found at no other position occurs once. */
  lemma CountOnce<T>(s: seq<T>, i: nat)
    requires i < |s|
    requires forall k :: 0 <= k < |s| && k != i ==> s[k] != s[i]
    ensures multiset(s)[s[i]] == 1
  {
    assert s == s[..i] + [s[i]] + s[i + 1..];
    assert s[i] !in s[..i];
    assert s[i] !in s[i + 1..];
  }

  /** Distinct keys survive any permutation. */
  lemma PermutationKeepsDistinctKeys<T>(a: seq<T>, b: seq<T>, key: T -> int)
    requires multiset(a) == multiset(b)
    requires DistinctKeys(a, key)
    ensures DistinctKeys(b, key)
  {
    forall i, j | 0 <= i < j < |b| ensures key(b[i]) != key(b[j]) {
      assert b[i] in multiset(a);
      assert b[j] in multiset(a);
      var i' :| 0 <= i' < |a| && a[i'] == b[i];
      var j' :| 0 <= j' < |a| && a[j'] == b[j];
      if key(b[i]) == key(b[j]) {
        assert i' == j';
        CountTwice(b, i, j);
        CountOnce(a, i');
        assert false;
      }
    }
  }
}
