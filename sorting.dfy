/**
 * Python's `list.sort(key=...)` and its prefix slices, on integer keys.
 * The sort is modelled as a stable insertion sort; only sortedness and the
 * permutation property are relied upon.
 */
module Sorting {

  ghost predicate SortedBy<T>(s: seq<T>, key: T -> int) {
    forall i, j :: 0 <= i < j < |s| ==> key(s[i]) <= key(s[j])
  }

  /** Inserts `x` before the first element whose key is not smaller than
      its own, that is, ahead of the elements with an equal key. `SortBy`
      inserts the head of a list into the sorted tail, so equal keys keep
      their input order. */
  function InsertBy<T>(x: T, s: seq<T>, key: T -> int): (r: seq<T>)
    requires SortedBy(s, key)
    ensures |r| == |s| + 1
    ensures multiset(r) == multiset(s) + multiset{x}
    ensures SortedBy(r, key)
  {
    if s == [] || key(x) <= key(s[0]) then [x] + s
    else
      var rest := InsertBy(x, s[1..], key);
      InsertAfterHead(x, s, key, rest);
      [s[0]] + rest
  }

  /** Putting the head of `s` before `x` inserted into the tail keeps the
      order when `x` does not go first. */
  lemma InsertAfterHead<T>(x: T, s: seq<T>, key: T -> int, rest: seq<T>)
    requires SortedBy(s, key) && s != [] && key(s[0]) < key(x)
    requires multiset(rest) == multiset(s[1..]) + multiset{x} && SortedBy(rest, key)
    ensures multiset([s[0]] + rest) == multiset(s) + multiset{x}
    ensures SortedBy([s[0]] + rest, key)
  {
    assert s == [s[0]] + s[1..];
    forall k | 0 <= k < |rest| ensures key(s[0]) <= key(rest[k]) {
      assert rest[k] in multiset(s[1..]) + multiset{x};
      if rest[k] != x {
        assert rest[k] in s[1..];
      }
    }
    var r := [s[0]] + rest;
    forall i, j | 0 <= i < j < |r| ensures key(r[i]) <= key(r[j]) {
      if i > 0 {
        assert r[i] == rest[i - 1] && r[j] == rest[j - 1];
      } else {
        assert r[j] == rest[j - 1];
      }
    }
  }

  /** `sorted(s, key=key)`: a permutation of `s` in non-decreasing key order. */
  function SortBy<T>(s: seq<T>, key: T -> int): (r: seq<T>)
    ensures |r| == |s|
    ensures multiset(r) == multiset(s)
    ensures SortedBy(r, key)
  {
    if s == [] then []
    else
      assert s == [s[0]] + s[1..];
      InsertBy(s[0], SortBy(s[1..], key), key)
  }

  /** The length of Python's slice `s[:count]` on a list of length `n`: a
      negative `count` counts from the end. */
  function SliceLength(n: nat, count: int): (len: nat)
    ensures len <= n
    ensures count >= 0 ==> len <= count && (len < count ==> len == n)
    ensures count < 0 ==> len == if n + count < 0 then 0 else n + count
  {
    if count >= 0 then (if count < n then count else n)
    else if n + count < 0 then 0 else n + count
  }

  /** An element of a sorted sequence that is missing from a prefix is no
      smaller than anything in that prefix. */
  lemma {:induction false} BeyondPrefix<T>(s: seq<T>, key: T -> int, n: nat, x: T)
    requires SortedBy(s, key) && n <= |s|
    requires x in s && x !in s[..n]
    ensures forall i :: 0 <= i < n ==> key(s[i]) <= key(x)
  {
    var j :| 0 <= j < |s| && s[j] == x;
    assert j >= n;
  }

  /** An element that occurs at two positions occurs twice in the multiset. */
  lemma {:induction false} TwiceInMultiset<T>(s: seq<T>, i: int, j: int)
    requires 0 <= i < j < |s| && s[i] == s[j]
    ensures multiset(s)[s[i]] >= 2
  {
    assert s == s[..j] + [s[j]] + s[j + 1..];
    assert s[..j][i] == s[i];
    assert s[i] in multiset(s[..j]);
  }
}
