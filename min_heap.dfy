/**
 * The array-backed binary min-heap of transport/data_structs.py.
 * Elements are pairs whose first component is the priority; only that
 * component is ever compared, so ties are broken arbitrarily.
 */
module Heap {
  import opened Wrappers

  /** A heap element: the tuple `(key, ...)` of the source, with the key
      split from the rest. */
  datatype Entry<T> = Entry(key: int, payload: T)

  /** `_parent`: Python's floor division, which agrees with Dafny's for a
      positive divisor. */
  function Parent(i: int): (p: int)
    ensures i > 0 ==> 0 <= p < i && (i == 2 * p + 1 || i == 2 * p + 2)
  {
    (i - 1) / 2
  }

  /** `_left`: the first child, whose parent is `i`. */
  function Left(i: int): (c: int)
    ensures Parent(c) == i
  {
    2 * i + 1
  }

  /** `_right`: the second child, next to the first. */
  function Right(i: int): (c: int)
    ensures Parent(c) == i && c == Left(i) + 1
  {
    2 * i + 2
  }

  /** The heap invariant: no element has a smaller key than its parent. */
  ghost predicate IsHeap<T>(s: seq<Entry<T>>) {
    forall k :: 0 < k < |s| ==> s[Parent(k)].key <= s[k].key
  }

  /** The state inside `_sift_up`: every parent link holds except the one
      between `i` and its parent, and `i`'s parent is no larger than `i`'s
      children. */
  ghost predicate BrokenAbove<T>(s: seq<Entry<T>>, i: int) {
    && 0 <= i < |s|
    && (forall k :: 0 < k < |s| && k != i ==> s[Parent(k)].key <= s[k].key)
    && (forall k :: 0 < k < |s| && Parent(k) == i && i > 0 ==> s[Parent(i)].key <= s[k].key)
  }

  /** The state inside `_sift_down`: every parent link holds except those
      from `i` to its children, and `i`'s parent is no larger than `i`'s
      children. */
  ghost predicate BrokenBelow<T>(s: seq<Entry<T>>, i: int) {
    && 0 <= i < |s|
    && (forall k :: 0 < k < |s| && Parent(k) != i ==> s[Parent(k)].key <= s[k].key)
    && (forall k :: 0 < k < |s| && Parent(k) == i && i > 0 ==> s[Parent(i)].key <= s[k].key)
  }

  /** The root of a heap has the smallest key. */
  lemma {:induction false} RootIsMinimum<T>(s: seq<Entry<T>>, k: int)
    requires IsHeap(s)
    requires 0 <= k < |s|
    ensures s[0].key <= s[k].key
    decreases k
  {
    if k > 0 {
      RootIsMinimum(s, Parent(k));
    }
  }

  /** One step of `_sift_down`: swapping `i` with its smallest child `c`
      moves the break down to `c`. */
  lemma SwapDownStep<T>(s: seq<Entry<T>>, i: int, c: int)
    requires BrokenBelow(s, i)
    requires i < c < |s| && Parent(c) == i && s[c].key < s[i].key
    requires Left(i) < |s| ==> s[c].key <= s[Left(i)].key
    requires Right(i) < |s| ==> s[c].key <= s[Right(i)].key
    ensures BrokenBelow(s[i := s[c]][c := s[i]], c)
  {
    assert forall k :: 0 < k < |s| && Parent(k) == i ==> k == Left(i) || k == Right(i);
    var t := s[i := s[c]][c := s[i]];
    forall k | 0 < k < |t| && Parent(k) != c
      ensures t[Parent(k)].key <= t[k].key
    {
      if k == c {
      } else if Parent(k) == i {
      } else if k == i {
      } else {
        assert t[k] == s[k];
      }
    }
  }

  /** When no child of `i` is smaller than `i`, `_sift_down` is done. */
  lemma BelowSettled<T>(s: seq<Entry<T>>, i: int)
    requires BrokenBelow(s, i)
    requires Left(i) < |s| ==> s[i].key <= s[Left(i)].key
    requires Right(i) < |s| ==> s[i].key <= s[Right(i)].key
    ensures IsHeap(s)
  {
    forall k | 0 < k < |s| ensures s[Parent(k)].key <= s[k].key {
      if Parent(k) == i {
        assert k == Left(i) || k == Right(i);
      }
    }
  }

  ghost predicate SortedByKey<T>(s: seq<Entry<T>>) {
    forall i, j :: 0 <= i < j < |s| ==> s[i].key <= s[j].key
  }

  class MinHeap<T> {
    /** `self._a`, the backing list. */
    var a: seq<Entry<T>>

    ghost predicate Valid()
      reads this
    {
      IsHeap(a)
    }

    constructor ()
      ensures Valid() && a == []
    {
      a := [];
    }

    /** `empty`. */
    method IsEmpty() returns (b: bool)
      ensures b <==> multiset(a) == multiset{}
    {
      b := |a| == 0;
    }

    /** `peek`: `None` on an empty heap, else the root, a minimum-key element. */
    method Peek() returns (r: Option<Entry<T>>)
      requires Valid()
      ensures r.None? <==> |a| == 0
      ensures r.Some? ==> r.value == a[0] && r.value in multiset(a)
      ensures r.Some? ==> forall k :: 0 <= k < |a| ==> r.value.key <= a[k].key
    {
      if |a| == 0 {
        r := None;
      } else {
        r := Some(a[0]);
        forall k | 0 <= k < |a| ensures a[0].key <= a[k].key {
          RootIsMinimum(a, k);
        }
      }
    }

    /** `_swap`. */
    method Swap(i: int, j: int)
      requires 0 <= i < |a| && 0 <= j < |a|
      modifies this
      ensures a == old(a)[i := old(a)[j]][j := old(a)[i]]
      ensures multiset(a) == old(multiset(a))
    {
      a := a[i := a[j]][j := a[i]];
    }

    /** `push`: append, then restore the heap invariant upwards. */
    method Push(item: Entry<T>)
      requires Valid()
      modifies this
      ensures Valid()
      ensures |a| == old(|a|) + 1
      ensures multiset(a) == old(multiset(a)) + multiset{item}
    {
      a := a + [item];
      SiftUp(|a| - 1);
    }

    /** `pop`: `None` models the `IndexError` raised on an empty heap;
        otherwise the old root is removed and returned. */
    method Pop() returns (r: Option<Entry<T>>)
      requires Valid()
      modifies this
      ensures Valid()
      ensures old(|a|) == 0 ==> r.None? && a == old(a)
      ensures old(|a|) > 0 ==> r.Some? && r.value == old(a[0]) && |a| == old(|a|) - 1
      ensures r.Some? ==> r.value in old(multiset(a))
      ensures r.Some? ==> multiset(a) == old(multiset(a)) - multiset{r.value}
      ensures r.Some? ==> forall k :: 0 <= k < old(|a|) ==> r.value.key <= old(a[k].key)
    {
      if |a| == 0 {
        return None;
      }
      ghost var before := a;
      forall k | 0 <= k < |a| ensures a[0].key <= a[k].key {
        RootIsMinimum(a, k);
      }
      Swap(0, |a| - 1);
      var n := |a| - 1;
      var x := a[n];
      assert a == a[..n] + [x];
      a := a[..n];
      if |a| > 0 {
        SiftDown(0);
      }
      r := Some(x);
    }

    /** `_sift_up`: swap `i` with its parent while it is smaller. */
    method SiftUp(i0: int)
      requires BrokenAbove(a, i0)
      modifies this
      ensures Valid()
      ensures |a| == old(|a|) && multiset(a) == old(multiset(a))
    {
      var i := i0;
      while i > 0
        invariant BrokenAbove(a, i)
        invariant |a| == old(|a|) && multiset(a) == old(multiset(a))
        decreases i
      {
        var p := Parent(i);
        if a[i].key < a[p].key {
          Swap(i, p);
          i := p;
        } else {
          break;
        }
      }
    }

    /** `_sift_down`: swap `i` with its smaller child while that child is
        smaller. */
    method SiftDown(i0: int)
      requires BrokenBelow(a, i0)
      modifies this
      ensures Valid()
      ensures |a| == old(|a|) && multiset(a) == old(multiset(a))
    {
      var n := |a|;
      var i := i0;
      while true
        invariant BrokenBelow(a, i)
        invariant |a| == n && multiset(a) == old(multiset(a))
        decreases n - i
      {
        var l, r := Left(i), Right(i);
        var s := i;
        if l < n && a[l].key < a[s].key {
          s := l;
        }
        if r < n && a[r].key < a[s].key {
          s := r;
        }
        if s != i {
          SwapDownStep(a, i, s);
          Swap(i, s);
          i := s;
        } else {
          BelowSettled(a, i);
          break;
        }
      }
    }
  }

  /** Pops until empty: the keys come out in non-decreasing order and the
      popped elements are exactly the ones that were in the heap. */
  method Drain<T>(h: MinHeap<T>) returns (out: seq<Entry<T>>)
    requires h.Valid()
    modifies h
    ensures h.Valid() && h.a == []
    ensures SortedByKey(out)
    ensures |out| == old(|h.a|) && multiset(out) == old(multiset(h.a))
  {
    out := [];
    while |h.a| > 0
      invariant h.Valid()
      invariant SortedByKey(out)
      invariant |out| + |h.a| == old(|h.a|)
      invariant multiset(out) + multiset(h.a) == old(multiset(h.a))
      invariant out != [] ==> forall k :: 0 <= k < |h.a| ==> out[|out| - 1].key <= h.a[k].key
      decreases |h.a|
    {
      ghost var rest := h.a;
      var r := h.Pop();
      var x := r.value;
      forall k | 0 <= k < |h.a| ensures x.key <= h.a[k].key {
        assert h.a[k] in multiset(h.a);
        assert h.a[k] in multiset(rest);
        var j :| 0 <= j < |rest| && rest[j] == h.a[k];
      }
      out := out + [x];
    }
  }

  /** Pushes every item into a fresh heap, then pops until it is empty:
      exactly as many pops as pushes, keys in non-decreasing order. */
  method PushAllThenDrain<T>(items: seq<Entry<T>>) returns (out: seq<Entry<T>>)
    ensures |out| == |items|
    ensures multiset(out) == multiset(items)
    ensures SortedByKey(out)
  {
    var h := new MinHeap<T>();
    var i := 0;
    while i < |items|
      invariant 0 <= i <= |items|
      invariant h.Valid()
      invariant multiset(h.a) == multiset(items[..i]) && |h.a| == i
    {
      assert items[..i + 1] == items[..i] + [items[i]];
      h.Push(items[i]);
      i := i + 1;
    }
    assert items[..i] == items;
    out := Drain(h);
  }
}
