/**
  Rust's `slice::sort_by_key`, which both core files call: a STABLE sort by an
  integer key. The library's algorithm is not part of this model; what it
  promises is: the result is sorted by the key, is a permutation of the input,
  and keeps elements with equal keys in their original order. The model below
  is a functional insertion sort with exactly those properties proved.
*/
module Sorting {

  /** `s` is non-decreasing under `key`. */
  ghost predicate SortedBy<T>(s: seq<T>, key: T -> int) {
    forall i, j :: 0 <= i < j < |s| ==> key(s[i]) <= key(s[j])
  }

  /** The elements of `s` whose key is `k`, in their order in `s`. */
  function WithKey<T>(s: seq<T>, k: int, key: T -> int): seq<T> {
    if s == [] then []
    else WithKey(s[..|s| - 1], k, key) + (if key(s[|s| - 1]) == k then [s[|s| - 1]] else [])
  }

  /**
    Where `x` goes in `s`: behind the last element whose key is not larger
    than its own, so every element after it has a larger key.
  */
  function InsertPos<T>(s: seq<T>, x: T, key: T -> int): (p: nat)
    ensures p <= |s|
    ensures p > 0 ==> key(s[p - 1]) <= key(x)
    ensures forall i :: p <= i < |s| ==> key(x) < key(s[i])
    decreases |s|
  {
    if s == [] || key(s[|s| - 1]) <= key(x) then |s|
    else InsertPos(s[..|s| - 1], x, key)
  }

  /** Dropping the last element keeps a sequence sorted. */
  lemma SortedPrefix<T>(s: seq<T>, key: T -> int)
    requires SortedBy(s, key) && s != []
    ensures SortedBy(s[..|s| - 1], key)
  {
    var init := s[..|s| - 1];
    forall i, j | 0 <= i < j < |init| ensures key(init[i]) <= key(init[j]) {
      assert key(s[i]) <= key(s[j]);
    }
  }

  /** Inserts `x` into `s` at `InsertPos`. */
  function Insert<T>(s: seq<T>, x: T, key: T -> int): (r: seq<T>)
    ensures |r| == |s| + 1
  {
    var p := InsertPos(s, x, key);
    s[..p] + [x] + s[p..]
  }

  /** Inserting into a sorted sequence keeps it sorted. */
  lemma InsertSorted<T>(s: seq<T>, x: T, key: T -> int)
    requires SortedBy(s, key)
    ensures SortedBy(Insert(s, x, key), key)
  {
    var p := InsertPos(s, x, key);
    var r := Insert(s, x, key);
    assert r == s[..p] + [x] + s[p..];
    forall i | 0 <= i < p ensures key(s[i]) <= key(x) {
      assert key(s[i]) <= key(s[p - 1]);
    }
    forall i, j | 0 <= i < j < |r| ensures key(r[i]) <= key(r[j]) {
      if j < p {
        assert r[i] == s[i] && r[j] == s[j];
      } else if j == p {
        assert r[i] == s[i];
      } else if i < p {
        assert r[i] == s[i] && r[j] == s[j - 1];
      } else if i > p {
        assert r[i] == s[i - 1] && r[j] == s[j - 1];
      }
    }
  }

  /** Inserting adds exactly `x`. */
  lemma InsertPermutes<T>(s: seq<T>, x: T, key: T -> int)
    ensures multiset(Insert(s, x, key)) == multiset(s) + multiset{x}
  {
    var p := InsertPos(s, x, key);
    assert s == s[..p] + s[p..];
  }

  /** Stable sort of `s` by `key` (models `slice::sort_by_key`). */
  function SortBy<T>(s: seq<T>, key: T -> int): (r: seq<T>)
    ensures |r| == |s|
    decreases |s|
  {
    if s == [] then []
    else Insert(SortBy(s[..|s| - 1], key), s[|s| - 1], key)
  }

  /** The result of the sort is sorted. */
  lemma {:induction false} SortByIsSorted<T>(s: seq<T>, key: T -> int)
    ensures SortedBy(SortBy(s, key), key)
    decreases |s|
  {
    if s != [] {
      SortByIsSorted(s[..|s| - 1], key);
      InsertSorted(SortBy(s[..|s| - 1], key), s[|s| - 1], key);
    }
  }

  /** The result of the sort is a permutation of the input. */
  lemma {:induction false} SortByPermutes<T>(s: seq<T>, key: T -> int)
    ensures multiset(SortBy(s, key)) == multiset(s)
    decreases |s|
  {
    if s != [] {
      var init, last := s[..|s| - 1], s[|s| - 1];
      assert s == init + [last];
      SortByPermutes(init, key);
      InsertPermutes(SortBy(init, key), last, key);
    }
  }

  lemma {:induction false} WithKeyConcat<T>(a: seq<T>, b: seq<T>, k: int, key: T -> int)
    ensures WithKey(a + b, k, key) == WithKey(a, k, key) + WithKey(b, k, key)
    decreases |b|
  {
    if b == [] {
      assert a + b == a;
    } else {
      var init := b[..|b| - 1];
      assert (a + b)[..|a + b| - 1] == a + init;
      WithKeyConcat(a, init, k, key);
    }
  }

  /** No element of `s` has a key below `k`'s successor: none has key `k`. */
  lemma {:induction false} WithKeyAbove<T>(s: seq<T>, k: int, key: T -> int)
    requires forall i :: 0 <= i < |s| ==> k < key(s[i])
    ensures WithKey(s, k, key) == []
    decreases |s|
  {
    if s != [] {
      WithKeyAbove(s[..|s| - 1], k, key);
    }
  }

  /** Placing `x` before elements of larger key only: `x` comes behind every element of its key. */
  lemma SpliceStable<T>(lo: seq<T>, x: T, hi: seq<T>, k: int, key: T -> int)
    requires forall i :: 0 <= i < |hi| ==> key(x) < key(hi[i])
    ensures WithKey(lo + [x] + hi, k, key) == WithKey(lo + hi, k, key) + (if key(x) == k then [x] else [])
  {
    WithKeyConcat(lo + [x], hi, k, key);
    WithKeyConcat(lo, [x], k, key);
    WithKeyConcat(lo, hi, k, key);
    assert [x][..0] == [];
    if key(x) == k {
      WithKeyAbove(hi, k, key);
    }
  }

  /** Inserting `x` adds it behind every element of the same key. */
  lemma InsertStable<T>(s: seq<T>, x: T, k: int, key: T -> int)
    ensures WithKey(Insert(s, x, key), k, key) == WithKey(s, k, key) + (if key(x) == k then [x] else [])
  {
    var p := InsertPos(s, x, key);
    SpliceStable(s[..p], x, s[p..], k, key);
    assert s[..p] + s[p..] == s;
  }

  /** An element whose key is at least the last one's is appended. */
  lemma InsertAtEnd<T>(s: seq<T>, x: T, key: T -> int)
    requires s == [] || key(s[|s| - 1]) <= key(x)
    ensures Insert(s, x, key) == s + [x]
  {
    assert InsertPos(s, x, key) == |s|;
    assert s[..|s|] == s && s[|s|..] == [];
  }

  /** The sort is stable: for every key, the elements with that key keep their order. */
  lemma {:induction false} SortByStable<T>(s: seq<T>, k: int, key: T -> int)
    ensures WithKey(SortBy(s, key), k, key) == WithKey(s, k, key)
    decreases |s|
  {
    if s != [] {
      var init, last := s[..|s| - 1], s[|s| - 1];
      SortByStable(init, k, key);
      InsertStable(SortBy(init, key), last, k, key);
    }
  }

  /** A sequence that is already sorted is returned unchanged. */
  lemma {:induction false} SortBySortedIsIdentity<T>(s: seq<T>, key: T -> int)
    requires SortedBy(s, key)
    ensures SortBy(s, key) == s
    decreases |s|
  {
    if s != [] {
      var init, last := s[..|s| - 1], s[|s| - 1];
      assert s == init + [last];
      SortedPrefix(s, key);
      SortBySortedIsIdentity(init, key);
      assert init == [] || key(init[|init| - 1]) <= key(last) by {
        if init != [] {
          assert key(s[|init| - 1]) <= key(s[|init|]);
        }
      }
      InsertAtEnd(init, last, key);
    }
  }
}
