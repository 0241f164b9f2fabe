/** Stable sorting by an integer key: the semantics of Python's `list.sort(key=...)`
    (Timsort is stable), modelled as an insertion sort. */
module Sorting {

  predicate SortedBy<T>(s: seq<T>, key: T -> int) {
    forall i, j :: 0 <= i < j < |s| ==> key(s[i]) <= key(s[j])
  }

  /** The subsequence of `s` whose key is `k`, in order. A sort is stable exactly
      when it leaves every such subsequence unchanged. */
  function WithKey<T>(s: seq<T>, key: T -> int, k: int): seq<T> {
    if |s| == 0 then []
    else if key(s[0]) == k then [s[0]] + WithKey(s[1..], key, k)
    else WithKey(s[1..], key, k)
  }

  lemma {:induction false} WithKeyAppend<T>(a: seq<T>, b: seq<T>, key: T -> int, k: int)
    ensures WithKey(a + b, key, k) == WithKey(a, key, k) + WithKey(b, key, k)
  {
    if |a| == 0 {
      assert a + b == b;
    } else {
      assert (a + b)[0] == a[0];
      assert (a + b)[1..] == a[1..] + b;
      WithKeyAppend(a[1..], b, key, k);
      var x, y := WithKey(a[1..], key, k), WithKey(b, key, k);
      assert [a[0]] + (x + y) == ([a[0]] + x) + y;
    }
  }

  lemma {:induction false} WithKeyAbsent<T>(s: seq<T>, key: T -> int, k: int)
    requires forall i :: 0 <= i < |s| ==> key(s[i]) != k
    ensures WithKey(s, key, k) == []
  {
    if |s| > 0 {
      WithKeyAbsent(s[1..], key, k);
    }
  }

  /** Inserts `x` after every element whose key is at most `key(x)`. */
  function Insert<T>(s: seq<T>, x: T, key: T -> int): (r: seq<T>)
    ensures |r| == |s| + 1
    ensures multiset(r) == multiset(s) + multiset{x}
  {
    if |s| == 0 || key(x) < key(s[0]) then [x] + s
    else
      assert s == [s[0]] + s[1..];
      [s[0]] + Insert(s[1..], x, key)
  }

  lemma {:induction false} InsertKeepsSorted<T>(s: seq<T>, x: T, key: T -> int)
    requires SortedBy(s, key)
    ensures SortedBy(Insert(s, x, key), key)
  {
    if |s| > 0 && key(x) >= key(s[0]) {
      var rest := Insert(s[1..], x, key);
      InsertKeepsSorted(s[1..], x, key);
      forall i | 0 <= i < |rest| ensures key(s[0]) <= key(rest[i]) {
        assert rest[i] in multiset(rest);
        assert rest[i] == x || rest[i] in multiset(s[1..]);
      }
    }
  }

  lemma {:induction false} WithKeyInsert<T>(s: seq<T>, x: T, key: T -> int, k: int)
    requires SortedBy(s, key)
    ensures WithKey(Insert(s, x, key), key, k) == WithKey(s, key, k) + (if key(x) == k then [x] else [])
  {
    if |s| == 0 || key(x) < key(s[0]) {
      WithKeyInsertFront(s, x, key, k);
    } else {
      assert SortedBy(s[1..], key);
      WithKeyInsert(s[1..], x, key, k);
      WithKeyInsertLater(s, x, key, k);
    }
  }

  /** When `x` goes first, every later key exceeds its key. */
  lemma WithKeyInsertFront<T>(s: seq<T>, x: T, key: T -> int, k: int)
    requires SortedBy(s, key)
    requires |s| == 0 || key(x) < key(s[0])
    ensures WithKey(Insert(s, x, key), key, k) == WithKey(s, key, k) + (if key(x) == k then [x] else [])
  {
    assert ([x] + s)[1..] == s;
    if key(x) == k && |s| > 0 {
      assert forall i :: 0 <= i < |s| ==> key(s[0]) <= key(s[i]);
      WithKeyAbsent(s, key, k);
    }
  }

  /** When `x` goes past the head, the head's contribution comes first. */
  lemma WithKeyInsertLater<T>(s: seq<T>, x: T, key: T -> int, k: int)
    requires |s| > 0 && key(x) >= key(s[0])
    requires WithKey(Insert(s[1..], x, key), key, k) == WithKey(s[1..], key, k) + (if key(x) == k then [x] else [])
    ensures WithKey(Insert(s, x, key), key, k) == WithKey(s, key, k) + (if key(x) == k then [x] else [])
  {
    var rest := Insert(s[1..], x, key);
    assert ([s[0]] + rest)[1..] == rest;
  }

  /** Stable sort of `s` by `key`, ascending. */
  function SortByKey<T>(s: seq<T>, key: T -> int): (r: seq<T>)
    ensures |r| == |s|
    ensures multiset(r) == multiset(s)
    ensures SortedBy(r, key)
  {
    if |s| == 0 then []
    else
      assert s == s[..|s| - 1] + [s[|s| - 1]];
      InsertKeepsSorted(SortByKey(s[..|s| - 1], key), s[|s| - 1], key);
      Insert(SortByKey(s[..|s| - 1], key), s[|s| - 1], key)
  }

  /** Stability: elements with equal keys keep their relative order. */
  lemma {:induction false} SortByKeyStable<T>(s: seq<T>, key: T -> int, k: int)
    ensures WithKey(SortByKey(s, key), key, k) == WithKey(s, key, k)
  {
    if |s| > 0 {
      var init, x := s[..|s| - 1], s[|s| - 1];
      var tail := if key(x) == k then [x] else [];
      assert s == init + [x];
      assert SortByKey(s, key) == Insert(SortByKey(init, key), x, key);
      WithKeyInsert(SortByKey(init, key), x, key, k);
      SortByKeyStable(init, key, k);
      WithKeyAppend(init, [x], key, k);
      assert WithKey([x], key, k) == tail + WithKey([], key, k);
      assert WithKey([x], key, k) == tail;
    }
  }

  /** A sorted sequence is its own stable sort: sorting is idempotent. */
  lemma {:induction false} SortSortedIsIdentity<T>(s: seq<T>, key: T -> int)
    requires SortedBy(s, key)
    ensures SortByKey(s, key) == s
  {
    if |s| > 0 {
      var init, x := s[..|s| - 1], s[|s| - 1];
      SortSortedIsIdentity(init, key);
      InsertAfterAll(init, x, key);
    }
  }

  lemma {:induction false} InsertAfterAll<T>(s: seq<T>, x: T, key: T -> int)
    requires forall i :: 0 <= i < |s| ==> key(s[i]) <= key(x)
    ensures Insert(s, x, key) == s + [x]
  {
    if |s| > 0 {
      InsertAfterAll(s[1..], x, key);
      assert s == [s[0]] + s[1..];
    }
  }
}
