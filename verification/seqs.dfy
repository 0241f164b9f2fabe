/** Sequence helpers shared by the model: order predicates on real sequences,
    extrema and filtering. */
module Seqs {

  function Last<T>(s: seq<T>): T
    requires |s| > 0
  {
    s[|s| - 1]
  }

  /** Some element of `s` satisfies `p`: the last one, or one before it
      (`AnyMeansSome` states it with an index). */
  predicate Any<T>(s: seq<T>, p: T -> bool) {
    |s| > 0 && (p(Last(s)) || Any(s[..|s| - 1], p))
  }

  /** `Any` holds exactly when some position of `s` holds an element
      satisfying `p`. */
  lemma {:induction false} AnyMeansSome<T>(s: seq<T>, p: T -> bool)
    ensures Any(s, p) <==> exists i :: 0 <= i < |s| && p(s[i])
  {
    if |s| > 0 {
      var init := s[..|s| - 1];
      AnyMeansSome(init, p);
      if exists j :: 0 <= j < |init| && p(init[j]) {
        var j :| 0 <= j < |init| && p(init[j]);
        assert s[j] == init[j];
      }
      if (exists i :: 0 <= i < |s| && p(s[i])) && !p(Last(s)) {
        var i :| 0 <= i < |s| && p(s[i]);
        assert init[i] == s[i];
      }
    }
  }

  /** Strictly increasing, the shape of a telemetry timestamp column. */
  predicate Increasing(s: seq<real>) {
    forall i, j :: 0 <= i < j < |s| ==> s[i] < s[j]
  }

  predicate NonDecreasing(s: seq<real>) {
    forall i, j :: 0 <= i < j < |s| ==> s[i] <= s[j]
  }

  lemma IncreasingIsNonDecreasing(s: seq<real>)
    requires Increasing(s)
    ensures NonDecreasing(s)
  {
  }

  /** The largest element, as Python's `max` over a non-empty sequence. */
  function Max(s: seq<real>): (m: real)
    requires |s| > 0
    ensures m in s
    ensures forall i :: 0 <= i < |s| ==> s[i] <= m
  {
    if |s| == 1 then s[0]
    else
      var m' := Max(s[..|s| - 1]);
      if s[|s| - 1] > m' then s[|s| - 1] else m'
  }

  /** The largest element of a non-decreasing sequence is its last one. */
  lemma MaxOfNonDecreasing(s: seq<real>)
    requires |s| > 0 && NonDecreasing(s)
    ensures Max(s) == Last(s)
  {
  }

  /** The elements of `s` satisfying `p`, in their original order. */
  function Filter<T(==,!new)>(s: seq<T>, p: T -> bool): (r: seq<T>)
    ensures |r| <= |s|
    ensures forall x :: x in r <==> x in s && p(x)
  {
    if |s| == 0 then []
    else
      var rest := Filter(s[1..], p);
      assert s == [s[0]] + s[1..];
      if p(s[0]) then [s[0]] + rest else rest
  }

  /** Filtering keeps every element satisfying `p` as many times as `s`
      holds it and drops every other element. */
  lemma {:induction false} FilterCount<T(!new)>(s: seq<T>, p: T -> bool)
    ensures forall x :: multiset(Filter(s, p))[x] == if p(x) then multiset(s)[x] else 0
    ensures multiset(Filter(s, p)) <= multiset(s)
  {
    if |s| > 0 {
      FilterCount(s[1..], p);
      assert s == [s[0]] + s[1..];
      assert multiset(s) == multiset([s[0]]) + multiset(s[1..]);
      if p(s[0]) {
        assert Filter(s, p) == [s[0]] + Filter(s[1..], p);
        assert multiset(Filter(s, p)) == multiset([s[0]]) + multiset(Filter(s[1..], p));
      } else {
        assert Filter(s, p) == Filter(s[1..], p);
      }
    }
  }

  /** `r` lists, in order, the elements of `s` at the strictly increasing
      positions `idx`, and those are exactly the positions whose element
      satisfies `p`. */
  predicate KeptPositions<T(==)>(r: seq<T>, s: seq<T>, p: T -> bool, idx: seq<nat>) {
    |idx| == |r|
    && (forall k :: 0 <= k < |idx| ==> idx[k] < |s| && s[idx[k]] == r[k])
    && (forall k, l :: 0 <= k < l < |idx| ==> idx[k] < idx[l])
    && (forall i {:trigger s[i]} :: 0 <= i < |s| ==> (p(s[i]) <==> i in idx))
  }

  /** Every position moved one place right. */
  function Shift(idx: seq<nat>): (r: seq<nat>)
    ensures |r| == |idx| && forall k :: 0 <= k < |idx| ==> r[k] == idx[k] + 1
  {
    seq(|idx|, k requires 0 <= k < |idx| => idx[k] + 1)
  }

  /** A position after the first is among the shifted positions exactly when
      the one before it is among the original ones. */
  lemma ShiftHas(idx: seq<nat>, i: nat)
    requires i > 0
    ensures i in Shift(idx) <==> i - 1 in idx
  {
    if i - 1 in idx {
      var k :| 0 <= k < |idx| && idx[k] == i - 1;
      assert Shift(idx)[k] == i;
    }
  }

  /** Positions kept from `s[1..]`, moved one place right, are positions
      of `s` after the first, in increasing order, kept for the same reason. */
  lemma ShiftKept<T>(s: seq<T>, p: T -> bool, rest: seq<T>, tail: seq<nat>)
    requires |s| > 0 && KeptPositions(rest, s[1..], p, tail)
    ensures |Shift(tail)| == |rest|
    ensures forall k :: 0 <= k < |tail| ==> 0 < Shift(tail)[k] < |s| && s[Shift(tail)[k]] == rest[k]
    ensures forall k, l :: 0 <= k < l < |tail| ==> Shift(tail)[k] < Shift(tail)[l]
    ensures forall i :: 0 < i < |s| ==> (p(s[i]) <==> i in Shift(tail))
  {
    forall i | 0 < i < |s| ensures (p(s[i]) <==> i in Shift(tail)) {
      assert s[i] == s[1..][i - 1];
      ShiftHas(tail, i);
    }
    forall k | 0 <= k < |tail| ensures s[Shift(tail)[k]] == rest[k] {
      assert s[Shift(tail)[k]] == s[1..][tail[k]];
    }
  }

  /** Position 0 in front of increasing positive positions keeps them
      increasing. */
  lemma HeadKeepsIncreasing(later: seq<nat>)
    requires forall k :: 0 <= k < |later| ==> 0 < later[k]
    requires forall k, l :: 0 <= k < l < |later| ==> later[k] < later[l]
    ensures forall k, l :: 0 <= k < l < |later| + 1 ==> ([0] + later)[k] < ([0] + later)[l]
  {
    var idx := [0] + later;
    forall k, l | 0 <= k < l < |idx| ensures idx[k] < idx[l] {
      assert idx[l] == later[l - 1];
      if k > 0 { assert idx[k] == later[k - 1]; }
    }
  }

  /** When the head satisfies `p`, position 0 followed by the later kept
      positions are the positions kept from `s`. */
  lemma KeptWithHead<T>(s: seq<T>, p: T -> bool, rest: seq<T>, later: seq<nat>)
    requires |s| > 0 && p(s[0]) && |later| == |rest|
    requires forall k :: 0 <= k < |later| ==> 0 < later[k] < |s| && s[later[k]] == rest[k]
    requires forall k, l :: 0 <= k < l < |later| ==> later[k] < later[l]
    requires forall i :: 0 < i < |s| ==> (p(s[i]) <==> i in later)
    ensures KeptPositions([s[0]] + rest, s, p, [0] + later)
  {
    var idx, r := [0] + later, [s[0]] + rest;
    HeadKeepsIncreasing(later);
    forall k | 0 < k < |idx| ensures idx[k] < |s| && s[idx[k]] == r[k] {
      assert idx[k] == later[k - 1] && r[k] == rest[k - 1];
    }
    forall i | 0 < i < |s| ensures p(s[i]) <==> i in idx {
      assert i in idx <==> i in later;
    }
  }

  /** When the head fails `p`, the later kept positions are the positions
      kept from `s`. */
  lemma KeptWithoutHead<T>(s: seq<T>, p: T -> bool, rest: seq<T>, later: seq<nat>)
    requires |s| > 0 && !p(s[0]) && |later| == |rest|
    requires forall k :: 0 <= k < |later| ==> 0 < later[k] < |s| && s[later[k]] == rest[k]
    requires forall k, l :: 0 <= k < l < |later| ==> later[k] < later[l]
    requires forall i :: 0 < i < |s| ==> (p(s[i]) <==> i in later)
    ensures KeptPositions(rest, s, p, later)
  {
    assert 0 !in later;
  }

  /** The positions kept from `s` follow from those kept from `s[1..]`. */
  lemma KeptStep<T>(s: seq<T>, p: T -> bool, rest: seq<T>, tail: seq<nat>)
    requires |s| > 0 && KeptPositions(rest, s[1..], p, tail)
    ensures p(s[0]) ==> KeptPositions([s[0]] + rest, s, p, [0] + Shift(tail))
    ensures !p(s[0]) ==> KeptPositions(rest, s, p, Shift(tail))
  {
    ShiftKept(s, p, rest, tail);
    if p(s[0]) {
      KeptWithHead(s, p, rest, Shift(tail));
    } else {
      KeptWithoutHead(s, p, rest, Shift(tail));
    }
  }

  /** Filtering is an order-preserving selection: the result is `s` at the
      increasing positions where `p` holds, and at no others. */
  lemma {:induction false} FilterKeepsOrder<T(!new)>(s: seq<T>, p: T -> bool)
    ensures exists idx :: KeptPositions(Filter(s, p), s, p, idx)
  {
    if |s| == 0 {
      assert KeptPositions(Filter(s, p), s, p, []);
    } else {
      FilterKeepsOrder(s[1..], p);
      var rest := Filter(s[1..], p);
      var tail :| KeptPositions(rest, s[1..], p, tail);
      KeptStep(s, p, rest, tail);
      if p(s[0]) {
        assert Filter(s, p) == [s[0]] + rest;
        assert KeptPositions(Filter(s, p), s, p, [0] + Shift(tail));
      } else {
        assert Filter(s, p) == rest;
        assert KeptPositions(Filter(s, p), s, p, Shift(tail));
      }
    }
  }
}
