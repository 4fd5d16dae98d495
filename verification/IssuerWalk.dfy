/**
 * Walks over a finite pool in which each position determines its successor, stopped by
 * depth limits: when such a walk goes on forever, and how long it can be otherwise.
 */
module IssuerWalk {
  import opened Options

  /** Positions are below size; a position with limit m is only accepted as at most the m-th stop (from 0). */
  datatype Walk = Walk(size: nat, first: Option<nat>, next: nat -> Option<nat>, limit: nat -> Option<nat>)

  ghost predicate InRange(w: Walk) {
    && (w.first.Some? ==> w.first.value < w.size)
    && (forall i :: w.next(i).Some? ==> w.next(i).value < w.size)
  }

  ghost function At(w: Walk, n: nat): (r: Option<nat>)
    ensures InRange(w) && r.Some? ==> r.value < w.size
  {
    if n == 0 then w.first
    else match At(w, n - 1)
      case None => None
      case Some(i) => w.next(i)
  }

  ghost predicate Accepted(w: Walk, n: nat) {
    At(w, n).Some? && (w.limit(At(w, n).value).Some? ==> n <= w.limit(At(w, n).value).value)
  }

  ghost predicate Unlimited(w: Walk, n: nat) {
    At(w, n).Some? && w.limit(At(w, n).value).None?
  }

  /** Stops i and j coincide, everything up to j is accepted, and nothing from i to j is limited. */
  ghost predicate CycleBetween(w: Walk, i: nat, j: nat) {
    && i < j && At(w, i) == At(w, j)
    && (forall k: nat :: k <= j ==> Accepted(w, k))
    && (forall k: nat :: i <= k < j ==> Unlimited(w, k))
  }

  ghost predicate EntersUnlimitedCycle(w: Walk) {
    exists i: nat, j: nat :: CycleBetween(w, i, j)
  }

  ghost predicate LimitsAtMost(w: Walk, m: nat) {
    forall i :: 0 <= i < w.size && w.limit(i).Some? ==> w.limit(i).value <= m
  }

  /** A sequence longer than the range of its values repeats a value. */
  lemma {:induction false} Pigeonhole(s: seq<nat>, n: nat) returns (i: nat, j: nat)
    requires |s| > n && forall k :: 0 <= k < |s| ==> s[k] < n
    ensures i < j < |s| && s[i] == s[j]
    decreases n
  {
    var last := |s| - 1;
    if k: nat :| k < last && s[k] == s[last] {
      i, j := k, last;
    } else {
      // Rename the largest value to the last element's value, which occurs nowhere else.
      var t: seq<nat> := s[..last];
      assert s[0] < n;
      var u := Rename(t, n - 1, s[last]);
      i, j := Pigeonhole(u, n - 1);
    }
  }

  function Rename(s: seq<nat>, from: nat, onto: nat): (r: seq<nat>)
    ensures |r| == |s|
    ensures forall k :: 0 <= k < |s| ==> r[k] == if s[k] == from then onto else s[k]
  {
    if s == [] then [] else [if s[0] == from then onto else s[0]] + Rename(s[1..], from, onto)
  }

  lemma LongWalkCycles(w: Walk, m: nat)
    requires InRange(w) && LimitsAtMost(w, m)
    requires forall k: nat :: k <= m + w.size + 1 ==> Accepted(w, k)
    ensures EntersUnlimitedCycle(w)
  {
    var stops := Stops(w, m + 1, w.size + 1);
    var i, j := Pigeonhole(stops, w.size);
    var a, b := m + 1 + i, m + 1 + j;
    forall k: nat | a <= k < b
      ensures Unlimited(w, k)
    {
      assert Accepted(w, k);
    }
    assert CycleBetween(w, a, b);
  }

  /** The positions of count consecutive stops. */
  lemma {:induction false} Stops(w: Walk, from: nat, count: nat) returns (s: seq<nat>)
    requires InRange(w) && forall k: nat :: k < from + count ==> Accepted(w, k)
    ensures |s| == count
    ensures forall k :: 0 <= k < count ==> s[k] < w.size && At(w, from + k) == Some(s[k])
  {
    if count == 0 {
      s := [];
    } else {
      s := Stops(w, from, count - 1);
      assert Accepted(w, from + count - 1);
      s := s + [At(w, from + count - 1).value];
    }
  }

  lemma {:induction false} CycleRepeats(w: Walk, i: nat, j: nat, n: nat)
    requires CycleBetween(w, i, j)
    ensures Accepted(w, n)
    ensures n >= i ==> Unlimited(w, n)
    ensures n >= j ==> At(w, n) == At(w, n - (j - i))
  {
    if n > j {
      CycleRepeats(w, i, j, n - 1);
      CycleRepeats(w, i, j, n - (j - i));
      assert At(w, n) == At(w, n - (j - i));
    } else if n == j {
      assert Unlimited(w, i);
    }
  }

  /** A walk goes on forever exactly when it enters an unlimited cycle, and it shows within m + size + 2 stops. */
  lemma EndlessExactly(w: Walk, m: nat)
    requires InRange(w) && LimitsAtMost(w, m)
    ensures EntersUnlimitedCycle(w) <==> forall n: nat :: Accepted(w, n)
    ensures EntersUnlimitedCycle(w) <==> forall n: nat :: n <= m + w.size + 1 ==> Accepted(w, n)
  {
    if EntersUnlimitedCycle(w) {
      var i: nat, j: nat :| CycleBetween(w, i, j);
      forall n: nat
        ensures Accepted(w, n)
      {
        CycleRepeats(w, i, j, n);
      }
    }
    if forall n: nat :: n <= m + w.size + 1 ==> Accepted(w, n) {
      LongWalkCycles(w, m);
    }
  }
}
