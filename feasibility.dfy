/**
 * When the loop of `createUniqueNumbers` can finish.
 *
 * The source never checks that enough unclaimed values exist in
 * `[min, max]`. The working set can only hold the seeded excluded values and
 * values of the range, so its size is bounded by `|excludeSet ∪ [min, max]|`;
 * when `count + |excludeSet ∩ [min, max]| > max - min + 1` that bound is below
 * the loop's target and no stream of draws ends the loop. Conversely, a
 * feasible request is finished by some stream of in-range draws.
 */
module Feasibility {
  import opened Wrappers
  import opened UniqueNumbers

  /** The integers `min..max`, both included. */
  function Range(min: int, max: int): (r: set<int>)
    ensures forall x :: x in r <==> min <= x <= max
    decreases max - min
  {
    if min > max then {} else Range(min, max - 1) + {max}
  }

  /** The values of a sequence, as a set. */
  function Elems(s: seq<int>): set<int>
  {
    set x | x in s
  }

  /** The request leaves at least `count` unclaimed values in the range. */
  predicate Feasible(count: int, min: int, max: int, ex: seq<int>)
  {
    count + |Elems(ex) * Range(min, max)| <= max - min + 1
  }

  lemma {:induction false} RangeSize(min: int, max: int)
    requires min <= max + 1
    ensures |Range(min, max)| == max - min + 1
    decreases max - min + 1
  {
    if min <= max {
      RangeSize(min, max - 1);
    }
  }

  /** A duplicate-free sequence has as many values as positions. */
  lemma {:induction false} DistinctSize(s: seq<int>)
    requires Distinct(s)
    ensures |Elems(s)| == |s|
    decreases |s|
  {
    if s != [] {
      var p := s[..|s| - 1];
      DistinctSize(p);
      assert Elems(s) == Elems(p) + {s[|s| - 1]};
      assert s[|s| - 1] !in p;
    }
  }

  lemma SubsetSize(a: set<int>, b: set<int>)
    requires a <= b
    ensures |a| <= |b|
  {
    assert b == a + (b - a);
  }

  /** The working set never holds more than `|excludeSet ∪ [min, max]|` values. */
  lemma WorkingBound(ex: seq<int>, d: seq<int>, min: int, max: int)
    requires Distinct(ex)
    requires InRange(d, min, max)
    ensures |Working(ex, d)| <= |Elems(ex) + Range(min, max)|
  {
    WorkingShape(ex, d, min, max);
    WorkingMembers(ex, d);
    var w := Working(ex, d);
    DistinctSize(w);
    forall y | y in Elems(w) ensures y in Elems(ex) + Range(min, max) {
      if y !in ex {
        assert y in d;
      }
    }
    SubsetSize(Elems(w), Elems(ex) + Range(min, max));
  }

  /** With an infeasible request the loop condition holds after every draw,
      so no prefix of any stream ends the loop. */
  lemma {:induction false} RunNeverStops(count: int, min: int, max: int, ex: seq<int>, draws: seq<int>, k: nat)
    requires Distinct(ex)
    requires InRange(draws, min, max)
    requires min <= max
    requires !Feasible(count, min, max, ex)
    requires k <= |draws|
    ensures Run(count, ex, draws, k) == None
    decreases |draws| - k
  {
    var d := draws[..k];
    assert InRange(d, min, max);
    WorkingBound(ex, d, min, max);
    RangeSize(min, max);
    DistinctSize(ex);
    if k < |draws| {
      RunNeverStops(count, min, max, ex, draws, k + 1);
    }
  }

  /** An infeasible request never returns, whatever the draws. */
  lemma InfeasibleNeverReturns(count: int, min: int, max: int, ex: seq<int>, draws: seq<int>)
    requires Distinct(ex)
    requires InRange(draws, min, max)
    requires min <= max
    requires !Feasible(count, min, max, ex)
    ensures Sample(count, ex, draws) == None
  {
    RunNeverStops(count, min, max, ex, draws, 0);
  }

  /** The values of `min..max` that `ex` does not claim, ascending: a stream
      of draws that never repeats and never hits an excluded value. */
  function Unclaimed(min: int, max: int, ex: seq<int>): (c: seq<int>)
    ensures forall x :: x in c <==> min <= x <= max && x !in ex
    ensures forall i :: 0 <= i < |c| ==> min <= c[i] <= max && c[i] !in ex
    ensures forall i, j :: 0 <= i < j < |c| ==> c[i] < c[j]
    decreases max - min
  {
    if min > max then []
    else Unclaimed(min, max - 1, ex) + (if max in ex then [] else [max])
  }

  /** There are `|[min, max]| - |ex ∩ [min, max]|` unclaimed values. */
  lemma UnclaimedSize(min: int, max: int, ex: seq<int>)
    requires min <= max
    ensures |Unclaimed(min, max, ex)| == max - min + 1 - |Elems(ex) * Range(min, max)|
  {
    var c, r, e := Unclaimed(min, max, ex), Range(min, max), Elems(ex);
    assert Distinct(c);
    DistinctSize(c);
    assert Elems(c) == r - e;
    assert r == (r - e) + (r * e);
    assert (r - e) * (r * e) == {};
    RangeSize(min, max);
  }

  /** Draws that never repeat and never hit an excluded value are each added. */
  lemma {:induction false} WorkingFresh(ex: seq<int>, d: seq<int>)
    requires Distinct(d)
    requires forall i :: 0 <= i < |d| ==> d[i] !in ex
    ensures Working(ex, d) == ex + d
    decreases |d|
  {
    if d != [] {
      var p, x := d[..|d| - 1], d[|d| - 1];
      WorkingFresh(ex, p);
      assert x !in p by {
        forall i | 0 <= i < |p| ensures p[i] != x { assert p[i] == d[i]; }
      }
      assert x !in ex + p;
      assert d == p + [x];
    }
  }

  /** On the unclaimed stream the loop stops once `count` values were drawn. */
  lemma {:induction false} RunFinishes(count: int, min: int, max: int, ex: seq<int>, k: nat)
    requires k <= Wanted(count) <= |Unclaimed(min, max, ex)|
    ensures Run(count, ex, Unclaimed(min, max, ex), k) == Some(Unclaimed(min, max, ex)[..Wanted(count)])
    decreases Wanted(count) - k
  {
    var c := Unclaimed(min, max, ex);
    var p := c[..k];
    assert Working(ex, p) == ex + p by {
      assert Distinct(p);
      assert forall i :: 0 <= i < |p| ==> p[i] !in ex;
      WorkingFresh(ex, p);
    }
    if k == Wanted(count) {
      assert Without(ex + p, ex) == p by {
        WithoutAppend(ex, p, ex);
        WithoutAll(ex, ex);
        WithoutNone(p, ex);
      }
    } else {
      RunFinishes(count, min, max, ex, k + 1);
    }
  }

  /** The loop of `createUniqueNumbers` can end exactly when the request is
      feasible: some stream of in-range draws finishes a feasible request, and
      none finishes an infeasible one. */
  lemma FinishesIffFeasible(count: int, min: int, max: int, ex: seq<int>)
    requires Distinct(ex)
    requires min <= max
    ensures (exists draws :: InRange(draws, min, max) && Sample(count, ex, draws).Some?)
            <==> Feasible(count, min, max, ex)
  {
    if Feasible(count, min, max, ex) {
      var c := Unclaimed(min, max, ex);
      UnclaimedSize(min, max, ex);
      RunFinishes(count, min, max, ex, 0);
      assert InRange(c, min, max);
    } else {
      forall draws | InRange(draws, min, max) ensures Sample(count, ex, draws) == None {
        InfeasibleNeverReturns(count, min, max, ex, draws);
      }
    }
  }

  /** Asking for the whole range, with nothing excluded, returns every value
      of `[min, max]` exactly once, in some order. */
  lemma FullRangeDraw(min: int, max: int, draws: seq<int>)
    requires min <= max
    requires InRange(draws, min, max)
    requires Sample(max - min + 1, [], draws).Some?
    ensures Distinct(Sample(max - min + 1, [], draws).value)
    ensures Elems(Sample(max - min + 1, [], draws).value) == Range(min, max)
  {
    var r := Sample(max - min + 1, [], draws).value;
    SampleDrawn(max - min + 1, min, max, [], draws);
    DistinctSize(r);
    RangeSize(min, max);
    var e, g := Elems(r), Range(min, max);
    assert e <= g;
    assert g == e + (g - e);
    assert e * (g - e) == {};
    assert |g - e| == 0;
  }
}
