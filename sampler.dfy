/**
 * The unique-number sampler `createUniqueNumbers(count, min, max, excludeSet)`
 * of lotto.js.
 *
 * The source seeds a JavaScript `Set` with `excludeSet`, keeps adding random
 * integers from `[min, max]` until the set holds `count + excludeSet.size`
 * values, and returns the members that are not excluded, in insertion order.
 *
 * A JavaScript `Set` is modelled as a duplicate-free `seq<int>` in insertion
 * order. The random source is a supplied stream `draws` of integers, each in
 * `[min, max]`. When the stream runs out before the set is full the model
 * answers `None`: the source would still be looping at that point.
 */
module UniqueNumbers {
  import opened Wrappers

  /** No value occurs twice: the members of a `Set`, in insertion order. */
  predicate Distinct(s: seq<int>) {
    forall i, j :: 0 <= i < j < |s| ==> s[i] != s[j]
  }

  /** Every draw of the random stream lies in `[min, max]`. */
  predicate InRange(draws: seq<int>, min: int, max: int) {
    forall j :: 0 <= j < |draws| ==> min <= draws[j] <= max
  }

  /** `Set.prototype.add`: a value already present changes nothing, a new one
      goes to the end of the insertion order. */
  function Add(s: seq<int>, x: int): (r: seq<int>)
    ensures forall y :: y in r <==> y in s || y == x
    ensures |s| <= |r| <= |s| + 1 && r[..|s|] == s
    ensures Distinct(s) ==> Distinct(r)
  {
    if x in s then s else s + [x]
  }

  /** The working set `new Set(excludeSet)` after the draws `d` were added one by one. */
  function Working(ex: seq<int>, d: seq<int>): (r: seq<int>)
    ensures |ex| <= |r| <= |ex| + |d|
    decreases |d|
  {
    if d == [] then ex else Add(Working(ex, d[..|d| - 1]), d[|d| - 1])
  }

  /** `[...numbers].filter((n) => !excludeSet.has(n))`. */
  function Without(s: seq<int>, ex: seq<int>): (r: seq<int>)
    ensures forall x :: x in r <==> x in s && x !in ex
    ensures |r| <= |s|
  {
    if s == [] then []
    else (if s[0] in ex then [] else [s[0]]) + Without(s[1..], ex)
  }

  /** The loop of `createUniqueNumbers` once the first `k` draws were added:
      it stops at the first prefix of the stream that fills the set to
      `count + excludeSet.size`, and is `None` when the stream ends first. */
  function Run(count: int, ex: seq<int>, draws: seq<int>, k: nat): (r: Option<seq<int>>)
    requires k <= |draws|
    ensures r.Some? ==> forall x :: x in r.value ==> x !in ex
    ensures r.None? ==> |Working(ex, draws)| < count + |ex|
    decreases |draws| - k
  {
    var numbers := Working(ex, draws[..k]);
    if |numbers| >= count + |ex| then Some(Without(numbers, ex))
    else if k == |draws| then
      assert draws[..k] == draws;
      None
    else Run(count, ex, draws, k + 1)
  }

  /** What `createUniqueNumbers(count, min, max, excludeSet)` returns when its
      random draws are `draws`. */
  function Sample(count: int, ex: seq<int>, draws: seq<int>): (r: Option<seq<int>>)
    ensures r.Some? ==> forall x :: x in r.value ==> x !in ex
    ensures r.None? ==> |Working(ex, draws)| < count + |ex|
  {
    Run(count, ex, draws, 0)
  }

  /** The non-negative part of `count`: a negative count asks for nothing. */
  function Wanted(count: int): nat
  {
    if count < 0 then 0 else count
  }

  /** The guarantees of a finished draw: exactly `count` distinct values, all
      in `[min, max]`, none of them excluded. */
  predicate Drawn(r: seq<int>, count: int, min: int, max: int, ex: seq<int>)
  {
    |r| == Wanted(count) && Distinct(r) &&
    forall i :: 0 <= i < |r| ==> min <= r[i] <= max && r[i] !in ex
  }

  method CreateUniqueNumbers(count: int, min: int, max: int, excludeSet: seq<int>, draws: seq<int>)
    returns (result: Option<seq<int>>)
    requires Distinct(excludeSet)
    requires InRange(draws, min, max)
    ensures result == Sample(count, excludeSet, draws)
    ensures result.Some? ==> Drawn(result.value, count, min, max, excludeSet)
  {
    var numbers := excludeSet;
    var i := 0;
    while |numbers| < count + |excludeSet|
      invariant 0 <= i <= |draws|
      invariant numbers == Working(excludeSet, draws[..i])
      invariant Run(count, excludeSet, draws, i) == Sample(count, excludeSet, draws)
      decreases |draws| - i
    {
      if i == |draws| {
        // the supplied stream is exhausted; the source would draw again
        return None;
      }
      var num := draws[i];
      assert draws[..i + 1][..i] == draws[..i];
      if num !in numbers {
        numbers := numbers + [num];
      }
      i := i + 1;
    }
    result := Some(Without(numbers, excludeSet));
    SampleDrawn(count, min, max, excludeSet, draws);
  }

  /** Adding the draws one at a time: the state after `k + 1` draws is the
      state after `k` draws with `draws[k]` added. */
  lemma WorkingStep(ex: seq<int>, d: seq<int>, k: nat)
    requires k < |d|
    ensures Working(ex, d[..k + 1]) == Add(Working(ex, d[..k]), d[k])
  {
    assert d[..k + 1][..k] == d[..k];
  }

  /** Loop invariant of the source: the working set is duplicate-free, begins
      with the seeded excluded values, and every value added after them is a
      fresh draw in `[min, max]` that is not excluded. */
  lemma {:induction false} WorkingShape(ex: seq<int>, d: seq<int>, min: int, max: int)
    requires Distinct(ex)
    requires InRange(d, min, max)
    ensures |ex| <= |Working(ex, d)| && Working(ex, d)[..|ex|] == ex
    ensures Distinct(Working(ex, d))
    ensures forall i :: |ex| <= i < |Working(ex, d)| ==>
              min <= Working(ex, d)[i] <= max && Working(ex, d)[i] !in ex
    decreases |d|
  {
    if d != [] {
      var p := d[..|d| - 1];
      assert InRange(p, min, max) by {
        forall j | 0 <= j < |p| ensures min <= p[j] <= max { assert p[j] == d[j]; }
      }
      WorkingShape(ex, p, min, max);
      assert d == p + [d[|d| - 1]];
      var w := Working(ex, p);
      forall i | |ex| <= i < |Working(ex, d)|
        ensures min <= Working(ex, d)[i] <= max && Working(ex, d)[i] !in ex
      {
        if i < |w| {
          assert Working(ex, d)[i] == w[i];
        } else {
          assert Working(ex, d)[i] == d[|d| - 1];
          assert d[|d| - 1] !in w;
        }
      }
    }
  }

  /** The size of the working set never decreases: the state after `j` draws is
      a prefix of the state after `k >= j` draws. */
  lemma {:induction false} WorkingGrows(ex: seq<int>, d: seq<int>, j: nat, k: nat)
    requires j <= k <= |d|
    ensures IsPrefix(Working(ex, d[..j]), Working(ex, d[..k]))
    decreases k - j
  {
    if j < k {
      var a, b, c := Working(ex, d[..j]), Working(ex, d[..k - 1]), Working(ex, d[..k]);
      assert IsPrefix(a, b) by { WorkingGrows(ex, d, j, k - 1); }
      assert IsPrefix(b, c) by { WorkingStep(ex, d, k - 1); }
      PrefixTrans(a, b, c);
    }
  }

  /** `a` is an initial part of `b`. */
  predicate IsPrefix(a: seq<int>, b: seq<int>) {
    |a| <= |b| && b[..|a|] == a
  }

  lemma PrefixTrans(a: seq<int>, b: seq<int>, c: seq<int>)
    requires IsPrefix(a, b) && IsPrefix(b, c)
    ensures IsPrefix(a, c)
  {
    assert c[..|a|] == c[..|b|][..|a|];
  }

  /** Filtering appended pieces filters each piece. */
  lemma {:induction false} WithoutAppend(s: seq<int>, t: seq<int>, ex: seq<int>)
    ensures Without(s + t, ex) == Without(s, ex) + Without(t, ex)
    decreases |s|
  {
    if s == [] {
      assert s + t == t;
    } else {
      assert (s + t)[0] == s[0] && (s + t)[1..] == s[1..] + t;
      WithoutAppend(s[1..], t, ex);
    }
  }

  /** Filtering keeps a sequence none of whose values is excluded. */
  lemma {:induction false} WithoutNone(s: seq<int>, ex: seq<int>)
    requires forall i :: 0 <= i < |s| ==> s[i] !in ex
    ensures Without(s, ex) == s
    decreases |s|
  {
    if s != [] {
      WithoutNone(s[1..], ex);
    }
  }

  /** Filtering a sequence all of whose values are excluded leaves nothing. */
  lemma {:induction false} WithoutAll(s: seq<int>, ex: seq<int>)
    requires forall i :: 0 <= i < |s| ==> s[i] in ex
    ensures Without(s, ex) == []
    decreases |s|
  {
    if s != [] {
      WithoutAll(s[1..], ex);
    }
  }

  /** The filter of the source removes exactly the seeded excluded members:
      what it returns is the working set past its first `|excludeSet|` values. */
  lemma FilterDropsSeed(ex: seq<int>, d: seq<int>, min: int, max: int)
    requires Distinct(ex)
    requires InRange(d, min, max)
    ensures |ex| <= |Working(ex, d)|
    ensures Without(Working(ex, d), ex) == Working(ex, d)[|ex|..]
  {
    WorkingShape(ex, d, min, max);
    var w := Working(ex, d);
    assert w == ex + w[|ex|..];
    WithoutAppend(ex, w[|ex|..], ex);
    WithoutAll(ex, ex);
    WithoutNone(w[|ex|..], ex);
  }

  /** Every stop of the loop returns a correct draw, as long as the previous
      prefix of the stream had not yet filled the set. */
  lemma {:induction false} RunDrawn(count: int, min: int, max: int, ex: seq<int>, draws: seq<int>, k: nat)
    requires Distinct(ex)
    requires InRange(draws, min, max)
    requires k <= |draws|
    requires k == 0 || |Working(ex, draws[..k - 1])| < count + |ex|
    ensures Run(count, ex, draws, k).Some? ==> Drawn(Run(count, ex, draws, k).value, count, min, max, ex)
    decreases |draws| - k
  {
    var d := draws[..k];
    assert InRange(d, min, max);
    var w := Working(ex, d);
    if |w| >= count + |ex| {
      WorkingShape(ex, d, min, max);
      FilterDropsSeed(ex, d, min, max);
      if k > 0 {
        WorkingStep(ex, draws, k - 1);
      }
      var r := w[|ex|..];
      assert |r| == Wanted(count);
      forall i | 0 <= i < |r| ensures min <= r[i] <= max && r[i] !in ex {
        assert r[i] == w[|ex| + i];
      }
    } else if k < |draws| {
      RunDrawn(count, min, max, ex, draws, k + 1);
    }
  }

  /** The result guarantees of `createUniqueNumbers`: a finished draw has
      exactly `count` pairwise distinct values, each in `[min, max]` and none in
      `excludeSet` (excluded values outside the range never leak). */
  lemma SampleDrawn(count: int, min: int, max: int, ex: seq<int>, draws: seq<int>)
    requires Distinct(ex)
    requires InRange(draws, min, max)
    ensures Sample(count, ex, draws).Some? ==> Drawn(Sample(count, ex, draws).value, count, min, max, ex)
  {
    RunDrawn(count, min, max, ex, draws, 0);
  }

  /** The position at which `y` first occurs in the stream `s`. */
  function FirstIndex(s: seq<int>, y: int): (i: nat)
    requires y in s
    ensures i < |s| && s[i] == y
  {
    if s[0] == y then 0 else 1 + FirstIndex(s[1..], y)
  }

  /** No earlier position holds `y`. */
  lemma {:induction false} FirstIndexFirst(s: seq<int>, y: int, j: nat)
    requires y in s && j < |s| && s[j] == y
    ensures FirstIndex(s, y) <= j
    decreases |s|
  {
    if s[0] != y {
      FirstIndexFirst(s[1..], y, j - 1);
    }
  }

  /** Later draws do not move the first occurrence of a value already drawn. */
  lemma FirstIndexExtend(s: seq<int>, t: seq<int>, y: int)
    requires y in s
    ensures y in s + t && FirstIndex(s + t, y) == FirstIndex(s, y)
  {
    var i := FirstIndex(s, y);
    assert (s + t)[i] == y;
    FirstIndexFirst(s + t, y, i);
    var m := FirstIndex(s + t, y);
    assert s[m] == (s + t)[m];
    FirstIndexFirst(s, y, m);
  }

  /** The working set holds the seed and the draws, and nothing else. */
  lemma {:induction false} WorkingMembers(ex: seq<int>, d: seq<int>)
    ensures forall y :: y in Working(ex, d) <==> y in ex || y in d
    decreases |d|
  {
    if d != [] {
      WorkingMembers(ex, d[..|d| - 1]);
      assert d == d[..|d| - 1] + [d[|d| - 1]];
    }
  }

  /** The values the working set gained over its seed appear in the order in
      which they were first drawn. */
  lemma {:induction false} WorkingOrder(ex: seq<int>, d: seq<int>)
    ensures |ex| <= |Working(ex, d)| && OrderedFrom(Working(ex, d), |ex|, d)
    decreases |d|
  {
    if d != [] {
      var p, x := d[..|d| - 1], d[|d| - 1];
      assert d == p + [x];
      WorkingOrder(ex, p);
      var wp, w := Working(ex, p), Working(ex, d);
      assert w == Add(wp, x);
      forall i | |ex| <= i < |wp| ensures w[i] in d && FirstIndex(d, w[i]) == FirstIndex(p, wp[i]) {
        FirstIndexExtend(p, [x], wp[i]);
      }
      if x !in wp {
        WorkingMembers(ex, p);
        assert x !in p;
        assert d[|p|] == x;
        FirstIndexFirst(d, x, |p|);
        assert FirstIndex(d, x) == |p|;
        forall i, j | |ex| <= i < j < |w|
          ensures w[i] in d && w[j] in d && FirstIndex(d, w[i]) < FirstIndex(d, w[j])
        {
          if j < |wp| {
            assert FirstIndex(p, wp[i]) < FirstIndex(p, wp[j]);
          }
        }
      }
    }
  }

  /** Past position `lo`, each value of `w` was drawn in `d`, and the values
      are listed in the order of their first draw. */
  predicate OrderedFrom(w: seq<int>, lo: nat, d: seq<int>)
  {
    (forall i :: lo <= i < |w| ==> w[i] in d) &&
    forall i, j :: lo <= i < j < |w| ==>
      w[i] in d && w[j] in d && FirstIndex(d, w[i]) < FirstIndex(d, w[j])
  }

  /** Dropping the first `lo` values keeps the order of the rest. */
  lemma OrderedSuffix(w: seq<int>, lo: nat, d: seq<int>)
    requires lo <= |w| && OrderedFrom(w, lo, d)
    ensures OrderedFrom(w[lo..], 0, d)
  {
    var r := w[lo..];
    forall i, j | 0 <= i < j < |r|
      ensures r[i] in d && r[j] in d && FirstIndex(d, r[i]) < FirstIndex(d, r[j])
    {
      assert r[i] == w[lo + i] && r[j] == w[lo + j];
    }
  }

  /** Draws made after the ones in `d` do not change first-draw order. */
  lemma OrderedExtend(r: seq<int>, d: seq<int>, t: seq<int>)
    requires OrderedFrom(r, 0, d)
    ensures OrderedFrom(r, 0, d + t)
  {
    forall i | 0 <= i < |r| ensures r[i] in d + t && FirstIndex(d + t, r[i]) == FirstIndex(d, r[i]) {
      FirstIndexExtend(d, t, r[i]);
    }
  }

  /** Every stop of the loop returns the new values in first-drawn order. */
  lemma {:induction false} RunOrder(count: int, min: int, max: int, ex: seq<int>, draws: seq<int>, k: nat)
    requires Distinct(ex)
    requires InRange(draws, min, max)
    requires k <= |draws|
    ensures Run(count, ex, draws, k).Some? ==> OrderedFrom(Run(count, ex, draws, k).value, 0, draws)
    decreases |draws| - k
  {
    var d := draws[..k];
    var w := Working(ex, d);
    if |w| >= count + |ex| {
      assert Run(count, ex, draws, k) == Some(w[|ex|..]) by {
        assert InRange(d, min, max);
        FilterDropsSeed(ex, d, min, max);
      }
      assert OrderedFrom(w[|ex|..], 0, draws) by {
        WorkingOrder(ex, d);
        OrderedSuffix(w, |ex|, d);
        OrderedExtend(w[|ex|..], d, draws[k..]);
        assert d + draws[k..] == draws;
      }
    } else if k < |draws| {
      RunOrder(count, min, max, ex, draws, k + 1);
    }
  }

  /** `createUniqueNumbers` returns its values in the order in which they were
      first drawn, not sorted. */
  lemma SampleOrder(count: int, min: int, max: int, ex: seq<int>, draws: seq<int>)
    requires Distinct(ex)
    requires InRange(draws, min, max)
    ensures Sample(count, ex, draws).Some? ==> OrderedFrom(Sample(count, ex, draws).value, 0, draws)
  {
    RunOrder(count, min, max, ex, draws, 0);
  }
}
