/**
 * The lottery draw `generateLottoNumbers` of lotto.js: six main numbers from
 * 1..45 shown in ascending order, then one bonus number from 1..45 drawn with
 * the main numbers excluded.
 *
 * The two calls to `createUniqueNumbers` read consecutive parts of one random
 * stream; the model receives the part each call consumes as its own sequence.
 * Rendering the numbers is not modelled: the draw is returned instead.
 */
module Lotto {
  import opened Wrappers
  import opened UniqueNumbers
  import opened Feasibility

  const MainCount := 6
  const Lowest := 1
  const Highest := 45

  /** The numbers shown for one draw. */
  datatype LottoDraw = LottoDraw(main: seq<int>, bonus: int)

  /** Ascending numeric order, as the comparator `(a, b) => a - b` asks. */
  predicate Ascending(s: seq<int>)
  {
    forall i, j :: 0 <= i < j < |s| ==> s[i] <= s[j]
  }

  /** Puts `x` into its place in an ascending sequence. */
  function Insert(x: int, s: seq<int>): (r: seq<int>)
    requires Ascending(s)
    ensures Ascending(r)
    ensures multiset(r) == multiset(s) + multiset{x}
  {
    if s == [] || x <= s[0] then [x] + s
    else
      assert s == [s[0]] + s[1..];
      var t := Insert(x, s[1..]);
      assert forall i :: 0 <= i < |t| ==> s[0] <= t[i] by {
        forall i | 0 <= i < |t| ensures s[0] <= t[i] {
          assert t[i] in multiset(t);
          if t[i] != x {
            assert t[i] in multiset(s[1..]);
            assert t[i] in s[1..];
          }
        }
      }
      AscendingCons(s[0], t);
      [s[0]] + t
  }

  /** A value no larger than any of an ascending sequence can go in front. */
  lemma AscendingCons(h: int, t: seq<int>)
    requires Ascending(t)
    requires forall i :: 0 <= i < |t| ==> h <= t[i]
    ensures Ascending([h] + t)
  {
    var r := [h] + t;
    forall i, j | 0 <= i < j < |r| ensures r[i] <= r[j] {
      assert r[j] == t[j - 1];
      if i > 0 {
        assert r[i] == t[i - 1];
      }
    }
  }

  /** `Array.prototype.sort((a, b) => a - b)`: the same numbers, ascending. */
  function SortAscending(s: seq<int>): (r: seq<int>)
    ensures Ascending(r)
    ensures multiset(r) == multiset(s)
  {
    if s == [] then []
    else
      assert s == [s[0]] + s[1..];
      Insert(s[0], SortAscending(s[1..]))
  }

  /** Sorting keeps the length, and a duplicate-free input stays duplicate-free. */
  lemma SortKeeps(s: seq<int>)
    ensures |SortAscending(s)| == |s|
    ensures forall x :: x in SortAscending(s) <==> x in s
    ensures Distinct(s) ==> Distinct(SortAscending(s))
  {
    var r := SortAscending(s);
    assert |r| == |multiset(r)| == |multiset(s)| == |s|;
    forall x ensures x in r <==> x in s {
      assert x in r <==> x in multiset(r);
      assert x in s <==> x in multiset(s);
    }
    if Distinct(s) {
      forall i, j | 0 <= i < j < |r| ensures r[i] != r[j] {
        if r[i] == r[j] {
          DistinctCount(s, r[i]);
          TwiceCount(r, i, j);
        }
      }
    }
  }

  /** In a duplicate-free sequence every value occurs at most once. */
  lemma {:induction false} DistinctCount(s: seq<int>, x: int)
    requires Distinct(s)
    ensures multiset(s)[x] <= 1
    decreases |s|
  {
    if s != [] {
      assert s == [s[0]] + s[1..];
      DistinctCount(s[1..], x);
      if s[0] == x {
        assert x !in s[1..];
      }
    }
  }

  /** A value held at two positions occurs at least twice. */
  lemma {:induction false} TwiceCount(s: seq<int>, i: nat, j: nat)
    requires i < j < |s| && s[i] == s[j]
    ensures multiset(s)[s[i]] >= 2
  {
    assert s == s[..i] + [s[i]] + s[i + 1..j] + [s[j]] + s[j + 1..];
  }

  /** The guarantees of a draw: six distinct main numbers from 1..45 in
      strictly ascending order, and a bonus number from 1..45 that is not
      among them. */
  predicate ValidDraw(d: LottoDraw)
  {
    |d.main| == MainCount &&
    (forall i, j :: 0 <= i < j < |d.main| ==> d.main[i] < d.main[j]) &&
    (forall i :: 0 <= i < |d.main| ==> Lowest <= d.main[i] <= Highest) &&
    Lowest <= d.bonus <= Highest && d.bonus !in d.main
  }

  method GenerateLottoNumbers(mainDraws: seq<int>, bonusDraws: seq<int>) returns (draw: Option<LottoDraw>)
    requires InRange(mainDraws, Lowest, Highest)
    requires InRange(bonusDraws, Lowest, Highest)
    ensures draw.Some? <==>
              Sample(MainCount, [], mainDraws).Some? &&
              Sample(1, SortAscending(Sample(MainCount, [], mainDraws).value), bonusDraws).Some?
    ensures draw.Some? ==> ValidDraw(draw.value)
    ensures draw.Some? ==> draw.value.main == SortAscending(Sample(MainCount, [], mainDraws).value)
    ensures draw.Some? ==> [draw.value.bonus] == Sample(1, draw.value.main, bonusDraws).value
  {
    var picked := CreateUniqueNumbers(MainCount, Lowest, Highest, [], mainDraws);
    if picked.None? {
      return None;
    }
    var mainNumbers := SortAscending(picked.value);
    SortKeeps(picked.value);
    var bonus := CreateUniqueNumbers(1, Lowest, Highest, mainNumbers, bonusDraws);
    if bonus.None? {
      return None;
    }
    var r := LottoDraw(mainNumbers, bonus.value[0]);
    forall i | 0 <= i < |mainNumbers| ensures mainNumbers[i] in picked.value {
      assert mainNumbers[i] in mainNumbers;
    }
    forall i, j | 0 <= i < j < |mainNumbers| ensures mainNumbers[i] < mainNumbers[j] {
      assert mainNumbers[i] != mainNumbers[j];
    }
    assert bonus.value == [r.bonus];
    draw := Some(r);
  }

  /** Both requests of a draw are feasible, so some random stream finishes
      each of them: the main draw, and the bonus draw for any six distinct
      main numbers. */
  lemma DrawCanFinish(mainNumbers: seq<int>)
    requires Distinct(mainNumbers) && |mainNumbers| == MainCount
    ensures exists d :: InRange(d, Lowest, Highest) && Sample(MainCount, [], d).Some?
    ensures exists d :: InRange(d, Lowest, Highest) && Sample(1, mainNumbers, d).Some?
  {
    assert Elems([]) == {};
    FinishesIffFeasible(MainCount, Lowest, Highest, []);
    var e := Elems(mainNumbers);
    DistinctSize(mainNumbers);
    SubsetSize(e * Range(Lowest, Highest), e);
    FinishesIffFeasible(1, Lowest, Highest, mainNumbers);
  }
}
