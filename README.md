# Lottery draw and theme switch of lotto.js, in Dafny

This project models the algorithmic core of the lottery page `lotto.js`:

- `createUniqueNumbers(count, min, max, excludeSet)`. It seeds a JavaScript
  `Set` with the excluded values and keeps adding random integers from
  `[min, max]` until the set holds `count + excludeSet.size` values. It then
  returns the members that are not excluded, in insertion order. The model is
  the method `UniqueNumbers.CreateUniqueNumbers`, with a `while` loop over the
  working set. It is proved equal to the specification function
  `UniqueNumbers.Sample`, and the lemmas beside them state what a draw
  guarantees.
- `generateLottoNumbers()`. It draws six main numbers from 1..45 and sorts them
  ascending. It then draws one bonus number from 1..45 with the main numbers
  excluded. This is `Lotto.GenerateLottoNumbers`.
- The theme switch `setTheme` / `initTheme` / `toggleTheme`. The pure choice of
  the next theme is `Theme.ToggleTarget` and `Theme.InitialTheme`. The state
  that `setTheme` writes is the class `Theme.Page`: the `data-theme`
  attribute, the stored `theme` entry and the toggle icon.

Modelling choices:

- A JavaScript `Set` is a duplicate-free `seq<int>` kept in insertion order.
  `excludeSet` is such a sequence; `requires Distinct(excludeSet)` only
  restates that a `Set` holds no duplicates.
- The random draw `Math.floor(Math.random() * (max - min + 1)) + min` is a
  supplied stream `draws` of integers, each in `[min, max]`. The loop takes
  the next element wherever the source calls `Math.random`.
- The source's loop has no iteration cap, and it cannot be proved to end for
  an arbitrary random source. So the model reads only the supplied stream. When
  the stream runs out before the set is full, it answers `None`, meaning "the
  source would still be drawing". `Feasibility.FinishesIffFeasible` proves
  that the loop can end exactly when
  `count + |excludeSet ∩ [min, max]| <= max - min + 1`. For an infeasible
  request, no stream of draws ends it (`Feasibility.InfeasibleNeverReturns`).
- Where a stricter design would reject an infeasible request with an error,
  the code has no such guard. The model follows the code, so it invents no
  error path; the non-termination is stated as a lemma instead.
- A negative `count` asks for nothing: the loop does not run and the result is
  empty, as in the source (`Wanted(count)` is the non-negative part).
- The two draws of `generateLottoNumbers` read consecutive parts of one
  random stream. Each call receives its part as its own sequence.
- `Array.prototype.sort((a, b) => a - b)` is a library call. It is modelled
  by the function `Lotto.SortAscending`, proved ascending and a permutation.
- `localStorage.getItem("theme")` and the `prefers-color-scheme` media query
  are inputs. The storage entry is a field of `Theme.Page`, and the
  preference is a parameter of `InitTheme`.

## Model

| member | source | states |
|---|---|---|
| UniqueNumbers.Add | lotto.js:57 | `Set.add`: the new set holds the old values and `x`, keeps the old insertion order as a prefix, grows by at most one, and stays duplicate-free |
| UniqueNumbers.Without | lotto.js:60 | the filter keeps exactly the members not in `excludeSet` and never lengthens the sequence |
| UniqueNumbers.CreateUniqueNumbers | lotto.js:52-61 | the loop over the working set returns what the specification `Sample` returns for the same draws; a finished draw has exactly `count` distinct values, all in `[min, max]` and none excluded |
| UniqueNumbers.Working | lotto.js:53-57 | definition of the working set `numbers` after each draw, seeded with `excludeSet`; its contract: it keeps at least the seed's size and grows by at most one value per draw |
| UniqueNumbers.Run | lotto.js:55-60 | definition of the `while` loop and its exit from a given draw on; its contract: a result holds no excluded value, and `None` means even the whole stream left the set short of `count + excludeSet.size` |
| UniqueNumbers.Sample | lotto.js:52-61 | definition of the whole of `createUniqueNumbers` for a given stream of draws, with the same contract as `Run` from the first draw |
| UniqueNumbers.WorkingStep | lotto.js:55-58 | one loop iteration adds the next draw to the working set |
| UniqueNumbers.WorkingShape | lotto.js:53-58 | loop invariant: the working set is duplicate-free and starts with the seeded excluded values; every value after them is in `[min, max]` and not excluded |
| UniqueNumbers.WorkingGrows | lotto.js:55-57 | the working set never shrinks: each earlier state is a prefix of every later one |
| UniqueNumbers.WorkingMembers | lotto.js:53-57 | the working set holds exactly the seeded excluded values and the drawn values |
| UniqueNumbers.WithoutAppend | lotto.js:60 | filtering two joined pieces filters each piece |
| UniqueNumbers.WithoutNone | lotto.js:60 | the filter keeps a sequence with no excluded value unchanged |
| UniqueNumbers.WithoutAll | lotto.js:60 | the filter removes a sequence of excluded values entirely |
| UniqueNumbers.FilterDropsSeed | lotto.js:53-60 | the filter removes exactly the seeded excluded members: the result is the working set past its first `excludeSet.size` values |
| UniqueNumbers.RunDrawn | lotto.js:55-60 | wherever the loop stops, the result has `count` distinct in-range values that are not excluded |
| UniqueNumbers.SampleDrawn | lotto.js:52-61 | a finished draw has exactly `count` pairwise distinct values, each in `[min, max]`, none in `excludeSet`; excluded values outside the range never leak |
| UniqueNumbers.FirstIndex | lotto.js:56 | the position of the first draw of a value, which holds that value |
| UniqueNumbers.FirstIndexFirst | lotto.js:56 | no position before the first draw of a value holds that value |
| UniqueNumbers.FirstIndexExtend | lotto.js:55-57 | later draws do not move the first draw of a value already drawn |
| UniqueNumbers.WorkingOrder | lotto.js:53-57 | the values added to the working set are drawn values, in the order of their first draw |
| UniqueNumbers.OrderedSuffix | lotto.js:60 | dropping the seeded prefix keeps the first-draw order of the rest |
| UniqueNumbers.OrderedExtend | lotto.js:55-57 | draws after the loop stops do not change the first-draw order |
| UniqueNumbers.RunOrder | lotto.js:55-60 | wherever the loop stops, the result lists drawn values in first-draw order |
| UniqueNumbers.SampleOrder | lotto.js:57-60 | the result is in the order in which the values were first drawn (Set insertion order), not sorted |
| Feasibility.Range | lotto.js:56 | the draw range holds exactly the integers `min..max` |
| Feasibility.RangeSize | lotto.js:56 | the draw range has `max - min + 1` values |
| Feasibility.DistinctSize | lotto.js:53 | helper for `WorkingBound` and `UnclaimedSize`: a duplicate-free sequence has as many values as positions, which is what a `Set`'s `size` counts |
| Feasibility.SubsetSize | lotto.js:55 | helper for `WorkingBound`: a subset is no larger than its superset |
| Feasibility.WorkingBound | lotto.js:55-57 | the working set never holds more than `|excludeSet ∪ [min, max]|` values |
| Feasibility.RunNeverStops | lotto.js:55-57 | for an infeasible request, the loop condition holds after every draw |
| Feasibility.InfeasibleNeverReturns | lotto.js:55-57 | if `count + |excludeSet ∩ [min,max]| > max - min + 1`, no stream of in-range draws ever ends the loop |
| Feasibility.Unclaimed | lotto.js:56 | the values of the range not in `excludeSet`, ascending and so never repeating |
| Feasibility.UnclaimedSize | lotto.js:55-56 | there are `max - min + 1 - |excludeSet ∩ [min,max]|` unclaimed values |
| Feasibility.WorkingFresh | lotto.js:55-57 | draws that never repeat and are never excluded each grow the working set by one |
| Feasibility.RunFinishes | lotto.js:55-58 | fed the unclaimed values, the loop stops after `count` draws and returns exactly those first `count` values |
| Feasibility.FinishesIffFeasible | lotto.js:55-58 | some in-range stream ends the loop if and only if the request is feasible |
| Feasibility.FullRangeDraw | lotto.js:52-61 | asking for the whole range with nothing excluded returns every value of `[min, max]` exactly once |
| Lotto.AscendingCons | lotto.js:78 | helper for `Insert`: a value no larger than any element of an ascending sequence can go in front of it |
| Lotto.Insert | lotto.js:78 | insertion into an ascending sequence stays ascending and adds exactly that value |
| Lotto.SortAscending | lotto.js:78 | the sort's result is ascending and a permutation of its input |
| Lotto.SortKeeps | lotto.js:78 | sorting keeps the length and the values, and keeps a duplicate-free input duplicate-free |
| Lotto.DistinctCount | lotto.js:78 | helper for `SortKeeps`: a duplicate-free sequence holds each value at most once |
| Lotto.TwiceCount | lotto.js:78 | helper for `SortKeeps`: a value at two positions occurs at least twice |
| Lotto.GenerateLottoNumbers | lotto.js:77-83 | the draw finishes exactly when both samples finish. The main numbers are the sorted main sample: six distinct numbers from 1..45, strictly ascending. The bonus is the single value of the bonus sample, from 1..45 and not among the main numbers |
| Lotto.DrawCanFinish | lotto.js:78-79 | both requests of a draw are feasible, so some random stream finishes the main draw and the bonus draw |
| Theme.CurrentTheme | lotto.js:48 | a missing or empty `data-theme` attribute reads as light; any other value reads as itself |
| Theme.ToggleTarget | lotto.js:47-50 | `toggleTheme` picks light exactly when the attribute is "dark"; otherwise, an absent attribute included, it picks dark |
| Theme.IconFor | lotto.js:33 | the sun icon is shown exactly for the dark theme |
| Theme.InitialTheme | lotto.js:36-45 | a saved "dark" or "light" is applied as saved; otherwise dark exactly when the system prefers dark |
| Theme.ToggleTwice | lotto.js:47-50 | toggling twice from "dark" or "light" restores it |
| Theme.InitStable | lotto.js:36-45 | once `initTheme` has saved its choice, it keeps that choice whatever the preference becomes |
| Theme.Page.SetTheme | lotto.js:30-34 | after `setTheme(t)` the attribute and the stored theme both equal `t`, and the icon is the sun exactly when `t` is "dark" |
| Theme.Page.InitTheme | lotto.js:36-45 | `initTheme` applies the theme `InitialTheme` picks from the stored entry and the preference |
| Theme.Page.ToggleTheme | lotto.js:47-50 | `toggleTheme` applies `ToggleTarget` of the old attribute; the result is light exactly when the attribute was "dark" |

## Left out

- The random source itself (lotto.js:56). It is a floating-point `Math.random` and `Math.floor` computation. The model replaces it with a supplied stream of in-range integers, so uniformity is not modelled.
- UniqueNumbers.CreateUniqueNumbers: it does not model running forever. When the supplied draws run out, it answers `None` where the source would keep drawing; `Feasibility.FinishesIffFeasible` states when the real loop can end.
- UniqueNumbers.CreateUniqueNumbers: draws are required to lie in `[min, max]`. When `min > max`, the source's formula yields values outside that interval; that case is not modelled.
- Lotto.GenerateLottoNumbers: rendering (`renderMainNumbers`, `renderBonusNumber`, lotto.js:63-75) is DOM output and is not modelled; the method returns the draw instead.
- DOM event wiring and listeners (lotto.js:232-237), the comment board and the Firebase/Firestore loading (lotto.js:93-230), and `formatCreatedAt` (lotto.js:85-91, a wrapper over a library date formatter): these are UI, network and library code with no algorithm.
- `localStorage` and `matchMedia` are not modelled as I/O. They are the stored-theme field and the preference parameter of `Theme.Page`.
- main.js, the image-classification demo, is not part of this model. It delegates to a hosted inference SDK and works on floating-point scores.
- Determinism under a fixed random source is not stated as a lemma: the model is a function of its draws, so it holds by construction.
