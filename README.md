# Zigzag pivots, chart formations and RDP trend lines

This project models two parts of a stock-chart pattern finder.

1. **The zigzag pivot detector and formation matcher** (`pp/patternfinder.py`).
   - `Finder.init_pivots(thresh)` makes one pass over the close prices `X`.
     It labels each index PEAK (+1), VALLEY (-1) or 0 in the array
     `pivots`, then collects the labelled indices into `pv_points`.
   - `_identify_initial_pivot` decides the label of index 0 beforehand,
     using a running maximum and minimum.
   - The six predicates `_is_hs` … `_is_triple_bottom` test a window of
     5 or 7 pivot points for a head-and-shoulders, double or triple
     formation. Closeness is measured by the relative test
     `_is_close_enough`.
   - `find_pattern` slides the chosen predicate over every offset of
     `pv_points` and collects the index windows where it holds.
2. **Ramer-Douglas-Peucker trend-line simplification** (`pp/rdp.py`).
   - This is the version that splits at the farthest interior point. Its
     left half `points[:f]` excludes the split point; the right half
     `points[f:]` starts with it.
   - `test/__test_rdp.py` contains a copy of the same algorithm whose
     halves are joined by element-by-element copy loops. It is modelled
     too, and proved to return the same list.

## Modules

- `Zigzag` (`zigzag.dfy`) is the specification of `init_pivots` and
  `_identify_initial_pivot` as functions:
  - `InitialPivot` is the initial label;
  - `Walk` is the loop state after each index;
  - `Finish` is the forced last label;
  - `Pivots` is the final label array;
  - `Project` gives `pv_points`.

  Lemmas prove the loop invariant, the commit rules, the running extreme,
  the alternation of pivots with its one exception, and the exact
  projection.
- `Formations` (`formations.dfy`) holds `_is_close_enough` and the six
  window predicates, written guard by guard as in the source.
  - A second, table-driven description (`TableMatch`) describes every
    formation by four things: its size, the kind of its first point, its
    ordering tests, and its closeness groups.
  - `HoldsIsTableMatch` proves that the two descriptions agree.
- `PatternFinder` (`patternfinder.dfy`) holds the class `Finder`.
  - It has the price series `X`, the label array `pivots`, updated in
    place, and the sequence `pvPoints`.
  - Its methods carry the loops of the source and are proved to compute
    the `Zigzag` functions, `MatchOffsets` and `Windows`.
- `Rdp` (`rdp.dfy`) contains:
  - `Point`, `Line`, and the squared distance `DistSq`;
  - the argmax scan `Scan`;
  - the recursive specification `Simplify`, with its structural
    properties;
  - the class `RDP`, whose static method `DouglasPeucker` runs the
    argmax loop and the recursion.
- `KData` (`kdata.dfy`) holds the candle record `KBlock` of `pp/kdata.py`. All its prices and the volume are reals, as `float` makes them there; `Closes` gives the close prices.
- `RdpScript` (`rdpscript.dfy`) models `douglas_peucker` of
  `test/__test_rdp.py`, with its copy loops.

`Line.dist` divides by `sqrt(m*m + 1)`, and Dafny reals have no square
root. The model therefore compares squared distances.
- `DistRanking` proves that ranking points by distance is the same as
  ranking them by squared distance.
- `DistAgainstEps` proves that, for `eps >= 0`, `dist > eps` holds
  exactly when the squared distance exceeds `eps*eps`.

## Model

| member | source | states |
|---|---|---|
| Zigzag.InitialPivot | pp/patternfinder.py:413-442 | `_identify_initial_pivot` returns PEAK or VALLEY, never 0 |
| Zigzag.FirstArgMax | pp/patternfinder.py:433-435 | the index `max_t` kept by the scan lies before the current index |
| Zigzag.FirstArgMin | pp/patternfinder.py:437-439 | the index `min_t` kept by the scan lies before the current index |
| Zigzag.ArgExtremes | pp/patternfinder.py:424-439 | `max_t`/`min_t`: the maximum (minimum) of the prefix scanned so far, at the first index where it occurs (replaced only on a strict increase or decrease) |
| Zigzag.InitialFrom | pp/patternfinder.py:424-442 | the initial label is always PEAK or VALLEY |
| Zigzag.InitialPivotFallback | pp/patternfinder.py:441-442 | if no threshold is crossed, index 0 is a VALLEY exactly when `X[0] < X[-1]`, and a PEAK exactly otherwise |
| Zigzag.InitialPivotAtCrossing | pp/patternfinder.py:427-431 | the first crossing decides: a rise above the running minimum gives VALLEY iff that minimum is `X[0]` itself (`min_t == 0`); a fall below the running maximum gives PEAK iff that maximum is `X[0]` (`max_t == 0`); otherwise the opposite label |
| Zigzag.InitialFromSkips | pp/patternfinder.py:424-439 | stretches of the scan without a threshold crossing do not change the label |
| Zigzag.Start | pp/patternfinder.py:273-286 | before the loop: one label per price, all 0 except `pivots[0] = initial_pivot`; `trend = -initial_pivot`, `last_pivot_t = 0`, `last_pivot_x = X[0]` |
| Zigzag.Step | pp/patternfinder.py:288-308 | one iteration: the trend flips exactly when the ratio `x / last_pivot_x` crosses the current trend's threshold; then the old trend is written at `last_pivot_t` and the extreme moves to t; otherwise the labels are unchanged, `last_pivot_t` stays or moves to t, and the new `last_pivot_x` is at most (trend -1) or at least (trend 1) both the old one and `x` |
| Zigzag.Walk | pp/patternfinder.py:284-308 | the loop keeps one label per price, `last_pivot_t` below the current index, and `last_pivot_x == X[last_pivot_t]` |
| Zigzag.RunningExtreme | pp/patternfinder.py:285-308 | `last_pivot_x` is the minimum of X since the last commit while `trend == -1`, and the maximum otherwise |
| Zigzag.WalkInv | pp/patternfinder.py:274-308 | loop invariant: labels in {-1,0,1}; index 0 labelled; nothing labelled after the running extreme; committed pivots alternate in kind, even when index 0 is overwritten; the last committed kind is the opposite of `trend` |
| Zigzag.CommitWrites | pp/patternfinder.py:291-308 | a commit happens exactly when the ratio to `last_pivot_x` crosses the current trend's threshold (a VALLEY only at `>= 1+thresh`, a PEAK only at `<= 1-thresh`); it writes the current trend at `last_pivot_t`, flips the trend and moves `last_pivot_t` to t; otherwise the labels are unchanged |
| Zigzag.LastPivotGrows | pp/patternfinder.py:287-308 | `last_pivot_t` never decreases |
| Zigzag.CommitsIncrease | pp/patternfinder.py:291-308 | the indices at which the loop commits strictly increase |
| Zigzag.FinalState | pp/patternfinder.py:264-308 | the state after the loop has one label per price, `last_pivot_x == X[last_pivot_t]`, and satisfies the loop invariant of `WalkInv` |
| Zigzag.Finish | pp/patternfinder.py:310-313 | the final step changes only the last label, and leaves it non-zero |
| Zigzag.Pivots | pp/patternfinder.py:264-313 | the label array of `init_pivots` has the shape stated by `PivotsShape` |
| Zigzag.FinishShape | pp/patternfinder.py:310-313 | after the final step: every label is in range, the first and last labels are non-zero, and the pivot points run from index 0 to the last index and alternate, except that the last two have the same kind exactly when `last_pivot_t != t_n-1` |
| Zigzag.PivotsShape | pp/patternfinder.py:264-313 | after `init_pivots`: `len(pivots) == len(X)`, every label is in {-1,0,1}, the first and last labels are non-zero, and the pivots alternate except for the forced last label, which repeats its predecessor's kind exactly when the final extreme is not the last index |
| Zigzag.Project | pp/patternfinder.py:315 | there are no more pivot points than labels |
| Zigzag.ProjectSound | pp/patternfinder.py:315 | every pivot point is a labelled index with its label, and the points are in strictly increasing index order |
| Zigzag.ProjectComplete | pp/patternfinder.py:315 | every labelled index appears among the pivot points |
| Zigzag.ProjectExact | pp/patternfinder.py:315 | `pv_points` is exactly the set of labelled indices, with their labels, in increasing index order |
| Zigzag.ProjectFirst | pp/patternfinder.py:274-275 | a labelled index 0 is the first pivot point |
| Zigzag.CommitAppends | pp/patternfinder.py:291-308 | a commit at `last_pivot_t > 0` appends the running extreme, with the old trend as its kind, to the pivot points; a commit at `last_pivot_t == 0` overwrites `pivots[0]` and so replaces the first pivot point instead of appending |
| Formations.Abs | pp/patternfinder.py:28 | `abs` is non-negative and equals x or -x |
| Formations.IsCloseEnough | pp/patternfinder.py:20-28 | for a positive `p2`, `_is_close_enough(p1, p2, delta)` holds iff `abs(p1-p2) <= delta*p2` |
| Formations.CloseEnoughMeans | pp/patternfinder.py:20-28 | for a positive reference price, `_is_close_enough(p1, p2, d)` holds iff `abs(p1-p2) <= d*p2`; for a negative one the inequality is reversed |
| Formations.CloseReflexive | pp/patternfinder.py:28 | every price is close to itself when `d >= 0` |
| Formations.CloseMonotone | pp/patternfinder.py:28 | a larger tolerance accepts everything a smaller one does |
| Formations.CloseNotSymmetric | pp/patternfinder.py:28 | the tolerance is relative to the second argument: (1, 2, 0.5) passes and (2, 1, 0.5) fails |
| Formations.Price | pp/patternfinder.py:49 | the price at a pivot point is positive |
| Formations.IsHs | pp/patternfinder.py:31-63 | false when `cur > len(pv_points) - 5` or E1 is not a PEAK; when true, `e3 >= e1` and `e3 >= e5` |
| Formations.IsIhs | pp/patternfinder.py:66-98 | false when `cur > len(pv_points) - 5` or E1 is not a VALLEY; when true, `e3 <= e1` and `e3 <= e5` |
| Formations.IsDoubleBottom | pp/patternfinder.py:101-129 | false when `cur > len(pv_points) - 5` or E1 is not a PEAK; when true, `e3 <= e1` and `e3 <= e5` |
| Formations.IsDoubleTop | pp/patternfinder.py:132-160 | false when `cur > len(pv_points) - 5` or E1 is not a VALLEY; when true, `e3 >= e1` and `e3 >= e5` |
| Formations.IsTripleBottom | pp/patternfinder.py:163-204 | false when `cur > len(pv_points) - 7` or E1 is not a PEAK; when true, e3 and e5 are at most e1 and e7 |
| Formations.IsTripleTop | pp/patternfinder.py:207-248 | false when `cur > len(pv_points) - 7` or E1 is not a VALLEY; when true, e3 and e5 are at least e1 and e7 |
| Formations.Holds | pp/patternfinder.py:365-411 | the predicate each `find_*` wrapper hands to `find_pattern`; when it holds, the window fits and E1 has the required kind |
| Formations.HsTable | pp/patternfinder.py:31-63 | `_is_hs` is exactly the table description: size 5, first point PEAK, E3 not below E1 and E5, E1/E5 and E2/E4 close to their means |
| Formations.IhsTable | pp/patternfinder.py:66-98 | `_is_ihs` is exactly the table description: size 5, first point VALLEY, E3 not above E1 and E5, E1/E5 and E2/E4 close |
| Formations.DoubleTopTable | pp/patternfinder.py:132-160 | `_is_double_top` is exactly the table description: size 5, first point VALLEY, E3 not below E1 and E5, E2/E4 close |
| Formations.DoubleBottomTable | pp/patternfinder.py:101-129 | `_is_double_bottom` is exactly the table description: size 5, first point PEAK, E3 not above E1 and E5, E2/E4 close |
| Formations.TripleTopTable | pp/patternfinder.py:207-248 | `_is_triple_top` is exactly the table description: size 7, first point VALLEY, E3 and E5 not below E1 and E7, E2/E4/E6 and E3/E5 close |
| Formations.TripleBottomTable | pp/patternfinder.py:163-204 | `_is_triple_bottom` is exactly the table description: size 7, first point PEAK, E3 and E5 not above E1 and E7, E2/E4/E6 and E3/E5 close |
| Formations.HoldsIsTableMatch | pp/patternfinder.py:31-248 | all six predicates agree with the table-driven description at every offset |
| Formations.FiveOrdered | pp/patternfinder.py:54 | the table's order test on a 5-point window is the source's comparison of E3 with E1 and E5 |
| Formations.SevenOrdered | pp/patternfinder.py:184-189 | the table's order test on a 7-point window is the source's comparison of E3 and E5 with E1 and E7 |
| Formations.PairClose | pp/patternfinder.py:57-63 | a closeness group of two prices is the test of both against their mean |
| Formations.TripleClose | pp/patternfinder.py:191-196 | a closeness group of three prices is the test of all three against their mean |
| PatternFinder.MatchOffsets | pp/patternfinder.py:359-361 | no more matching offsets than offsets scanned |
| PatternFinder.MatchOffsetsExact | pp/patternfinder.py:359-361 | the offsets are exactly those where the predicate holds, in strictly increasing order |
| PatternFinder.Window | pp/patternfinder.py:362 | the window holds the indices of the next `count` pivot points, cut short at the end of `pv_points` |
| PatternFinder.Windows | pp/patternfinder.py:359-362 | one window per matching offset, in the same order |
| PatternFinder.MatchesArePatterns | pp/patternfinder.py:365-411 | on index-ordered pivot points, every reported window has exactly `Size(f)` strictly increasing indices into X |
| PatternFinder.WindowIsPattern | pp/patternfinder.py:362 | the window at a matching offset is full-length and strictly increasing |
| PatternFinder.Finder.constructor | pp/patternfinder.py:252-262 | keeps X; `pivots` and `pv_points` start empty |
| PatternFinder.Finder.IdentifyInitialPivot | pp/patternfinder.py:413-442 | the scan with running max/min returns `InitialPivot`, which is PEAK or VALLEY |
| PatternFinder.Finder.InitPivots | pp/patternfinder.py:264-315 | `pivots` becomes a fresh array equal to `Pivots(X, thresh)`, of length `len(X)`, with the shape `PivotsShape` proves; `pv_points` is its exact projection |
| PatternFinder.Finder.LabelPivots | pp/patternfinder.py:270-313 | the label array the loop and the final step produce is `Pivots(X, thresh)` |
| PatternFinder.Finder.WalkPivots | pp/patternfinder.py:273-308 | the loop over indices 1 .. len(X)-1 ends in the state `Walk(X, …, len(X))` |
| PatternFinder.Finder.CollectPivots | pp/patternfinder.py:315 | the collected list is `Project(pivots)` |
| PatternFinder.Finder.FindPattern | pp/patternfinder.py:351-363 | returns, in increasing offset order and with overlaps allowed, the window of every offset where the predicate holds |
| PatternFinder.Finder.FindHs | pp/patternfinder.py:365-371 | `find_pattern(_is_hs, 5, delta)`; every result has 5 strictly increasing indices |
| PatternFinder.Finder.FindIhs | pp/patternfinder.py:373-379 | `find_pattern(_is_ihs, 5, delta)`; every result has 5 strictly increasing indices |
| PatternFinder.Finder.FindDoubleTop | pp/patternfinder.py:381-387 | `find_pattern(_is_double_top, 5, delta)`; every result has 5 strictly increasing indices |
| PatternFinder.Finder.FindDoubleBottom | pp/patternfinder.py:389-395 | `find_pattern(_is_double_bottom, 5, delta)`; every result has 5 strictly increasing indices |
| PatternFinder.Finder.FindTripleTop | pp/patternfinder.py:397-403 | `find_pattern(_is_triple_top, 7, delta)`; every result has 7 strictly increasing indices |
| PatternFinder.Finder.FindTripleBottom | pp/patternfinder.py:405-411 | `find_pattern(_is_triple_bottom, 7, delta)`; every result has 7 strictly increasing indices |
| Rdp.LineThrough | pp/rdp.py:21-23 | both defining points lie on the line `y = m*x + k` |
| Rdp.Chord | pp/rdp.py:56 | the first and the last point lie on the chord |
| Rdp.DistSq | pp/rdp.py:25-26 | the squared distance is non-negative |
| Rdp.LineThroughEndpoints | pp/rdp.py:21-26 | both defining points are at distance 0 from `Line(a, b)` |
| Rdp.DistRanking | pp/rdp.py:25-26 | comparing distances to one line is comparing squared distances |
| Rdp.DistAgainstEps | pp/rdp.py:64 | for `eps >= 0`, `dist > eps` iff the squared distance exceeds `eps*eps` |
| Rdp.Scan | pp/rdp.py:57-61 | `_furthest` stays below the scanned bound, and it is unset (0) exactly when `_max` is 0 |
| Rdp.ScanFacts | pp/rdp.py:57-61 | `_max` is the maximum interior distance, and `_furthest` is the first interior index that attains it (strict `>`) |
| Rdp.SplitIndex | pp/rdp.py:58-66 | a split index lies in `1 .. len-2`, so both recursive calls are on non-empty, strictly shorter slices |
| Rdp.Simplify | pp/rdp.py:50-73 | the output has between 1 and `len(points)` points, starts with `points[0]` and ends with `points[-1]`; a single point returns itself |
| Rdp.SimplifyStep | pp/rdp.py:63-71 | after the argmax loop: with `_max > eps` the split index is interior and the output is the left result followed by the right one; otherwise the output is `[points[0], points[-1]]` |
| Rdp.SimplifySplits | pp/rdp.py:64-68 | a split result is the left result (`points[:f]`) followed by the right result (`points[f:]`) |
| Rdp.KeptEmbeds | pp/rdp.py:54-73 | the output is the subsequence of the input at strictly increasing positions, from the first position to the last |
| Rdp.KeptCovers | pp/rdp.py:57-71 | every input point between two consecutive kept positions is within eps of the line through them |
| Rdp.ChordKept | pp/rdp.py:57-71 | the chord is kept exactly when no interior point is farther than eps from it |
| Rdp.SimplifyNoDuplicates | pp/rdp.py:65-68 | the output has pairwise distinct x and no repeated point |
| Rdp.SimplifyIncreasing | pp/rdp.py:32-33 | when input x strictly increases, so does output x |
| Rdp.SimplifyChord | pp/rdp.py:57-71 | the output is exactly `[points[0], points[-1]]` iff no interior point is farther than eps from the chord |
| Rdp.FlatSeries | pp/rdp.py:57-71 | a flat series gives its two ends |
| Rdp.FlatExample | pp/rdp.py:31-33 | the closes 0, 0, 0, 0, 0 with eps 0.001 give the trend line (0, 0)-(4, 0) |
| Rdp.SimplifyWithinEps | pp/rdp.py:52-71 | for each consecutive pair of output points, every input point strictly between them in x is within eps of the line through them |
| Rdp.IndexedPoints | pp/rdp.py:32 | point i is `(i, close[i])`, so x strictly increases |
| Rdp.TrendLine | pp/rdp.py:31-33 | the trend line starts at `(0, close[0])`, ends at the last close, and runs left to right |
| KData.Closes | pp/rdp.py:31 | `close` has one entry per candle, the candle's close price, in order |
| Rdp.RDP.constructor | pp/rdp.py:29-35 | `close` holds the closes of `klist`; `lines` is `Simplify` of the indexed points; `line_x`/`line_y` are its coordinates |
| Rdp.RDP.FarthestInterior | pp/rdp.py:57-61 | the argmax loop computes `Scan` over the interior points |
| Rdp.RDP.DouglasPeucker | pp/rdp.py:50-73 | the recursive method returns `Simplify(points, eps)` |
| RdpScript.DouglasPeucker | test/__test_rdp.py:30-56 | the script's version returns `Simplify(points, eps)`: the same list as `RDP.douglas_peucker` |
| RdpScript.AppendAll | test/__test_rdp.py:47-50 | the copy loop leaves `res` followed by `src` |

## Left out

- Rendering and I/O are not modelled: `Finder.plot`, `RDP.show`, `RDP.render_png`, `plot_stock`, the HTTP server, candle download from the network, and the two script runners. They only fetch data and plot.
- `kdata.get_close_nparray` is not part of this model. `Finder` is built from the price list `X` directly and does not keep `klist`.
- `find_pattern` takes a function reference in the source. The model passes a `Formation` tag instead, and `Holds` dispatches on it to the six predicates.
- Prices are `real` and must be positive (`Positive(X)`), because the source divides by them. Floating-point rounding is not modelled.
- The `int8` dtype of `pivots` is modelled as `int`. The values are only ever -1, 0 and 1, so no truncation can occur.
- `Line.dist` uses `sqrt`, which is replaced by the squared distance. `DistRanking` and `DistAgainstEps` justify the replacement.
- `Rdp.Simplify`, `Rdp.RDP.DouglasPeucker`, `Rdp.RDP.constructor`: their preconditions are stronger than the source's.
  - They require `eps >= 0`. With a negative eps and every interior point on the chord, the source reads `_furthest` before it is assigned and fails.
  - They require pairwise distinct x, so that no chord is vertical. The source divides by zero on such input.
  - They require at least one point; the source fails on an empty list.
- `RdpScript.DouglasPeucker`: has the same preconditions as `Rdp.RDP.DouglasPeucker`, for the same reasons.
- `Zigzag.InitialPivot` requires `len(X) >= 1`. The source reads `X[0]` first and raises IndexError on an empty series.
- `Zigzag.Pivots` requires `len(X) >= 1`, for the same reason.
- `PatternFinder.Finder.IdentifyInitialPivot` requires `len(X) >= 1`, for the same reason.
- `PatternFinder.Finder.InitPivots` requires `len(X) >= 1`, for the same reason.
- `PatternFinder.Finder.LabelPivots` requires `len(X) >= 1`, for the same reason.
- `PatternFinder.Finder.WalkPivots` requires `len(X) >= 1`, for the same reason.
- Python 2 integer division in `Line` is not modelled; coordinates are reals.
- The script's `Point` and `Line` at `test/__test_rdp.py:15-27` are identical to those of `pp/rdp.py`. They are reused from `Rdp`, together with its argmax loop `RDP.FarthestInterior`.
- No idempotence or threshold-monotonicity property is claimed for the simplification, since the source does not have one.
- The left half of an RDP split is `points[:f]`, without the split point, as the code is written. A textbook description would recurse on `points[:f+1]`; the model follows the code.
