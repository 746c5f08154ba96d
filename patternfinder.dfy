/**
 * `Finder` of pp/patternfinder.py: the close-price series, the label array
 * `pivots` that `init_pivots` fills in place, the list `pv_points` of
 * labelled indices, and the pattern search over it.
 *
 * The methods are proved to compute the specification functions of module
 * Zigzag (`InitialPivot`, `Walk`, `Pivots`, `Project`) and of this module
 * (`MatchOffsets`, `Window`); the properties the source promises are proved
 * about those functions.
 */
module PatternFinder {
  import opened Zigzag
  import opened Formations

  /** The offsets i < hi, in increasing order, at which formation f holds. */
  function MatchOffsets(f: Formation, X: seq<real>, pv: seq<PivotPoint>, delta: real, hi: nat): (offs: seq<nat>)
    requires Positive(X) && IndicesBelow(pv, |X|)
    ensures |offs| <= hi
  {
    if hi == 0 then []
    else MatchOffsets(f, X, pv, delta, hi - 1) + (if Holds(f, X, pv, hi - 1, delta) then [hi - 1] else [])
  }

  /** One more offset: `i` is appended exactly when the formation holds there. */
  lemma MatchOffsetsNext(f: Formation, X: seq<real>, pv: seq<PivotPoint>, delta: real, i: nat)
    requires Positive(X) && IndicesBelow(pv, |X|)
    ensures MatchOffsets(f, X, pv, delta, i + 1)
         == MatchOffsets(f, X, pv, delta, i) + (if Holds(f, X, pv, i, delta) then [i] else [])
  {
  }

  /** `offs` lists exactly the offsets below hi at which f holds, in strictly increasing order. */
  ghost predicate ExactOffsets(offs: seq<nat>, f: Formation, X: seq<real>, pv: seq<PivotPoint>, delta: real, hi: nat)
    requires Positive(X) && IndicesBelow(pv, |X|)
  {
    && (forall j :: 0 <= j < |offs| ==> offs[j] < hi && Holds(f, X, pv, offs[j], delta))
    && (forall j, k :: 0 <= j < k < |offs| ==> offs[j] < offs[k])
    && (forall i :: 0 <= i < hi && Holds(f, X, pv, i, delta) ==> i in offs)
  }

  lemma {:induction false} MatchOffsetsExact(f: Formation, X: seq<real>, pv: seq<PivotPoint>, delta: real, hi: nat)
    requires Positive(X) && IndicesBelow(pv, |X|)
    ensures ExactOffsets(MatchOffsets(f, X, pv, delta, hi), f, X, pv, delta, hi)
    decreases hi
  {
    if hi > 0 {
      MatchOffsetsExact(f, X, pv, delta, hi - 1);
      var prev := MatchOffsets(f, X, pv, delta, hi - 1);
      var offs := MatchOffsets(f, X, pv, delta, hi);
      MatchOffsetsNext(f, X, pv, delta, hi - 1);
      forall j | 0 <= j < |offs| ensures offs[j] < hi && Holds(f, X, pv, offs[j], delta) {
        if j < |prev| {
          assert offs[j] == prev[j];
        }
      }
      forall j, k | 0 <= j < k < |offs| ensures offs[j] < offs[k] {
        if k < |prev| {
          assert offs[j] == prev[j] && offs[k] == prev[k];
        } else {
          assert offs[j] == prev[j];
        }
      }
      forall i | 0 <= i < hi && Holds(f, X, pv, i, delta) ensures i in offs {
        if i < hi - 1 {
          assert i in prev;
        }
      }
    }
  }

  /** The indices of the `count` pivot points from offset i; the slice is cut short at the end of the list. */
  function Window(pv: seq<PivotPoint>, i: nat, count: nat): (w: seq<nat>)
    ensures |w| == if i >= |pv| then 0 else if i + count <= |pv| then count else |pv| - i
    ensures forall k :: 0 <= k < |w| ==> w[k] == pv[i + k].index
  {
    var slice := if i >= |pv| then [] else if i + count <= |pv| then pv[i..i + count] else pv[i..];
    seq(|slice|, k requires 0 <= k < |slice| => slice[k].index)
  }

  /** The window of every offset, in order. */
  function Windows(pv: seq<PivotPoint>, offs: seq<nat>, count: nat): (ws: seq<seq<nat>>)
    ensures |ws| == |offs|
    ensures forall j :: 0 <= j < |offs| ==> ws[j] == Window(pv, offs[j], count)
  {
    if offs == [] then []
    else Windows(pv, offs[..|offs| - 1], count) + [Window(pv, offs[|offs| - 1], count)]
  }

  /** Appending an offset appends its window. */
  lemma WindowsSnoc(pv: seq<PivotPoint>, offs: seq<nat>, i: nat, count: nat)
    ensures Windows(pv, offs + [i], count) == Windows(pv, offs, count) + [Window(pv, i, count)]
  {
    assert (offs + [i])[..|offs|] == offs;
  }

  /** A result of a `find_*` wrapper: `Size(f)` strictly increasing indices into the series. */
  ghost predicate IsPatternOf(X: seq<real>, f: Formation, w: seq<nat>) {
    && |w| == Size(f)
    && (forall k :: 0 <= k < |w| ==> w[k] < |X|)
    && (forall j, k :: 0 <= j < k < |w| ==> w[j] < w[k])
  }

  /**
   * On pivot points in increasing index order, every window the search
   * reports for formation f is a full window of `Size(f)` increasing indices.
   */
  lemma MatchesArePatterns(f: Formation, X: seq<real>, pv: seq<PivotPoint>, delta: real)
    requires Positive(X) && IndicesBelow(pv, |X|) && IndexOrdered(pv)
    ensures var ws := Windows(pv, MatchOffsets(f, X, pv, delta, |pv|), Size(f));
      forall j :: 0 <= j < |ws| ==> IsPatternOf(X, f, ws[j])
  {
    var offs := MatchOffsets(f, X, pv, delta, |pv|);
    MatchOffsetsExact(f, X, pv, delta, |pv|);
    forall j | 0 <= j < |offs| ensures IsPatternOf(X, f, Window(pv, offs[j], Size(f))) {
      WindowIsPattern(f, X, pv, offs[j], delta);
    }
  }

  /** The window at an offset where formation f holds. */
  lemma WindowIsPattern(f: Formation, X: seq<real>, pv: seq<PivotPoint>, i: nat, delta: real)
    requires Positive(X) && IndicesBelow(pv, |X|) && IndexOrdered(pv) && Holds(f, X, pv, i, delta)
    ensures IsPatternOf(X, f, Window(pv, i, Size(f)))
  {
    var w := Window(pv, i, Size(f));
    forall a, b | 0 <= a < b < |w| ensures w[a] < w[b] {
      assert w[a] == pv[i + a].index && w[b] == pv[i + b].index;
    }
  }

  class Finder {
    /** The close prices of the candles the finder was built from. */
    const X: seq<real>
    /** One label per price: PEAK, VALLEY or 0; empty until `InitPivots`. */
    var pivots: array<int>
    /** The labelled indices of `pivots`, with their labels, in index order. */
    var pvPoints: seq<PivotPoint>

    /** `pv_points` is always the projection of `pivots`, which is empty or one label per price. */
    predicate Valid()
      reads this, pivots
    {
      && (pivots.Length == 0 || pivots.Length == |X|)
      && pvPoints == Project(pivots[..])
      && IndicesBelow(pvPoints, |X|)
    }

    /** `Finder.__init__`: both lists start empty. */
    constructor (X: seq<real>)
      ensures this.X == X && pivots.Length == 0 && pvPoints == []
      ensures Valid()
    {
      this.X := X;
      pivots := new int[0];
      pvPoints := [];
    }

    /**
     * `_identify_initial_pivot`: scans for the first index at which the price
     * has risen by `upThresh` over the running minimum or fallen by
     * `downThresh` below the running maximum.
     */
    static method IdentifyInitialPivot(X: seq<real>, upThresh: real, downThresh: real) returns (r: int)
      requires |X| >= 1 && Positive(X)
      ensures r == InitialPivot(X, upThresh, downThresh)
      ensures r == PEAK || r == VALLEY
    {
      var x0 := X[0];
      var maxX, maxT, minX, minT := x0, 0, x0, 0;
      var up := upThresh + 1.0;
      var down := downThresh + 1.0;
      var t := 1;
      while t < |X|
        invariant 1 <= t <= |X|
        invariant maxT == FirstArgMax(X, t) && maxX == X[maxT]
        invariant minT == FirstArgMin(X, t) && minX == X[minT]
        invariant InitialFrom(X, up, down, 1) == InitialFrom(X, up, down, t)
      {
        var xt := X[t];
        if xt / minX >= up {
          assert RisesFromMin(X, up, t);
          return if minT == 0 then VALLEY else PEAK;
        }
        if xt / maxX <= down {
          assert FallsFromMax(X, down, t);
          return if maxT == 0 then PEAK else VALLEY;
        }
        InitialFromNext(X, up, down, t);
        if xt > maxX {
          maxX, maxT := xt, t;
        }
        if xt < minX {
          minX, minT := xt, t;
        }
        t := t + 1;
      }
      var tn := |X| - 1;
      r := if x0 < X[tn] then VALLEY else PEAK;
    }

    /**
     * `init_pivots(thresh)`: labels the zigzag pivots of `X` in a fresh
     * `pivots` array and collects them into `pvPoints`.
     */
    method InitPivots(thresh: real)
      requires |X| >= 1 && Positive(X)
      modifies this
      ensures fresh(pivots)
      ensures pivots[..] == Pivots(X, thresh)
      ensures pvPoints == Project(pivots[..]) && Valid()
      ensures pivots.Length == |X| && WellShaped(pivots[..], |X|)
      ensures ExactProjection(pvPoints, pivots[..])
    {
      pivots := LabelPivots(X, thresh);
      pvPoints := CollectPivots(pivots);
      PivotsShape(X, thresh);
      ProjectExact(pivots[..]);
    }

    /** `init_pivots` up to the forced final label: the labels, on a fresh array. */
    static method LabelPivots(X: seq<real>, thresh: real) returns (a: array<int>)
      requires |X| >= 1 && Positive(X)
      ensures fresh(a) && a[..] == Pivots(X, thresh)
    {
      var upThresh := thresh;
      var downThresh := -1.0 * thresh;
      var initial := IdentifyInitialPivot(X, upThresh, downThresh);
      var tn := |X|;
      var trend, lastT, lastX;
      a, trend, lastT, lastX := WalkPivots(X, upThresh + 1.0, downThresh + 1.0, initial);
      ghost var fs := ZigState(a[..], trend, lastT, lastX);
      assert fs == FinalState(X, thresh);
      if lastT == tn - 1 {
        a[lastT] := trend;
      } else if a[tn - 1] == 0 {
        a[tn - 1] := -trend;
      }
      assert a[..] == Finish(fs, tn);
    }

    /**
     * The loop of `init_pivots` over indices 1 .. len(X) - 1, with the ratio
     * thresholds already shifted by 1: it returns the labels written so far
     * and the final `trend`, `last_pivot_t` and `last_pivot_x`.
     */
    static method WalkPivots(X: seq<real>, upThresh: real, downThresh: real, initial: int)
      returns (a: array<int>, trend: int, lastT: nat, lastX: real)
      requires |X| >= 1 && Positive(X)
      ensures fresh(a) && ZigState(a[..], trend, lastT, lastX) == Walk(X, upThresh, downThresh, initial, |X|)
    {
      a := new int[|X|](_ => 0);
      a[0] := initial;
      trend := -initial;
      lastT := 0;
      lastX := X[0];
      assert a[..] == Start(X, initial).labels;
      for t := 1 to |X|
        invariant ZigState(a[..], trend, lastT, lastX) == Walk(X, upThresh, downThresh, initial, t)
      {
        ghost var s := ZigState(a[..], trend, lastT, lastX);
        var x := X[t];
        var r := x / lastX;
        if trend == -1 {
          if r >= upThresh {
            a[lastT] := trend;
            assert a[..] == s.labels[lastT := -1];
            trend := 1;
            lastX := x;
            lastT := t;
          } else if x < lastX {
            lastX := x;
            lastT := t;
          }
        } else {
          if r <= downThresh {
            a[lastT] := trend;
            assert a[..] == s.labels[lastT := trend];
            trend := -1;
            lastX := x;
            lastT := t;
          } else if x > lastX {
            lastX := x;
            lastT := t;
          }
        }
        assert ZigState(a[..], trend, lastT, lastX) == Step(X, upThresh, downThresh, s, t);
      }
    }

    /** The comprehension that builds `pv_points` from the labels. */
    static method CollectPivots(a: array<int>) returns (pts: seq<PivotPoint>)
      ensures pts == Project(a[..])
    {
      pts := [];
      for i := 0 to a.Length
        invariant pts == Project(a[..i])
      {
        assert a[..i + 1][..i] == a[..i];
        if a[i] != 0 {
          pts := pts + [PivotPoint(i, a[i])];
        }
      }
      assert a[..a.Length] == a[..];
    }

    /**
     * `find_pattern(fncname, count, delta)`: for every offset of
     * `pv_points` at which the formation holds, in increasing order, the
     * indices of the next `count` pivot points.
     */
    method FindPattern(f: Formation, count: nat, delta: real) returns (patterns: seq<seq<nat>>)
      requires Positive(X) && Valid()
      ensures patterns == Windows(pvPoints, MatchOffsets(f, X, pvPoints, delta, |pvPoints|), count)
    {
      patterns := [];
      ghost var offs: seq<nat> := [];
      var pv := pvPoints;
      for i: nat := 0 to |pv|
        invariant offs == MatchOffsets(f, X, pv, delta, i)
        invariant patterns == Windows(pv, offs, count)
      {
        MatchOffsetsNext(f, X, pv, delta, i);
        if Holds(f, X, pv, i, delta) {
          WindowsSnoc(pv, offs, i, count);
          patterns := patterns + [Window(pv, i, count)];
          offs := offs + [i];
        }
      }
    }

    /** `find_hs`. */
    method FindHs(delta: real := 0.005) returns (patterns: seq<seq<nat>>)
      requires Positive(X) && Valid()
      ensures patterns == Windows(pvPoints, MatchOffsets(HeadShoulders, X, pvPoints, delta, |pvPoints|), Size(HeadShoulders))
      ensures forall j :: 0 <= j < |patterns| ==> IsPatternOf(X, HeadShoulders, patterns[j])
    {
      patterns := FindPattern(HeadShoulders, Size(HeadShoulders), delta);
      ProjectSound(pivots[..]);
      MatchesArePatterns(HeadShoulders, X, pvPoints, delta);
    }

    /** `find_ihs`. */
    method FindIhs(delta: real := 0.005) returns (patterns: seq<seq<nat>>)
      requires Positive(X) && Valid()
      ensures patterns == Windows(pvPoints, MatchOffsets(InvHeadShoulders, X, pvPoints, delta, |pvPoints|), Size(InvHeadShoulders))
      ensures forall j :: 0 <= j < |patterns| ==> IsPatternOf(X, InvHeadShoulders, patterns[j])
    {
      patterns := FindPattern(InvHeadShoulders, Size(InvHeadShoulders), delta);
      ProjectSound(pivots[..]);
      MatchesArePatterns(InvHeadShoulders, X, pvPoints, delta);
    }

    /** `find_double_top`. */
    method FindDoubleTop(delta: real := 0.005) returns (patterns: seq<seq<nat>>)
      requires Positive(X) && Valid()
      ensures patterns == Windows(pvPoints, MatchOffsets(DoubleTop, X, pvPoints, delta, |pvPoints|), Size(DoubleTop))
      ensures forall j :: 0 <= j < |patterns| ==> IsPatternOf(X, DoubleTop, patterns[j])
    {
      patterns := FindPattern(DoubleTop, Size(DoubleTop), delta);
      ProjectSound(pivots[..]);
      MatchesArePatterns(DoubleTop, X, pvPoints, delta);
    }

    /** `find_double_bottom`. */
    method FindDoubleBottom(delta: real := 0.005) returns (patterns: seq<seq<nat>>)
      requires Positive(X) && Valid()
      ensures patterns == Windows(pvPoints, MatchOffsets(DoubleBottom, X, pvPoints, delta, |pvPoints|), Size(DoubleBottom))
      ensures forall j :: 0 <= j < |patterns| ==> IsPatternOf(X, DoubleBottom, patterns[j])
    {
      patterns := FindPattern(DoubleBottom, Size(DoubleBottom), delta);
      ProjectSound(pivots[..]);
      MatchesArePatterns(DoubleBottom, X, pvPoints, delta);
    }

    /** `find_triple_top`. */
    method FindTripleTop(delta: real := 0.005) returns (patterns: seq<seq<nat>>)
      requires Positive(X) && Valid()
      ensures patterns == Windows(pvPoints, MatchOffsets(TripleTop, X, pvPoints, delta, |pvPoints|), Size(TripleTop))
      ensures forall j :: 0 <= j < |patterns| ==> IsPatternOf(X, TripleTop, patterns[j])
    {
      patterns := FindPattern(TripleTop, Size(TripleTop), delta);
      ProjectSound(pivots[..]);
      MatchesArePatterns(TripleTop, X, pvPoints, delta);
    }

    /** `find_triple_bottom`. */
    method FindTripleBottom(delta: real := 0.005) returns (patterns: seq<seq<nat>>)
      requires Positive(X) && Valid()
      ensures patterns == Windows(pvPoints, MatchOffsets(TripleBottom, X, pvPoints, delta, |pvPoints|), Size(TripleBottom))
      ensures forall j :: 0 <= j < |patterns| ==> IsPatternOf(X, TripleBottom, patterns[j])
    {
      patterns := FindPattern(TripleBottom, Size(TripleBottom), delta);
      ProjectSound(pivots[..]);
      MatchesArePatterns(TripleBottom, X, pvPoints, delta);
    }
  }
}
