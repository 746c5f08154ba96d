/**
 * The zigzag pivot detector of pp/patternfinder.py (`Finder.init_pivots` and
 * `Finder._identify_initial_pivot`), stated as specification functions over
 * the close-price series `X`.  The imperative versions in module
 * PatternFinder are proved to compute exactly these functions.
 *
 * Prices are `real`; every division in the source is by a price, so the
 * series is required to be positive.
 */
module Zigzag {

  const PEAK: int := 1
  const VALLEY: int := -1

  /** One entry of `pv_points`: an index into the series and its label. */
  datatype PivotPoint = PivotPoint(index: nat, dir: int)

  predicate Positive(X: seq<real>) {
    forall i :: 0 <= i < |X| ==> X[i] > 0.0
  }

  // ---------------------------------------------------------------------
  // Running extremes, as used by the initial-pivot scan
  // ---------------------------------------------------------------------

  /** The first index of the maximum of X[..t] (the scan replaces it only on a strict increase). */
  function FirstArgMax(X: seq<real>, t: nat): (k: nat)
    requires 1 <= t <= |X|
    ensures k < t
  {
    if t == 1 then 0
    else
      var k := FirstArgMax(X, t - 1);
      if X[t - 1] > X[k] then t - 1 else k
  }

  /** The first index of the minimum of X[..t]. */
  function FirstArgMin(X: seq<real>, t: nat): (k: nat)
    requires 1 <= t <= |X|
    ensures k < t
  {
    if t == 1 then 0
    else
      var k := FirstArgMin(X, t - 1);
      if X[t - 1] < X[k] then t - 1 else k
  }

  /**
   * `max_t`/`min_t` of the scan: the maximum (minimum) of X[..t], at the
   * first index where it occurs, since the scan replaces it only on a strict
   * increase (decrease).
   */
  lemma {:induction false} ArgExtremes(X: seq<real>, t: nat)
    requires 1 <= t <= |X|
    ensures forall i :: 0 <= i < t ==> X[i] <= X[FirstArgMax(X, t)]
    ensures forall i :: 0 <= i < FirstArgMax(X, t) ==> X[i] < X[FirstArgMax(X, t)]
    ensures forall i :: 0 <= i < t ==> X[FirstArgMin(X, t)] <= X[i]
    ensures forall i :: 0 <= i < FirstArgMin(X, t) ==> X[FirstArgMin(X, t)] < X[i]
    decreases t
  {
    if t > 1 {
      ArgExtremes(X, t - 1);
    }
  }

  /** X[t] has risen by the ratio `up` above the minimum of X[..t]. */
  predicate RisesFromMin(X: seq<real>, up: real, t: nat)
    requires Positive(X) && 1 <= t < |X|
  {
    X[t] / X[FirstArgMin(X, t)] >= up
  }

  /** X[t] has fallen to the ratio `down` of the maximum of X[..t]. */
  predicate FallsFromMax(X: seq<real>, down: real, t: nat)
    requires Positive(X) && 1 <= t < |X|
  {
    X[t] / X[FirstArgMax(X, t)] <= down
  }

  /**
   * The label `_identify_initial_pivot` gives index 0 when the scan is at `t`
   * and no threshold was crossed before `t`.  `up` and `down` are the ratio
   * thresholds, i.e. the caller's thresholds plus one.
   */
  function InitialFrom(X: seq<real>, up: real, down: real, t: nat): (r: int)
    requires Positive(X) && 1 <= t <= |X|
    ensures r == PEAK || r == VALLEY
    decreases |X| - t
  {
    if t == |X| then
      (if X[0] < X[|X| - 1] then VALLEY else PEAK)
    else if RisesFromMin(X, up, t) then
      (if FirstArgMin(X, t) == 0 then VALLEY else PEAK)
    else if FallsFromMax(X, down, t) then
      (if FirstArgMax(X, t) == 0 then PEAK else VALLEY)
    else
      InitialFrom(X, up, down, t + 1)
  }

  /** `_identify_initial_pivot(X, up_thresh, down_thresh)`; it adds one to both thresholds itself. */
  function InitialPivot(X: seq<real>, upThresh: real, downThresh: real): (r: int)
    requires |X| >= 1 && Positive(X)
    ensures r == PEAK || r == VALLEY
  {
    InitialFrom(X, upThresh + 1.0, downThresh + 1.0, 1)
  }

  /** No threshold is crossed at any index of [lo, hi). */
  ghost predicate NoCrossingIn(X: seq<real>, up: real, down: real, lo: nat, hi: nat)
    requires Positive(X) && hi <= |X|
  {
    forall t :: 1 <= lo <= t < hi ==> !RisesFromMin(X, up, t) && !FallsFromMax(X, down, t)
  }

  // ---------------------------------------------------------------------
  // The main walk of init_pivots
  // ---------------------------------------------------------------------

  /**
   * The loop state of `init_pivots`: the label array, the trend (-1 while
   * tracking a valley, +1 while tracking a peak) and the running extreme.
   */
  datatype ZigState = ZigState(labels: seq<int>, trend: int, lastPivotT: nat, lastPivotX: real)

  /** The state before the loop: zeros, with the initial label at index 0. */
  function Start(X: seq<real>, initial: int): (s: ZigState)
    requires |X| >= 1
    ensures |s.labels| == |X| && s.labels[0] == initial
    ensures forall i :: 0 < i < |X| ==> s.labels[i] == 0
    ensures s.trend == -initial && s.lastPivotT == 0 && s.lastPivotX == X[0]
  {
    ZigState(seq(|X|, i => 0)[0 := initial], -initial, 0, X[0])
  }

  /** One iteration of the loop body, at index t, with the ratio thresholds `up` and `down`. */
  function Step(X: seq<real>, up: real, down: real, s: ZigState, t: nat): (s': ZigState)
    requires t < |X| && s.lastPivotT < |s.labels| && s.lastPivotX > 0.0
    ensures |s'.labels| == |s.labels|
    ensures s'.trend != s.trend <==> (if s.trend == -1 then X[t] / s.lastPivotX >= up else X[t] / s.lastPivotX <= down)
    ensures s'.trend != s.trend ==>
      s'.labels == s.labels[s.lastPivotT := s.trend] && s'.lastPivotT == t && s'.lastPivotX == X[t]
    ensures s'.trend == s.trend ==> s'.labels == s.labels && (s'.lastPivotT == s.lastPivotT || s'.lastPivotT == t)
    ensures s'.trend == s.trend && s.trend == -1 ==> s'.lastPivotX <= s.lastPivotX && s'.lastPivotX <= X[t]
    ensures s'.trend == s.trend && s.trend != -1 ==> s'.lastPivotX >= s.lastPivotX && s'.lastPivotX >= X[t]
  {
    var x := X[t];
    var r := x / s.lastPivotX;
    if s.trend == -1 then
      if r >= up then ZigState(s.labels[s.lastPivotT := s.trend], 1, t, x)
      else if x < s.lastPivotX then s.(lastPivotT := t, lastPivotX := x)
      else s
    else
      if r <= down then ZigState(s.labels[s.lastPivotT := s.trend], -1, t, x)
      else if x > s.lastPivotX then s.(lastPivotT := t, lastPivotX := x)
      else s
  }

  /** The state at the head of the loop when it is about to process index t. */
  function Walk(X: seq<real>, up: real, down: real, initial: int, t: nat): (s: ZigState)
    requires Positive(X) && 1 <= t <= |X|
    ensures |s.labels| == |X| && s.lastPivotT < t && s.lastPivotX == X[s.lastPivotT]
    decreases t
  {
    if t == 1 then Start(X, initial)
    else Step(X, up, down, Walk(X, up, down, initial, t - 1), t - 1)
  }

  /** The index where the current leg of the walk began: 0, or the index of the last commit. */
  ghost function LegStart(X: seq<real>, up: real, down: real, initial: int, t: nat): (k: nat)
    requires Positive(X) && 1 <= t <= |X|
    ensures k < t
    decreases t
  {
    if t == 1 then 0
    else if Walk(X, up, down, initial, t).trend != Walk(X, up, down, initial, t - 1).trend then t - 1
    else LegStart(X, up, down, initial, t - 1)
  }

  /** The labelling of the last index after the loop. */
  function Finish(s: ZigState, n: nat): (labels: seq<int>)
    requires n == |s.labels| >= 1 && s.lastPivotT < n
    ensures |labels| == n && forall i :: 0 <= i < n - 1 ==> labels[i] == s.labels[i]
    ensures s.trend != 0 ==> labels[n - 1] != 0
  {
    if s.lastPivotT == n - 1 then s.labels[n - 1 := s.trend]
    else if s.labels[n - 1] == 0 then s.labels[n - 1 := -s.trend]
    else s.labels
  }

  /** The final state of the loop of `init_pivots(thresh)`. */
  function FinalState(X: seq<real>, thresh: real): (s: ZigState)
    requires |X| >= 1 && Positive(X)
    ensures |s.labels| == |X| && s.lastPivotT < |X| && s.lastPivotX == X[s.lastPivotT]
    ensures Inv(s, |X|)
  {
    WalkInv(X, thresh + 1.0, -1.0 * thresh + 1.0, InitialPivot(X, thresh, -1.0 * thresh), |X|);
    Walk(X, thresh + 1.0, -1.0 * thresh + 1.0, InitialPivot(X, thresh, -1.0 * thresh), |X|)
  }

  /** `self.pivots` after `init_pivots(thresh)`. */
  function Pivots(X: seq<real>, thresh: real): (labels: seq<int>)
    requires |X| >= 1 && Positive(X)
    ensures WellShaped(labels, |X|)
  {
    FinishShape(FinalState(X, thresh), |X|, Finish(FinalState(X, thresh), |X|));
    Finish(FinalState(X, thresh), |X|)
  }

  // ---------------------------------------------------------------------
  // Projection onto pv_points
  // ---------------------------------------------------------------------

  /** The labelled indices with their labels, in index order. */
  function Project(labels: seq<int>): (pts: seq<PivotPoint>)
    ensures |pts| <= |labels|
  {
    if labels == [] then []
    else
      var n := |labels| - 1;
      Project(labels[..n]) + (if labels[n] != 0 then [PivotPoint(n, labels[n])] else [])
  }

  /** Every point is a labelled index of `labels`, with its label. */
  ghost predicate LabelledAt(pts: seq<PivotPoint>, labels: seq<int>) {
    forall j :: 0 <= j < |pts| ==>
      pts[j].index < |labels| && pts[j].dir == labels[pts[j].index] && pts[j].dir != 0
  }

  /** The points are in strictly increasing index order. */
  ghost predicate IndexOrdered(pts: seq<PivotPoint>) {
    forall j, k :: 0 <= j < k < |pts| ==> pts[j].index < pts[k].index
  }

  /**
   * Every pivot point is a labelled index with its label, and the points are
   * in strictly increasing index order.
   */
  lemma {:induction false} ProjectSound(labels: seq<int>)
    ensures LabelledAt(Project(labels), labels)
    ensures IndexOrdered(Project(labels))
    decreases |labels|
  {
    if labels != [] {
      var n := |labels| - 1;
      var prefix := labels[..n];
      ProjectSound(prefix);
      var P := Project(prefix);
      var pts := Project(labels);
      assert pts[..|P|] == P;
      forall j | 0 <= j < |pts|
        ensures pts[j].index < |labels| && pts[j].dir == labels[pts[j].index] && pts[j].dir != 0
      {
        if j < |P| {
          assert pts[j] == P[j] && P[j].index < n && prefix[P[j].index] == labels[P[j].index];
        }
      }
      forall j, k | 0 <= j < k < |pts| ensures pts[j].index < pts[k].index {
        if k < |P| {
          assert pts[j] == P[j] && pts[k] == P[k];
        } else {
          assert pts[j] == P[j] && P[j].index < n;
        }
      }
    }
  }

  /** Every labelled index appears in the projection (the converse of Project's contract). */
  lemma {:induction false} ProjectComplete(labels: seq<int>, i: nat)
    requires i < |labels| && labels[i] != 0
    ensures PivotPoint(i, labels[i]) in Project(labels)
    decreases |labels|
  {
    var n := |labels| - 1;
    if i < n {
      ProjectComplete(labels[..n], i);
    }
  }

  /** The points are exactly the labelled indices of `labels`, with their labels, in index order. */
  ghost predicate ExactProjection(pts: seq<PivotPoint>, labels: seq<int>) {
    LabelledAt(pts, labels) && IndexOrdered(pts) && CoversLabels(pts, labels)
  }

  /** Every labelled index of `labels` appears among the points. */
  ghost predicate CoversLabels(pts: seq<PivotPoint>, labels: seq<int>) {
    forall i :: 0 <= i < |labels| && labels[i] != 0 ==> PivotPoint(i, labels[i]) in pts
  }

  /**
   * The construction of `pv_points` from the labels: the projection holds
   * exactly the labelled indices, with their labels, in increasing index
   * order.
   */
  lemma ProjectExact(labels: seq<int>)
    ensures ExactProjection(Project(labels), labels)
  {
    ProjectSound(labels);
    forall i | 0 <= i < |labels| && labels[i] != 0 ensures PivotPoint(i, labels[i]) in Project(labels) {
      ProjectComplete(labels, i);
    }
  }

  /** A labelled index 0 is the first pivot point. */
  lemma ProjectFirst(labels: seq<int>)
    requires |labels| >= 1 && labels[0] != 0
    ensures |Project(labels)| >= 1 && Project(labels)[0] == PivotPoint(0, labels[0])
  {
    ProjectComplete(labels, 0);
    ProjectSound(labels);
    var pts := Project(labels);
    var j :| 0 <= j < |pts| && pts[j] == PivotPoint(0, labels[0]);
  }

  /** Consecutive pivot points differ in kind. */
  ghost predicate Alternating(pts: seq<PivotPoint>) {
    forall j, k :: 0 <= j && k == j + 1 && k < |pts| ==> pts[j].dir != pts[k].dir
  }

  lemma {:induction false} ProjectZeroTail(s: seq<int>, k: nat)
    requires k <= |s|
    requires forall i :: k <= i < |s| ==> s[i] == 0
    ensures Project(s) == Project(s[..k])
    decreases |s| - k
  {
    if k < |s| {
      var n := |s| - 1;
      assert s[..n][..k] == s[..k];
      ProjectZeroTail(s[..n], k);
    } else {
      assert s[..k] == s;
    }
  }

  /** Writing a non-zero label at p, beyond which everything is zero, appends one pivot point. */
  lemma ProjectPoke(s: seq<int>, p: nat, v: int)
    requires p < |s| && v != 0
    requires forall i :: p < i < |s| ==> s[i] == 0
    ensures Project(s[p := v]) == Project(s[..p]) + [PivotPoint(p, v)]
  {
    var s' := s[p := v];
    ProjectZeroTail(s', p + 1);
    assert s'[..p + 1] == s[..p] + [v];
    assert (s[..p] + [v])[..p] == s[..p];
  }

  // ---------------------------------------------------------------------
  // The loop invariant and its consequences
  // ---------------------------------------------------------------------

  /**
   * What holds at the head of every iteration: labels in {-1,0,1}, index 0
   * labelled, nothing labelled after the running extreme (and the extreme
   * itself unlabelled unless it is index 0), the labels so far alternate,
   * and the last of them is the opposite of the current trend.
   */
  ghost predicate Inv(s: ZigState, n: nat) {
    && |s.labels| == n && s.lastPivotT < n
    && (s.trend == 1 || s.trend == -1)
    && (forall i :: 0 <= i < n ==> -1 <= s.labels[i] <= 1)
    && s.labels[0] != 0
    && (forall i :: s.lastPivotT < i < n ==> s.labels[i] == 0)
    && (s.lastPivotT > 0 ==> s.labels[s.lastPivotT] == 0)
    && |Project(s.labels)| >= 1 && Project(s.labels)[0] == PivotPoint(0, s.labels[0])
    && Alternating(Project(s.labels))
    && Project(s.labels)[|Project(s.labels)| - 1].dir == -s.trend
  }

  lemma StartInv(X: seq<real>, initial: int, s: ZigState)
    requires |X| >= 1 && (initial == PEAK || initial == VALLEY)
    requires s == Start(X, initial)
    ensures Inv(s, |X|)
  {
    assert s.labels[0] == initial;
    assert forall i :: 0 < i < |X| ==> s.labels[i] == 0;
    var P := Project(s.labels);
    assert P == [PivotPoint(0, initial)] by {
      ProjectZeroTail(s.labels, 1);
      assert s.labels[..1] == [initial];
      assert Project([initial]) == Project([]) + [PivotPoint(0, initial)];
    }
    assert Alternating(P);
  }

  lemma StepInv(X: seq<real>, up: real, down: real, s: ZigState, t: nat, s': ZigState)
    requires t < |X| && Inv(s, |X|) && s.lastPivotT < t && s.lastPivotX > 0.0
    requires s' == Step(X, up, down, s, t)
    ensures Inv(s', |X|)
  {
    var x := X[t];
    var r := x / s.lastPivotX;
    var commit := if s.trend == -1 then r >= up else r <= down;
    var moves := if s.trend == -1 then x < s.lastPivotX else x > s.lastPivotX;
    if commit {
      assert Step(X, up, down, s, t) == ZigState(s.labels[s.lastPivotT := s.trend], -s.trend, t, x);
      CommitInv(s, t, x);
    } else if moves {
      assert Step(X, up, down, s, t) == s.(lastPivotT := t, lastPivotX := x);
      MoveInv(s, t, x);
    } else {
      assert Step(X, up, down, s, t) == s;
    }
  }

  lemma MoveInv(s: ZigState, t: nat, x: real)
    requires Inv(s, |s.labels|) && s.lastPivotT < t < |s.labels|
    ensures Inv(s.(lastPivotT := t, lastPivotX := x), |s.labels|)
  {
  }

  lemma CommitInv(s: ZigState, t: nat, x: real)
    requires Inv(s, |s.labels|) && s.lastPivotT < t < |s.labels|
    ensures Inv(ZigState(s.labels[s.lastPivotT := s.trend], -s.trend, t, x), |s.labels|)
  {
    var labels := s.labels[s.lastPivotT := s.trend];
    var P := Project(labels);
    assert P[0] == PivotPoint(0, labels[0]) && Alternating(P) && P[|P| - 1].dir == s.trend by {
      CommitAppends(s);
      var P0 := if s.lastPivotT == 0 then [] else Project(s.labels);
      AlternatingSnoc(P0, PivotPoint(s.lastPivotT, s.trend));
    }
  }

  /** Appending a point of the other kind keeps a list alternating. */
  lemma AlternatingSnoc(P: seq<PivotPoint>, p: PivotPoint)
    requires Alternating(P) && (P != [] ==> P[|P| - 1].dir != p.dir)
    ensures Alternating(P + [p])
  {
    var Q := P + [p];
    forall j, k | 0 <= j && k == j + 1 && k < |Q| ensures Q[j].dir != Q[k].dir {
      if k < |P| {
        assert Q[j] == P[j] && Q[k] == P[k];
      }
    }
  }

  /** A commit (the trend flips) appends the running extreme, with the old trend, to the pivot points. */
  lemma CommitAppends(s: ZigState)
    requires Inv(s, |s.labels|)
    ensures var labels := s.labels[s.lastPivotT := s.trend];
      Project(labels) == (if s.lastPivotT == 0 then [] else Project(s.labels)) + [PivotPoint(s.lastPivotT, s.trend)]
  {
    var p := s.lastPivotT;
    ProjectPoke(s.labels, p, s.trend);
    if p == 0 {
      assert s.labels[..0] == [];
    } else {
      ProjectZeroTail(s.labels, p);
    }
  }

  lemma {:induction false} WalkInv(X: seq<real>, up: real, down: real, initial: int, t: nat)
    requires Positive(X) && 1 <= t <= |X| && (initial == PEAK || initial == VALLEY)
    ensures Inv(Walk(X, up, down, initial, t), |X|)
    decreases t
  {
    if t == 1 {
      StartInv(X, initial, Walk(X, up, down, initial, t));
    } else {
      WalkInv(X, up, down, initial, t - 1);
      StepInv(X, up, down, Walk(X, up, down, initial, t - 1), t - 1, Walk(X, up, down, initial, t));
    }
  }

  /** Every label is VALLEY, 0 or PEAK. */
  ghost predicate LabelsInRange(labels: seq<int>) {
    forall i :: 0 <= i < |labels| ==> labels[i] == VALLEY || labels[i] == 0 || labels[i] == PEAK
  }

  /** The pivot points run from index 0 to index n - 1. */
  ghost predicate Spans(pts: seq<PivotPoint>, n: nat) {
    |pts| >= 1 && pts[0].index == 0 && pts[|pts| - 1].index == n - 1
  }

  /** Consecutive pivot points differ in kind, except possibly the last two. */
  ghost predicate AlternatingBeforeLast(pts: seq<PivotPoint>) {
    forall j, k :: 0 <= j && k == j + 1 && k < |pts| - 1 ==> pts[j].dir != pts[k].dir
  }

  /** The last two pivot points have the same kind. */
  ghost predicate LastPairRepeats(pts: seq<PivotPoint>) {
    |pts| >= 2 && pts[|pts| - 2].dir == pts[|pts| - 1].dir
  }

  /**
   * The labelling after the final step: the last index is labelled, and the
   * pivot points alternate, except that the last two have the same kind
   * exactly when the running extreme is not the last index.
   */
  lemma FinishShape(s: ZigState, n: nat, labels: seq<int>)
    requires n >= 1 && Inv(s, n) && labels == Finish(s, n)
    ensures |labels| == n && LabelsInRange(labels)
    ensures labels[0] != 0 && labels[n - 1] != 0
    ensures Spans(Project(labels), n)
    ensures AlternatingBeforeLast(Project(labels))
    ensures LastPairRepeats(Project(labels)) <==> s.lastPivotT != n - 1
  {
    var v := if s.lastPivotT == n - 1 then s.trend else -s.trend;
    assert labels == s.labels[n - 1 := v];
    FinishAppends(s, n, labels, v);
    FinishPoints(Project(s.labels[..n - 1]), Project(labels), n, v, s.trend, s.lastPivotT == n - 1);
    ProjectFirst(labels);
  }

  /** The last call of the walk appends the forced last label as a pivot point. */
  lemma FinishAppends(s: ZigState, n: nat, labels: seq<int>, v: int)
    requires n >= 1 && Inv(s, n) && v != 0 && labels == s.labels[n - 1 := v]
    ensures Project(labels) == Project(s.labels[..n - 1]) + [PivotPoint(n - 1, v)]
    ensures n == 1 ==> Project(s.labels[..n - 1]) == []
    ensures n > 1 ==> && Project(s.labels[..n - 1]) == Project(s.labels)
                      && Project(s.labels)[|Project(s.labels)| - 1].dir == -s.trend
                      && Alternating(Project(s.labels))
  {
    ProjectPoke(s.labels, n - 1, v);
    if n > 1 {
      ProjectZeroTail(s.labels, n - 1);
    }
  }

  /** Alternation of the pivot points after the last label is appended. */
  lemma FinishPoints(P0: seq<PivotPoint>, pts: seq<PivotPoint>, n: nat, v: int, trend: int, atLast: bool)
    requires n >= 1 && pts == P0 + [PivotPoint(n - 1, v)]
    requires trend == PEAK || trend == VALLEY
    requires v == if atLast then trend else -trend
    requires n == 1 ==> P0 == [] && atLast
    requires n > 1 ==> |P0| >= 1 && P0[|P0| - 1].dir == -trend && Alternating(P0)
    ensures AlternatingBeforeLast(pts)
    ensures |pts| >= 1 && pts[|pts| - 1].index == n - 1
    ensures LastPairRepeats(pts) <==> !atLast
  {
    if n > 1 {
      assert pts[|pts| - 2] == P0[|P0| - 1];
      if atLast {
        AlternatingSnoc(P0, PivotPoint(n - 1, v));
      }
      forall j, k | 0 <= j && k == j + 1 && k < |pts| - 1 ensures pts[j].dir != pts[k].dir {
        assert pts[j] == P0[j] && pts[k] == P0[k];
      }
    }
  }

  /**
   * One label per price, each VALLEY, 0 or PEAK, the first and last index
   * labelled, so that the pivot points run from index 0 to index n - 1, and
   * consecutive pivot points alternate in kind except possibly the last two.
   */
  ghost predicate WellShaped(labels: seq<int>, n: nat) {
    && |labels| == n >= 1 && LabelsInRange(labels)
    && labels[0] != 0 && labels[n - 1] != 0
    && Spans(Project(labels), n)
    && AlternatingBeforeLast(Project(labels))
  }

  /**
   * After `init_pivots`, every label is -1, 0 or 1, the first and last
   * index are labelled, the pivot points therefore start at index 0 and end
   * at the last index, and consecutive pivot points alternate in kind,
   * except that the forced last label repeats the kind before it exactly
   * when the final running extreme is not the last index.
   */
  lemma PivotsShape(X: seq<real>, thresh: real)
    requires |X| >= 1 && Positive(X)
    ensures WellShaped(Pivots(X, thresh), |X|)
    ensures LastPairRepeats(Project(Pivots(X, thresh))) <==> FinalState(X, thresh).lastPivotT != |X| - 1
  {
    var initial := InitialPivot(X, thresh, -1.0 * thresh);
    WalkInv(X, thresh + 1.0, -1.0 * thresh + 1.0, initial, |X|);
    FinishShape(FinalState(X, thresh), |X|, Pivots(X, thresh));
  }

  // ---------------------------------------------------------------------
  // The running extreme and the commits
  // ---------------------------------------------------------------------

  /**
   * `last_pivot_x` is the price at `last_pivot_t`, which lies in the leg
   * [lo, t), and it is the minimum of that leg while the trend is -1 and its
   * maximum otherwise.
   */
  ghost predicate ExtremeOfLeg(X: seq<real>, s: ZigState, lo: nat, t: nat)
    requires t <= |X|
  {
    && lo <= s.lastPivotT < t
    && s.lastPivotX == X[s.lastPivotT]
    && (s.trend == -1 ==> forall i :: lo <= i < t ==> X[s.lastPivotT] <= X[i])
    && (s.trend != -1 ==> forall i :: lo <= i < t ==> X[i] <= X[s.lastPivotT])
  }

  lemma {:induction false} RunningExtreme(X: seq<real>, up: real, down: real, initial: int, t: nat)
    requires Positive(X) && 1 <= t <= |X|
    ensures ExtremeOfLeg(X, Walk(X, up, down, initial, t), LegStart(X, up, down, initial, t), t)
    decreases t
  {
    if t > 1 {
      RunningExtreme(X, up, down, initial, t - 1);
    }
  }

  /** The loop commits at index t when the trend flips there. */
  ghost predicate Commits(X: seq<real>, up: real, down: real, initial: int, t: nat)
    requires Positive(X) && 1 <= t < |X|
  {
    Walk(X, up, down, initial, t + 1).trend != Walk(X, up, down, initial, t).trend
  }

  /**
   * A commit at t happens exactly when the ratio to the running extreme
   * crosses the threshold of the current trend; it writes the current trend
   * at `last_pivot_t` and flips the trend, so a VALLEY is committed only on a
   * rise to `up` and a PEAK only on a fall to `down`.  Without a commit the
   * labels are untouched.
   */
  lemma CommitWrites(X: seq<real>, up: real, down: real, initial: int, t: nat)
    requires Positive(X) && 1 <= t < |X| && (initial == PEAK || initial == VALLEY)
    ensures var s := Walk(X, up, down, initial, t); var r := X[t] / s.lastPivotX;
      && (Commits(X, up, down, initial, t) <==> (if s.trend == -1 then r >= up else r <= down))
      && (Commits(X, up, down, initial, t) && s.trend == VALLEY ==> r >= up)
      && (Commits(X, up, down, initial, t) && s.trend == PEAK ==> r <= down)
      && (Commits(X, up, down, initial, t) ==>
            && Walk(X, up, down, initial, t + 1).labels == s.labels[s.lastPivotT := s.trend]
            && Walk(X, up, down, initial, t + 1).trend == -s.trend
            && Walk(X, up, down, initial, t + 1).lastPivotT == t)
      && (!Commits(X, up, down, initial, t) ==> Walk(X, up, down, initial, t + 1).labels == s.labels)
  {
    WalkInv(X, up, down, initial, t);
  }

  /** `last_pivot_t` never moves backwards. */
  lemma {:induction false} LastPivotGrows(X: seq<real>, up: real, down: real, initial: int, t1: nat, t2: nat)
    requires Positive(X) && 1 <= t1 <= t2 <= |X|
    ensures Walk(X, up, down, initial, t1).lastPivotT <= Walk(X, up, down, initial, t2).lastPivotT
    decreases t2
  {
    if t1 < t2 {
      LastPivotGrows(X, up, down, initial, t1, t2 - 1);
    }
  }

  /** The indices the loop commits at strictly increase. */
  lemma CommitsIncrease(X: seq<real>, up: real, down: real, initial: int, t1: nat, t2: nat)
    requires Positive(X) && 1 <= t1 < t2 < |X|
    requires Commits(X, up, down, initial, t1) && Commits(X, up, down, initial, t2)
    ensures Walk(X, up, down, initial, t1).lastPivotT < Walk(X, up, down, initial, t2).lastPivotT
  {
    LastPivotGrows(X, up, down, initial, t1 + 1, t2);
  }

  // ---------------------------------------------------------------------
  // The initial pivot
  // ---------------------------------------------------------------------

  /** Stretches without a threshold crossing do not change the initial label. */
  lemma {:induction false} InitialFromSkips(X: seq<real>, up: real, down: real, t1: nat, t2: nat)
    requires Positive(X) && 1 <= t1 <= t2 <= |X|
    requires NoCrossingIn(X, up, down, t1, t2)
    ensures InitialFrom(X, up, down, t1) == InitialFrom(X, up, down, t2)
    decreases t2 - t1
  {
    if t1 < t2 {
      InitialFromSkips(X, up, down, t1 + 1, t2);
    }
  }

  /** One scan step without a crossing leaves the initial label to the rest of the scan. */
  lemma InitialFromNext(X: seq<real>, up: real, down: real, t: nat)
    requires Positive(X) && 1 <= t < |X|
    requires !RisesFromMin(X, up, t) && !FallsFromMax(X, down, t)
    ensures InitialFrom(X, up, down, t) == InitialFrom(X, up, down, t + 1)
  {
  }

  /**
   * When no threshold is crossed, index 0 is a VALLEY exactly when the
   * series ends higher than it starts, and a PEAK otherwise.
   */
  lemma InitialPivotFallback(X: seq<real>, upThresh: real, downThresh: real)
    requires |X| >= 1 && Positive(X)
    requires NoCrossingIn(X, upThresh + 1.0, downThresh + 1.0, 1, |X|)
    ensures InitialPivot(X, upThresh, downThresh) == VALLEY <==> X[0] < X[|X| - 1]
    ensures InitialPivot(X, upThresh, downThresh) == PEAK <==> X[0] >= X[|X| - 1]
  {
    InitialFromSkips(X, upThresh + 1.0, downThresh + 1.0, 1, |X|);
  }

  /**
   * The first crossing decides: a rise above the minimum makes index 0 a
   * VALLEY when that minimum is index 0 itself, a fall below the maximum
   * makes it a PEAK when that maximum is index 0; otherwise the label is the
   * opposite one.
   */
  lemma InitialPivotAtCrossing(X: seq<real>, upThresh: real, downThresh: real, t: nat)
    requires Positive(X) && 1 <= t < |X|
    requires NoCrossingIn(X, upThresh + 1.0, downThresh + 1.0, 1, t)
    ensures RisesFromMin(X, upThresh + 1.0, t) ==>
      (InitialPivot(X, upThresh, downThresh) == VALLEY <==> X[0] <= X[FirstArgMin(X, t)])
    ensures !RisesFromMin(X, upThresh + 1.0, t) && FallsFromMax(X, downThresh + 1.0, t) ==>
      (InitialPivot(X, upThresh, downThresh) == PEAK <==> X[0] >= X[FirstArgMax(X, t)])
  {
    InitialFromSkips(X, upThresh + 1.0, downThresh + 1.0, 1, t);
    ArgExtremes(X, t);
  }
}
