/**
 * Ramer-Douglas-Peucker trend-line simplification, as `pp/rdp.py` does it.
 *
 * The perpendicular distance of `Line.dist` is `|m*x - y + k| / sqrt(m*m + 1)`.
 * Reals have no square root here, so the model works with its square,
 * `DistSq`; `DistRanking` and `DistAgainstEps` show that the comparisons the
 * source makes on distances come out the same on squared distances.
 */
module Rdp {
  import opened KData

  datatype Point = Point(x: real, y: real)

  /** `y = m*x + k`. */
  datatype Line = Line(m: real, k: real)

  /** `Line(a, b)`: the line through two points with different x. */
  function LineThrough(a: Point, b: Point): (l: Line)
    requires a.x != b.x
    ensures a.y == l.m * a.x + l.k && b.y == l.m * b.x + l.k
  {
    var m := (a.y - b.y) / (a.x - b.x);
    assert m * (a.x - b.x) == a.y - b.y;
    assert b.y == m * b.x + (a.y - m * a.x) by {
      assert m * b.x + (a.y - m * a.x) == a.y - m * (a.x - b.x);
    }
    Line(m, a.y - m * a.x)
  }

  /** The square of `Line.dist(p)`. */
  function DistSq(l: Line, p: Point): (d: real)
    ensures d >= 0.0
  {
    var e := l.m * p.x - p.y + l.k;
    e * e / (l.m * l.m + 1.0)
  }

  /** `d` is `Line.dist(p)`: the non-negative number whose square is `DistSq(l, p)`. */
  ghost predicate IsDist(l: Line, p: Point, d: real) {
    d >= 0.0 && d * d == DistSq(l, p)
  }

  /** Both defining points lie on the line: their distance to it is 0. */
  lemma LineThroughEndpoints(a: Point, b: Point)
    requires a.x != b.x
    ensures DistSq(LineThrough(a, b), a) == 0.0 && DistSq(LineThrough(a, b), b) == 0.0
  {
    var l := LineThrough(a, b);
    assert l.m * (a.x - b.x) == a.y - b.y;
    assert l.m * a.x - a.y + l.k == 0.0;
    assert l.m * b.x - b.y + l.k == l.m * (b.x - a.x) + (a.y - b.y);
  }

  /** Squares of non-negative numbers are ordered as the numbers are. */
  lemma SquareOrder(u: real, v: real)
    requires u >= 0.0 && v >= 0.0
    ensures u > v <==> u * u > v * v
  {
    if u > v {
      assert u * u - v * v == (u - v) * (u + v);
      assert u + v > 0.0;
      assert (u - v) * (u + v) > 0.0;
    } else {
      assert v * v - u * u == (v - u) * (u + v);
      assert (v - u) * (u + v) >= 0.0;
    }
  }

  /** Ranking points by distance to one line is ranking them by squared distance. */
  lemma DistRanking(l: Line, p: Point, q: Point, dp: real, dq: real)
    requires IsDist(l, p, dp) && IsDist(l, q, dq)
    ensures dp > dq <==> DistSq(l, p) > DistSq(l, q)
  {
    SquareOrder(dp, dq);
  }

  /** For `eps >= 0`, `dist > eps` exactly when `DistSq > eps*eps`. */
  lemma DistAgainstEps(l: Line, p: Point, d: real, eps: real)
    requires IsDist(l, p, d) && eps >= 0.0
    ensures d > eps <==> DistSq(l, p) > eps * eps
  {
    SquareOrder(d, eps);
  }

  /** No two points share an x coordinate, so every chord is a function graph. */
  ghost predicate DistinctX(pts: seq<Point>) {
    forall i, j :: 0 <= i < j < |pts| ==> pts[i].x != pts[j].x
  }

  ghost predicate IncreasingX(pts: seq<Point>) {
    forall i, j :: 0 <= i < j < |pts| ==> pts[i].x < pts[j].x
  }

  lemma IncreasingIsDistinct(pts: seq<Point>)
    requires IncreasingX(pts)
    ensures DistinctX(pts)
  {
  }

  /** Under increasing x, a smaller x means an earlier position. */
  lemma XOrder(pts: seq<Point>, a: nat, b: nat)
    requires IncreasingX(pts) && a < |pts| && b < |pts| && pts[a].x < pts[b].x
    ensures a < b
  {
  }

  lemma SliceDistinct(pts: seq<Point>, lo: nat, hi: nat)
    requires lo <= hi <= |pts| && DistinctX(pts)
    ensures DistinctX(pts[lo..hi])
  {
    forall i, j | 0 <= i < j < hi - lo ensures pts[lo..hi][i].x != pts[lo..hi][j].x {
      assert pts[lo..hi][i] == pts[lo + i] && pts[lo..hi][j] == pts[lo + j];
    }
  }

  /** The line through the first and last point. */
  function Chord(pts: seq<Point>): (l: Line)
    requires |pts| >= 2 && pts[0].x != pts[|pts| - 1].x
    ensures pts[0].y == l.m * pts[0].x + l.k && pts[|pts| - 1].y == l.m * pts[|pts| - 1].x + l.k
  {
    LineThrough(pts[0], pts[|pts| - 1])
  }

  /** The state of the loop over the interior points: `_max` (squared) and `_furthest` (0 while unset). */
  datatype Farthest = Farthest(maxSq: real, index: nat)

  /** The argmax loop after the indices 1 .. hi - 1, with the strict `>` of the source. */
  function Scan(pts: seq<Point>, l: Line, hi: nat): (s: Farthest)
    requires 1 <= hi <= |pts|
    ensures s.index < hi && s.maxSq >= 0.0
    ensures s.index == 0 <==> s.maxSq == 0.0
    decreases hi
  {
    if hi == 1 then Farthest(0.0, 0)
    else
      var s := Scan(pts, l, hi - 1);
      var d := DistSq(l, pts[hi - 1]);
      if d > s.maxSq then Farthest(d, hi - 1) else s
  }

  /**
   * The loop finds the maximum over the interior, at its first occurrence;
   * when nothing is farther than 0 it leaves `_furthest` unset.
   */
  lemma {:induction false} ScanFacts(pts: seq<Point>, l: Line, hi: nat)
    requires 1 <= hi <= |pts|
    ensures forall i :: 1 <= i < hi ==> DistSq(l, pts[i]) <= Scan(pts, l, hi).maxSq
    ensures Scan(pts, l, hi).index >= 1 ==> DistSq(l, pts[Scan(pts, l, hi).index]) == Scan(pts, l, hi).maxSq
    ensures forall i :: 1 <= i < Scan(pts, l, hi).index ==> DistSq(l, pts[i]) < Scan(pts, l, hi).maxSq
    decreases hi
  {
    if hi > 1 {
      ScanFacts(pts, l, hi - 1);
    }
  }

  /**
   * Where `douglas_peucker` splits: `_furthest` when `_max > eps`, else 0
   * (the chord is kept). A split index leaves two non-empty, strictly
   * shorter halves.
   */
  function SplitIndex(pts: seq<Point>, eps: real): (f: nat)
    requires |pts| >= 2 && eps >= 0.0 && pts[0].x != pts[|pts| - 1].x
    ensures f == 0 || 1 <= f <= |pts| - 2
  {
    var s := Scan(pts, Chord(pts), |pts| - 1);
    if s.maxSq > eps * eps then s.index else 0
  }

  /**
   * `douglas_peucker(points, eps)`. The left half is `points[:f]`, without the
   * split point, and the right half `points[f:]` starts with it.
   */
  function Simplify(pts: seq<Point>, eps: real): (r: seq<Point>)
    requires |pts| >= 1 && eps >= 0.0 && DistinctX(pts)
    ensures 1 <= |r| <= |pts|
    ensures r[0] == pts[0] && r[|r| - 1] == pts[|pts| - 1]
    decreases |pts|
  {
    if |pts| == 1 then [pts[0]]
    else
      var f := SplitIndex(pts, eps);
      if f == 0 then [pts[0], pts[|pts| - 1]]
      else
        SliceDistinct(pts, 0, f);
        SliceDistinct(pts, f, |pts|);
        Simplify(pts[..f], eps) + Simplify(pts[f..], eps)
  }

  /** A split result is the concatenation of the results for the two halves. */
  lemma SimplifySplits(pts: seq<Point>, eps: real)
    requires |pts| >= 2 && eps >= 0.0 && DistinctX(pts) && SplitIndex(pts, eps) != 0
    ensures DistinctX(pts[..SplitIndex(pts, eps)]) && DistinctX(pts[SplitIndex(pts, eps)..])
    ensures Simplify(pts, eps) == Simplify(pts[..SplitIndex(pts, eps)], eps) + Simplify(pts[SplitIndex(pts, eps)..], eps)
  {
    SliceDistinct(pts, 0, SplitIndex(pts, eps));
    SliceDistinct(pts, SplitIndex(pts, eps), |pts|);
  }

  /**
   * What `douglas_peucker` does after its argmax loop: with `_max > eps` it
   * splits at `_furthest`, otherwise it keeps the chord.
   */
  lemma SimplifyStep(pts: seq<Point>, eps: real, maxSq: real, furthest: nat)
    requires |pts| >= 2 && eps >= 0.0 && DistinctX(pts)
    requires Farthest(maxSq, furthest) == Scan(pts, Chord(pts), |pts| - 1)
    ensures maxSq > eps * eps ==>
      && 1 <= furthest <= |pts| - 2
      && DistinctX(pts[..furthest]) && DistinctX(pts[furthest..])
      && Simplify(pts, eps) == Simplify(pts[..furthest], eps) + Simplify(pts[furthest..], eps)
    ensures maxSq <= eps * eps ==> Simplify(pts, eps) == [pts[0], pts[|pts| - 1]]
  {
    if maxSq > eps * eps {
      assert SplitIndex(pts, eps) == furthest;
      SimplifySplits(pts, eps);
    } else {
      assert SplitIndex(pts, eps) == 0;
    }
  }

  // ---------------------------------------------------------------------
  // The output as a selection of input positions
  // ---------------------------------------------------------------------

  function Shift(s: seq<nat>, d: nat): (r: seq<nat>)
    ensures |r| == |s| && forall j :: 0 <= j < |s| ==> r[j] == s[j] + d
  {
    seq(|s|, j requires 0 <= j < |s| => s[j] + d)
  }

  /** The input positions `Simplify` keeps, computed along the same recursion. */
  ghost function Kept(pts: seq<Point>, eps: real): (idx: seq<nat>)
    requires |pts| >= 1 && eps >= 0.0 && DistinctX(pts)
    ensures |idx| >= 1 && idx[0] == 0 && idx[|idx| - 1] == |pts| - 1
    decreases |pts|
  {
    if |pts| == 1 then [0]
    else
      var f := SplitIndex(pts, eps);
      if f == 0 then [0, |pts| - 1]
      else
        SliceDistinct(pts, 0, f);
        SliceDistinct(pts, f, |pts|);
        Kept(pts[..f], eps) + Shift(Kept(pts[f..], eps), f)
  }

  /** When the chord is kept, so are exactly the first and the last position. */
  lemma KeptChord(pts: seq<Point>, eps: real)
    requires |pts| >= 2 && eps >= 0.0 && DistinctX(pts) && SplitIndex(pts, eps) == 0
    ensures Simplify(pts, eps) == [pts[0], pts[|pts| - 1]] && Kept(pts, eps) == [0, |pts| - 1]
  {
  }

  /** At a split, the kept positions of the right half follow those of the left, moved by the split index. */
  lemma KeptSplits(pts: seq<Point>, eps: real)
    requires |pts| >= 2 && eps >= 0.0 && DistinctX(pts) && SplitIndex(pts, eps) != 0
    ensures DistinctX(pts[..SplitIndex(pts, eps)]) && DistinctX(pts[SplitIndex(pts, eps)..])
    ensures Kept(pts, eps) == Kept(pts[..SplitIndex(pts, eps)], eps) + Shift(Kept(pts[SplitIndex(pts, eps)..], eps), SplitIndex(pts, eps))
  {
    SliceDistinct(pts, 0, SplitIndex(pts, eps));
    SliceDistinct(pts, SplitIndex(pts, eps), |pts|);
  }

  /** `r` is the subsequence of `pts` at the strictly increasing positions `idx`, from the first to the last. */
  ghost predicate Embeds(r: seq<Point>, pts: seq<Point>, idx: seq<nat>) {
    && |idx| == |r| >= 1
    && idx[0] == 0 && idx[|idx| - 1] == |pts| - 1
    && (forall j :: 0 <= j < |idx| ==> idx[j] < |pts| && r[j] == pts[idx[j]])
    && (forall j, k :: 0 <= j < k < |idx| ==> idx[j] < idx[k])
  }

  /** Gluing the selections of the two halves gives a selection of the whole. */
  lemma EmbedsConcat(pts: seq<Point>, f: nat, L: seq<Point>, R: seq<Point>, Li: seq<nat>, Ri: seq<nat>)
    requires 1 <= f < |pts|
    requires Embeds(L, pts[..f], Li) && Embeds(R, pts[f..], Ri)
    ensures Embeds(L + R, pts, Li + Shift(Ri, f))
  {
    var left, right := pts[..f], pts[f..];
    var r, idx := L + R, Li + Shift(Ri, f);
    forall j | 0 <= j < |idx| ensures idx[j] < |pts| && r[j] == pts[idx[j]] {
      if j < |Li| {
        assert idx[j] == Li[j] && r[j] == L[j] && left[Li[j]] == pts[Li[j]];
      } else {
        var j' := j - |Li|;
        assert idx[j] == Ri[j'] + f && r[j] == R[j'] && right[Ri[j']] == pts[Ri[j'] + f];
      }
    }
    forall j, k | 0 <= j < k < |idx| ensures idx[j] < idx[k] {
      if k < |Li| {
        assert idx[j] == Li[j] && idx[k] == Li[k];
      } else if j < |Li| {
        assert idx[j] == Li[j] < f && idx[k] == Ri[k - |Li|] + f;
      } else {
        assert idx[j] == Ri[j - |Li|] + f && idx[k] == Ri[k - |Li|] + f;
      }
    }
    assert idx[|idx| - 1] == Ri[|Ri| - 1] + f;
  }

  /** The output is an order-preserving subsequence of the input that keeps both ends. */
  lemma {:induction false} KeptEmbeds(pts: seq<Point>, eps: real)
    requires |pts| >= 1 && eps >= 0.0 && DistinctX(pts)
    ensures Embeds(Simplify(pts, eps), pts, Kept(pts, eps))
    decreases |pts|
  {
    if |pts| == 1 {
      assert Simplify(pts, eps) == [pts[0]] && Kept(pts, eps) == [0];
    } else if SplitIndex(pts, eps) == 0 {
      KeptChord(pts, eps);
    } else {
      var f := SplitIndex(pts, eps);
      SliceDistinct(pts, 0, f);
      SliceDistinct(pts, f, |pts|);
      KeptEmbeds(pts[..f], eps);
      KeptEmbeds(pts[f..], eps);
      EmbedsSplit(pts, eps);
    }
  }

  /** The split case of `KeptEmbeds`, from the selections of both halves. */
  lemma EmbedsSplit(pts: seq<Point>, eps: real)
    requires |pts| >= 2 && eps >= 0.0 && DistinctX(pts) && SplitIndex(pts, eps) != 0
    requires DistinctX(pts[..SplitIndex(pts, eps)]) && DistinctX(pts[SplitIndex(pts, eps)..])
    requires Embeds(Simplify(pts[..SplitIndex(pts, eps)], eps), pts[..SplitIndex(pts, eps)], Kept(pts[..SplitIndex(pts, eps)], eps))
    requires Embeds(Simplify(pts[SplitIndex(pts, eps)..], eps), pts[SplitIndex(pts, eps)..], Kept(pts[SplitIndex(pts, eps)..], eps))
    ensures Embeds(Simplify(pts, eps), pts, Kept(pts, eps))
  {
    var f := SplitIndex(pts, eps);
    SimplifySplits(pts, eps);
    KeptSplits(pts, eps);
    EmbedsConcat(pts, f, Simplify(pts[..f], eps), Simplify(pts[f..], eps), Kept(pts[..f], eps), Kept(pts[f..], eps));
  }

  /** `p` is within `eps` of the line through `a` and `b`. */
  ghost predicate Within(a: Point, b: Point, p: Point, eps: real) {
    a.x != b.x && DistSq(LineThrough(a, b), p) <= eps * eps
  }

  /** Every point of `pts` strictly between positions a and b is within eps of the chord from a to b. */
  ghost predicate SegmentCovered(pts: seq<Point>, a: nat, b: nat, eps: real) {
    a < b < |pts| && forall i :: a < i < b ==> Within(pts[a], pts[b], pts[i], eps)
  }

  /** Every segment between two consecutive kept positions is covered. */
  ghost predicate Covers(pts: seq<Point>, idx: seq<nat>, eps: real) {
    forall j, k :: 0 <= j && k == j + 1 && k < |idx| ==> SegmentCovered(pts, idx[j], idx[k], eps)
  }

  /** A covered segment of a slice is a covered segment of the whole, moved by the slice start. */
  lemma SegmentOfSlice(pts: seq<Point>, lo: nat, hi: nat, a: nat, b: nat, eps: real)
    requires lo <= hi <= |pts| && SegmentCovered(pts[lo..hi], a, b, eps)
    ensures SegmentCovered(pts, a + lo, b + lo, eps)
  {
    var sub := pts[lo..hi];
    forall i | a + lo < i < b + lo ensures Within(pts[a + lo], pts[b + lo], pts[i], eps) {
      assert sub[a] == pts[a + lo] && sub[b] == pts[b + lo] && sub[i - lo] == pts[i];
      assert Within(sub[a], sub[b], sub[i - lo], eps);
    }
  }

  /** The leaf case: keeping the chord means every interior point is within eps of it, and conversely. */
  lemma ChordKept(pts: seq<Point>, eps: real)
    requires |pts| >= 2 && eps >= 0.0 && pts[0].x != pts[|pts| - 1].x
    ensures SplitIndex(pts, eps) == 0 <==> forall i :: 1 <= i < |pts| - 1 ==> DistSq(Chord(pts), pts[i]) <= eps * eps
  {
    ScanFacts(pts, Chord(pts), |pts| - 1);
  }

  /** Gluing two covering selections whose seam joins adjacent positions gives a covering selection. */
  lemma CoversConcat(pts: seq<Point>, f: nat, Li: seq<nat>, Ri: seq<nat>, eps: real)
    requires 1 <= f < |pts| && |Li| >= 1 && |Ri| >= 1
    requires Li[|Li| - 1] == f - 1 && Ri[0] == 0
    requires Covers(pts[..f], Li, eps) && Covers(pts[f..], Ri, eps)
    ensures Covers(pts, Li + Shift(Ri, f), eps)
  {
    var idx := Li + Shift(Ri, f);
    forall j, k | 0 <= j && k == j + 1 && k < |idx| ensures SegmentCovered(pts, idx[j], idx[k], eps) {
      if k < |Li| {
        assert idx[j] == Li[j] && idx[k] == Li[k];
        SegmentOfSlice(pts, 0, f, Li[j], Li[k], eps);
      } else if j < |Li| {
        assert idx[j] == f - 1 && idx[k] == f;
      } else {
        var j', k' := j - |Li|, k - |Li|;
        assert idx[j] == Ri[j'] + f && idx[k] == Ri[k'] + f;
        SegmentOfSlice(pts, f, |pts|, Ri[j'], Ri[k'], eps);
      }
    }
  }

  lemma {:induction false} KeptCovers(pts: seq<Point>, eps: real)
    requires |pts| >= 1 && eps >= 0.0 && DistinctX(pts)
    ensures Covers(pts, Kept(pts, eps), eps)
    decreases |pts|
  {
    if |pts| == 1 {
      assert Kept(pts, eps) == [0];
    } else if SplitIndex(pts, eps) == 0 {
      CoversChord(pts, eps);
    } else {
      var f := SplitIndex(pts, eps);
      SliceDistinct(pts, 0, f);
      SliceDistinct(pts, f, |pts|);
      KeptCovers(pts[..f], eps);
      KeptCovers(pts[f..], eps);
      CoversSplit(pts, eps);
    }
  }

  /** The leaf case of `KeptCovers`. */
  lemma CoversChord(pts: seq<Point>, eps: real)
    requires |pts| >= 2 && eps >= 0.0 && DistinctX(pts) && SplitIndex(pts, eps) == 0
    ensures Covers(pts, Kept(pts, eps), eps)
  {
    KeptChord(pts, eps);
    ChordKept(pts, eps);
  }

  /** The split case of `KeptCovers`, from the coverage of both halves. */
  lemma CoversSplit(pts: seq<Point>, eps: real)
    requires |pts| >= 2 && eps >= 0.0 && DistinctX(pts) && SplitIndex(pts, eps) != 0
    requires DistinctX(pts[..SplitIndex(pts, eps)]) && DistinctX(pts[SplitIndex(pts, eps)..])
    requires Covers(pts[..SplitIndex(pts, eps)], Kept(pts[..SplitIndex(pts, eps)], eps), eps)
    requires Covers(pts[SplitIndex(pts, eps)..], Kept(pts[SplitIndex(pts, eps)..], eps), eps)
    ensures Covers(pts, Kept(pts, eps), eps)
  {
    var f := SplitIndex(pts, eps);
    KeptSplits(pts, eps);
    CoversConcat(pts, f, Kept(pts[..f], eps), Kept(pts[f..], eps), eps);
  }

  // ---------------------------------------------------------------------
  // Properties of the output
  // ---------------------------------------------------------------------

  /** No point is kept twice: the output has pairwise distinct x. */
  lemma SimplifyNoDuplicates(pts: seq<Point>, eps: real)
    requires |pts| >= 1 && eps >= 0.0 && DistinctX(pts)
    ensures DistinctX(Simplify(pts, eps))
    ensures forall j, k :: 0 <= j < k < |Simplify(pts, eps)| ==> Simplify(pts, eps)[j] != Simplify(pts, eps)[k]
  {
    KeptEmbeds(pts, eps);
    var r, idx := Simplify(pts, eps), Kept(pts, eps);
    forall j, k | 0 <= j < k < |r| ensures r[j].x != r[k].x {
      assert r[j] == pts[idx[j]] && r[k] == pts[idx[k]] && idx[j] < idx[k];
    }
  }

  /** With increasing x in, x increases along the output too. */
  lemma SimplifyIncreasing(pts: seq<Point>, eps: real)
    requires |pts| >= 1 && eps >= 0.0 && IncreasingX(pts)
    ensures DistinctX(pts) && IncreasingX(Simplify(pts, eps))
  {
    IncreasingIsDistinct(pts);
    KeptEmbeds(pts, eps);
    var r, idx := Simplify(pts, eps), Kept(pts, eps);
    forall j, k | 0 <= j < k < |r| ensures r[j].x < r[k].x {
      assert r[j] == pts[idx[j]] && r[k] == pts[idx[k]] && idx[j] < idx[k];
    }
  }

  /**
   * The result is the bare chord `[points[0], points[-1]]` exactly when no
   * interior point is farther than eps from it.
   */
  lemma SimplifyChord(pts: seq<Point>, eps: real)
    requires |pts| >= 2 && eps >= 0.0 && DistinctX(pts)
    ensures Simplify(pts, eps) == [pts[0], pts[|pts| - 1]]
        <==> forall i :: 1 <= i < |pts| - 1 ==> DistSq(Chord(pts), pts[i]) <= eps * eps
  {
    ChordKept(pts, eps);
    var f := SplitIndex(pts, eps);
    if f != 0 {
      SliceDistinct(pts, 0, f);
      SliceDistinct(pts, f, |pts|);
      var R := Simplify(pts[f..], eps);
      assert R[0] == pts[f] && R[|R| - 1] == pts[|pts| - 1];
      assert pts[f].x != pts[|pts| - 1].x;
      assert |R| >= 2;
      assert |Simplify(pts, eps)| >= 3;
    }
  }

  /** A flat series collapses to its two ends. */
  lemma FlatSeries(pts: seq<Point>, eps: real)
    requires |pts| >= 2 && eps >= 0.0 && DistinctX(pts)
    requires forall i :: 0 <= i < |pts| ==> pts[i].y == pts[0].y
    ensures Simplify(pts, eps) == [pts[0], pts[|pts| - 1]]
  {
    var l := Chord(pts);
    assert l.m == 0.0 && l.k == pts[0].y;
    forall i | 1 <= i < |pts| - 1 ensures DistSq(l, pts[i]) <= eps * eps {
      assert l.m * pts[i].x - pts[i].y + l.k == 0.0;
    }
    SimplifyChord(pts, eps);
  }

  /**
   * For consecutive output points, every input point whose x lies strictly
   * between theirs is within eps of the line through them.
   */
  lemma SimplifyWithinEps(pts: seq<Point>, eps: real)
    requires |pts| >= 1 && eps >= 0.0 && IncreasingX(pts)
    ensures DistinctX(pts)
    ensures forall j, k, i ::
              (0 <= j && k == j + 1 && k < |Simplify(pts, eps)| && 0 <= i < |pts|
               && Simplify(pts, eps)[j].x < pts[i].x < Simplify(pts, eps)[k].x) ==>
              Within(Simplify(pts, eps)[j], Simplify(pts, eps)[k], pts[i], eps)
  {
    IncreasingIsDistinct(pts);
    KeptEmbeds(pts, eps);
    KeptCovers(pts, eps);
    var r, idx := Simplify(pts, eps), Kept(pts, eps);
    forall j, k, i | 0 <= j && k == j + 1 && k < |r| && 0 <= i < |pts| && r[j].x < pts[i].x < r[k].x
      ensures Within(r[j], r[k], pts[i], eps)
    {
      assert r[j] == pts[idx[j]] && r[k] == pts[idx[k]];
      XOrder(pts, idx[j], i);
      XOrder(pts, i, idx[k]);
      assert SegmentCovered(pts, idx[j], idx[k], eps);
    }
  }

  // ---------------------------------------------------------------------
  // The RDP object
  // ---------------------------------------------------------------------

  /** The close prices as points, the x coordinate being the position in the series. */
  function IndexedPoints(close: seq<real>): (pts: seq<Point>)
    ensures |pts| == |close| && IncreasingX(pts)
    ensures forall i :: 0 <= i < |pts| ==> pts[i] == Point(i as real, close[i])
  {
    seq(|close|, i requires 0 <= i < |close| => Point(i as real, close[i]))
  }

  /** The first and last indexed points. */
  lemma IndexedEnds(close: seq<real>)
    requires |close| >= 1
    ensures IndexedPoints(close)[0] == Point(0.0, close[0])
    ensures IndexedPoints(close)[|close| - 1] == Point((|close| - 1) as real, close[|close| - 1])
  {
  }

  /**
   * The trend line of a close-price series starts at (0, close[0]), ends at
   * the last close, and runs left to right.
   */
  lemma TrendLine(close: seq<real>, eps: real)
    requires |close| >= 1 && eps >= 0.0
    ensures DistinctX(IndexedPoints(close))
    ensures Simplify(IndexedPoints(close), eps)[0] == Point(0.0, close[0])
    ensures Simplify(IndexedPoints(close), eps)[|Simplify(IndexedPoints(close), eps)| - 1]
         == Point((|close| - 1) as real, close[|close| - 1])
    ensures IncreasingX(Simplify(IndexedPoints(close), eps))
  {
    IndexedEnds(close);
    SimplifyIncreasing(IndexedPoints(close), eps);
  }

  /** With close prices 0, 0, 0, 0, 0 the trend line is two vertices. */
  lemma FlatExample()
    ensures Simplify(IndexedPoints([0.0, 0.0, 0.0, 0.0, 0.0]), 0.001) == [Point(0.0, 0.0), Point(4.0, 0.0)]
  {
    var pts := IndexedPoints([0.0, 0.0, 0.0, 0.0, 0.0]);
    IncreasingIsDistinct(pts);
    FlatSeries(pts, 0.001);
  }

  class RDP {
    const close: seq<real>
    const lines: seq<Point>
    const lineX: seq<real>
    const lineY: seq<real>

    /** `RDP(klist, epsilon)`, without the plotting. */
    constructor (klist: seq<KBlock>, epsilon: real)
      requires |klist| >= 1 && epsilon >= 0.0
      ensures |close| == |klist| && forall i :: 0 <= i < |klist| ==> close[i] == klist[i].close
      ensures lines == Simplify(IndexedPoints(close), epsilon)
      ensures |lineX| == |lines| == |lineY|
      ensures forall i :: 0 <= i < |lines| ==> lineX[i] == lines[i].x && lineY[i] == lines[i].y
    {
      var cs := Closes(klist);
      var points := IndexedPoints(cs);
      IncreasingIsDistinct(points);
      var ls := DouglasPeucker(points, epsilon);
      close := cs;
      lines := ls;
      lineX := seq(|ls|, i requires 0 <= i < |ls| => ls[i].x);
      lineY := seq(|ls|, i requires 0 <= i < |ls| => ls[i].y);
    }

    /**
     * The loop of `douglas_peucker` over the interior points: the largest
     * squared distance to `line` and the first index where it occurs, or
     * 0 and 0 when every interior point lies on the line.
     */
    static method FarthestInterior(points: seq<Point>, line: Line) returns (maxSq: real, furthest: nat)
      requires |points| >= 2
      ensures Farthest(maxSq, furthest) == Scan(points, line, |points| - 1)
    {
      maxSq := 0.0;
      furthest := 0;
      for i := 1 to |points| - 1
        invariant Farthest(maxSq, furthest) == Scan(points, line, i)
      {
        var d := DistSq(line, points[i]);
        if d > maxSq {
          maxSq := d;
          furthest := i;
        }
      }
    }

    /** `douglas_peucker(points, eps)`: the argmax loop, then the split or the chord. */
    static method DouglasPeucker(points: seq<Point>, eps: real) returns (lines: seq<Point>)
      requires |points| >= 1 && eps >= 0.0 && DistinctX(points)
      ensures lines == Simplify(points, eps)
      decreases |points|
    {
      if |points| == 1 {
        return [points[0]];
      }
      var line := LineThrough(points[0], points[|points| - 1]);
      var maxSq, furthest := FarthestInterior(points, line);
      SimplifyStep(points, eps, maxSq, furthest);
      lines := [];
      if maxSq > eps * eps {
        var left := DouglasPeucker(points[..furthest], eps);
        var right := DouglasPeucker(points[furthest..], eps);
        lines := lines + left;
        assert lines == left;
        lines := lines + right;
        assert lines == Simplify(points, eps);
      } else {
        lines := lines + [points[0]];
        assert lines == [points[0]];
        lines := lines + [points[|points| - 1]];
        assert lines == Simplify(points, eps);
      }
    }
  }
}
