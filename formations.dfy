/**
 * The chart formations of pp/patternfinder.py: the relative closeness test
 * `_is_close_enough` and the six window predicates `_is_hs`, `_is_ihs`,
 * `_is_double_top`, `_is_double_bottom`, `_is_triple_top` and
 * `_is_triple_bottom`, each tested at offset `cur` of the pivot-point list.
 *
 * Each predicate is written as its source writes it (guard by guard).  A
 * second, table-driven definition `TableMatch` describes all six by the
 * same four ingredients (window size, kind of the first point, which inner
 * points must lie above or below the outer ones, and which groups of points
 * must be close to their mean), and `HoldsIsTableMatch` shows the two agree.
 */
module Formations {
  import opened Zigzag

  function Abs(x: real): (r: real)
    ensures r >= 0.0 && (r == x || r == -x)
  {
    if x < 0.0 then -x else x
  }

  /** `_is_close_enough(p1, p2, delta)`: the tolerance is relative to the second price. */
  function IsCloseEnough(p1: real, p2: real, delta: real): (r: bool)
    requires p2 != 0.0
    ensures p2 > 0.0 ==> (r <==> Abs(p1 - p2) <= delta * p2)
  {
    var q := Abs(p1 - p2) / p2;
    assert Abs(p1 - p2) == q * p2;
    assert p2 > 0.0 ==> (q <= delta <==> q * p2 <= delta * p2);
    q <= delta
  }

  /**
   * For a positive reference price the test is `|p1 - p2| <= delta * p2`;
   * for a negative one (which prices never are) the division flips it.
   */
  lemma CloseEnoughMeans(p1: real, p2: real, delta: real)
    requires p2 != 0.0
    ensures p2 > 0.0 ==> (IsCloseEnough(p1, p2, delta) <==> Abs(p1 - p2) <= delta * p2)
    ensures p2 < 0.0 ==> (IsCloseEnough(p1, p2, delta) <==> Abs(p1 - p2) >= delta * p2)
  {
    var q := Abs(p1 - p2) / p2;
    assert Abs(p1 - p2) == q * p2;
    if p2 > 0.0 {
      assert q <= delta <==> q * p2 <= delta * p2;
    } else {
      assert q <= delta <==> q * p2 >= delta * p2;
    }
  }

  /** Every price is close to itself under a non-negative tolerance. */
  lemma CloseReflexive(p: real, delta: real)
    requires p != 0.0 && delta >= 0.0
    ensures IsCloseEnough(p, p, delta)
  {
  }

  /** A larger tolerance accepts everything a smaller one does. */
  lemma CloseMonotone(p1: real, p2: real, d1: real, d2: real)
    requires p2 != 0.0 && d1 <= d2
    ensures IsCloseEnough(p1, p2, d1) ==> IsCloseEnough(p1, p2, d2)
  {
  }

  /** The test is not symmetric: the tolerance is relative to the second price. */
  lemma CloseNotSymmetric()
    ensures IsCloseEnough(1.0, 2.0, 0.5)
    ensures !IsCloseEnough(2.0, 1.0, 0.5)
  {
  }

  /** Every pivot point indexes the price series. */
  predicate IndicesBelow(pv: seq<PivotPoint>, n: nat) {
    forall j :: 0 <= j < |pv| ==> pv[j].index < n
  }

  /** The price at pivot point j. */
  function Price(X: seq<real>, pv: seq<PivotPoint>, j: nat): (p: real)
    requires Positive(X) && IndicesBelow(pv, |X|) && j < |pv|
    ensures p > 0.0
  {
    X[pv[j].index]
  }

  /** `_is_hs`: head and shoulders, starting at a PEAK. */
  function IsHs(X: seq<real>, pv: seq<PivotPoint>, cur: nat, delta: real): (r: bool)
    requires Positive(X) && IndicesBelow(pv, |X|)
    ensures cur > |pv| - 5 ==> !r
    ensures cur + 5 <= |pv| && pv[cur].dir != PEAK ==> !r
    ensures r ==> cur + 5 <= |pv| && Price(X, pv, cur + 2) >= Price(X, pv, cur)
                               && Price(X, pv, cur + 2) >= Price(X, pv, cur + 4)
  {
    if cur > |pv| - 5 then false
    else if pv[cur].dir != PEAK then false
    else
      var e1, e2, e3, e4, e5 := Price(X, pv, cur), Price(X, pv, cur + 1), Price(X, pv, cur + 2),
                                Price(X, pv, cur + 3), Price(X, pv, cur + 4);
      if e3 < e1 || e3 < e5 then false
      else
        var e15 := (e1 + e5) / 2.0;
        var e24 := (e2 + e4) / 2.0;
        IsCloseEnough(e1, e15, delta) && IsCloseEnough(e5, e15, delta) &&
        IsCloseEnough(e2, e24, delta) && IsCloseEnough(e4, e24, delta)
  }

  /** `_is_ihs`: inverted head and shoulders, starting at a VALLEY. */
  function IsIhs(X: seq<real>, pv: seq<PivotPoint>, cur: nat, delta: real): (r: bool)
    requires Positive(X) && IndicesBelow(pv, |X|)
    ensures cur > |pv| - 5 ==> !r
    ensures cur + 5 <= |pv| && pv[cur].dir != VALLEY ==> !r
    ensures r ==> cur + 5 <= |pv| && Price(X, pv, cur + 2) <= Price(X, pv, cur)
                               && Price(X, pv, cur + 2) <= Price(X, pv, cur + 4)
  {
    if cur > |pv| - 5 then false
    else if pv[cur].dir != VALLEY then false
    else
      var e1, e2, e3, e4, e5 := Price(X, pv, cur), Price(X, pv, cur + 1), Price(X, pv, cur + 2),
                                Price(X, pv, cur + 3), Price(X, pv, cur + 4);
      if e3 > e1 || e3 > e5 then false
      else
        var e15 := (e1 + e5) / 2.0;
        var e24 := (e2 + e4) / 2.0;
        IsCloseEnough(e1, e15, delta) && IsCloseEnough(e5, e15, delta) &&
        IsCloseEnough(e2, e24, delta) && IsCloseEnough(e4, e24, delta)
  }

  /** `_is_double_bottom`: starts at a PEAK, E3 not above E1 and E5, E2 and E4 close. */
  function IsDoubleBottom(X: seq<real>, pv: seq<PivotPoint>, cur: nat, delta: real): (r: bool)
    requires Positive(X) && IndicesBelow(pv, |X|)
    ensures cur > |pv| - 5 ==> !r
    ensures cur + 5 <= |pv| && pv[cur].dir != PEAK ==> !r
    ensures r ==> cur + 5 <= |pv| && Price(X, pv, cur + 2) <= Price(X, pv, cur)
                               && Price(X, pv, cur + 2) <= Price(X, pv, cur + 4)
  {
    if cur > |pv| - 5 then false
    else if pv[cur].dir != PEAK then false
    else
      var e1, e2, e3, e4, e5 := Price(X, pv, cur), Price(X, pv, cur + 1), Price(X, pv, cur + 2),
                                Price(X, pv, cur + 3), Price(X, pv, cur + 4);
      if e3 > e1 || e3 > e5 then false
      else
        var e24 := (e2 + e4) / 2.0;
        IsCloseEnough(e2, e24, delta) && IsCloseEnough(e4, e24, delta)
  }

  /** `_is_double_top`: starts at a VALLEY, E3 not below E1 and E5, E2 and E4 close. */
  function IsDoubleTop(X: seq<real>, pv: seq<PivotPoint>, cur: nat, delta: real): (r: bool)
    requires Positive(X) && IndicesBelow(pv, |X|)
    ensures cur > |pv| - 5 ==> !r
    ensures cur + 5 <= |pv| && pv[cur].dir != VALLEY ==> !r
    ensures r ==> cur + 5 <= |pv| && Price(X, pv, cur + 2) >= Price(X, pv, cur)
                               && Price(X, pv, cur + 2) >= Price(X, pv, cur + 4)
  {
    if cur > |pv| - 5 then false
    else if pv[cur].dir != VALLEY then false
    else
      var e1, e2, e3, e4, e5 := Price(X, pv, cur), Price(X, pv, cur + 1), Price(X, pv, cur + 2),
                                Price(X, pv, cur + 3), Price(X, pv, cur + 4);
      if e3 < e1 || e3 < e5 then false
      else
        var e24 := (e2 + e4) / 2.0;
        IsCloseEnough(e2, e24, delta) && IsCloseEnough(e4, e24, delta)
  }

  /** `_is_triple_bottom`: starts at a PEAK, E3 and E5 not above E1 and E7, E2/E4/E6 and E3/E5 close. */
  function IsTripleBottom(X: seq<real>, pv: seq<PivotPoint>, cur: nat, delta: real): (r: bool)
    requires Positive(X) && IndicesBelow(pv, |X|)
    ensures cur > |pv| - 7 ==> !r
    ensures cur + 7 <= |pv| && pv[cur].dir != PEAK ==> !r
    ensures r ==> (cur + 7 <= |pv|
                   && Price(X, pv, cur + 2) <= Price(X, pv, cur) && Price(X, pv, cur + 2) <= Price(X, pv, cur + 6)
                   && Price(X, pv, cur + 4) <= Price(X, pv, cur) && Price(X, pv, cur + 4) <= Price(X, pv, cur + 6))
  {
    if cur > |pv| - 7 then false
    else if pv[cur].dir != PEAK then false
    else
      var e1, e2, e3, e4 := Price(X, pv, cur), Price(X, pv, cur + 1), Price(X, pv, cur + 2), Price(X, pv, cur + 3);
      var e5, e6, e7 := Price(X, pv, cur + 4), Price(X, pv, cur + 5), Price(X, pv, cur + 6);
      if e3 > e1 || e3 > e7 then false
      else if e5 > e1 || e5 > e7 then false
      else
        var e246 := (e2 + e4 + e6) / 3.0;
        if !IsCloseEnough(e2, e246, delta) || !IsCloseEnough(e4, e246, delta) || !IsCloseEnough(e6, e246, delta) then false
        else
          var e35 := (e3 + e5) / 2.0;
          if !IsCloseEnough(e3, e35, delta) || !IsCloseEnough(e5, e35, delta) then false
          else true
  }

  /** `_is_triple_top`: starts at a VALLEY, E3 and E5 not below E1 and E7, E2/E4/E6 and E3/E5 close. */
  function IsTripleTop(X: seq<real>, pv: seq<PivotPoint>, cur: nat, delta: real): (r: bool)
    requires Positive(X) && IndicesBelow(pv, |X|)
    ensures cur > |pv| - 7 ==> !r
    ensures cur + 7 <= |pv| && pv[cur].dir != VALLEY ==> !r
    ensures r ==> (cur + 7 <= |pv|
                   && Price(X, pv, cur + 2) >= Price(X, pv, cur) && Price(X, pv, cur + 2) >= Price(X, pv, cur + 6)
                   && Price(X, pv, cur + 4) >= Price(X, pv, cur) && Price(X, pv, cur + 4) >= Price(X, pv, cur + 6))
  {
    if cur > |pv| - 7 then false
    else if pv[cur].dir != VALLEY then false
    else
      var e1, e2, e3, e4 := Price(X, pv, cur), Price(X, pv, cur + 1), Price(X, pv, cur + 2), Price(X, pv, cur + 3);
      var e5, e6, e7 := Price(X, pv, cur + 4), Price(X, pv, cur + 5), Price(X, pv, cur + 6);
      if e3 < e1 || e3 < e7 then false
      else if e5 < e1 || e5 < e7 then false
      else
        var e246 := (e2 + e4 + e6) / 3.0;
        if !IsCloseEnough(e2, e246, delta) || !IsCloseEnough(e4, e246, delta) || !IsCloseEnough(e6, e246, delta) then false
        else
          var e35 := (e3 + e5) / 2.0;
          if !IsCloseEnough(e3, e35, delta) || !IsCloseEnough(e5, e35, delta) then false
          else true
  }

  // ---------------------------------------------------------------------
  // One description of all six formations
  // ---------------------------------------------------------------------

  /** The six formations; the tag stands for the predicate `find_pattern` is handed. */
  datatype Formation = HeadShoulders | InvHeadShoulders | DoubleTop | DoubleBottom | TripleTop | TripleBottom

  /** The `count` the `find_*` wrapper passes: the number of pivot points in the window. */
  function Size(f: Formation): nat {
    match f
    case TripleTop | TripleBottom => 7
    case _ => 5
  }

  /** The kind the first pivot point (E1) must have. */
  function FirstDir(f: Formation): int {
    match f
    case HeadShoulders | DoubleBottom | TripleBottom => PEAK
    case _ => VALLEY
  }

  /** Whether the inner points must be at least (true) or at most (false) the outer ones. */
  function InnerAbove(f: Formation): bool {
    match f
    case HeadShoulders | DoubleTop | TripleTop => true
    case _ => false
  }

  /** Offsets in the window of the inner points compared with the two outer ones. */
  function Inner(f: Formation): seq<nat> {
    if Size(f) == 7 then [2, 4] else [2]
  }

  /** Groups of offsets whose prices must each be close to the group's mean. */
  function Groups(f: Formation): seq<seq<nat>> {
    match f
    case HeadShoulders | InvHeadShoulders => [[0, 4], [1, 3]]
    case DoubleTop | DoubleBottom => [[1, 3]]
    case TripleTop | TripleBottom => [[1, 3, 5], [2, 4]]
  }

  function Sum(xs: seq<real>): real {
    if xs == [] then 0.0 else xs[0] + Sum(xs[1..])
  }

  /** The prices at the given window offsets. */
  function Prices(X: seq<real>, pv: seq<PivotPoint>, cur: nat, offs: seq<nat>): (ps: seq<real>)
    requires Positive(X) && IndicesBelow(pv, |X|)
    requires forall i :: 0 <= i < |offs| ==> cur + offs[i] < |pv|
    ensures |ps| == |offs|
    ensures forall i :: 0 <= i < |offs| ==> ps[i] == Price(X, pv, cur + offs[i])
  {
    seq(|offs|, i requires 0 <= i < |offs| => Price(X, pv, cur + offs[i]))
  }

  /** Inner prices against outer prices, in the direction the formation asks for. */
  predicate Ordered(f: Formation, X: seq<real>, pv: seq<PivotPoint>, cur: nat)
    requires Positive(X) && IndicesBelow(pv, |X|) && cur + Size(f) <= |pv|
  {
    var last := Size(f) - 1;
    forall m :: m in Inner(f) ==>
      if InnerAbove(f) then Price(X, pv, cur + m) >= Price(X, pv, cur) && Price(X, pv, cur + m) >= Price(X, pv, cur + last)
      else Price(X, pv, cur + m) <= Price(X, pv, cur) && Price(X, pv, cur + m) <= Price(X, pv, cur + last)
  }

  /** Every price of the group is close to the group's mean. */
  predicate GroupClose(ps: seq<real>, delta: real)
    requires |ps| >= 1 && forall i :: 0 <= i < |ps| ==> ps[i] > 0.0
  {
    forall i :: 0 <= i < |ps| ==> IsCloseEnough(ps[i], Mean(ps), delta)
  }

  /** The arithmetic mean of a non-empty list of prices, which is again positive. */
  function Mean(ps: seq<real>): (m: real)
    requires |ps| >= 1 && forall i :: 0 <= i < |ps| ==> ps[i] > 0.0
    ensures m > 0.0
  {
    PosSum(ps);
    Sum(ps) / (|ps| as real)
  }

  lemma MeanOfTwo(ps: seq<real>)
    requires |ps| == 2 && ps[0] > 0.0 && ps[1] > 0.0
    ensures Mean(ps) == (ps[0] + ps[1]) / 2.0
  {
    assert ps[1..][1..] == [];
    assert Sum(ps[1..]) == ps[1];
    assert Sum(ps) == ps[0] + ps[1];
  }

  lemma MeanOfThree(ps: seq<real>)
    requires |ps| == 3 && ps[0] > 0.0 && ps[1] > 0.0 && ps[2] > 0.0
    ensures Mean(ps) == (ps[0] + ps[1] + ps[2]) / 3.0
  {
    assert ps[1..][1..][1..] == [];
    assert Sum(ps[1..][1..]) == ps[2];
    assert Sum(ps[1..]) == ps[1] + ps[2];
    assert Sum(ps) == ps[0] + ps[1] + ps[2];
  }

  lemma PosSum(ps: seq<real>)
    requires |ps| >= 1 && forall i :: 0 <= i < |ps| ==> ps[i] > 0.0
    ensures Sum(ps) > 0.0
    decreases |ps|
  {
    if |ps| > 1 {
      PosSum(ps[1..]);
    }
  }

  /** The formation described by the tables holds at window offset `cur`. */
  predicate TableMatch(f: Formation, X: seq<real>, pv: seq<PivotPoint>, cur: nat, delta: real)
    requires Positive(X) && IndicesBelow(pv, |X|)
  {
    && cur + Size(f) <= |pv|
    && pv[cur].dir == FirstDir(f)
    && Ordered(f, X, pv, cur)
    && AllGroupsClose(f, X, pv, cur, delta)
  }

  /** Every closeness group of the formation passes. */
  predicate AllGroupsClose(f: Formation, X: seq<real>, pv: seq<PivotPoint>, cur: nat, delta: real)
    requires Positive(X) && IndicesBelow(pv, |X|) && cur + Size(f) <= |pv|
  {
    forall g :: g in Groups(f) ==> GroupClose(Prices(X, pv, cur, g), delta)
  }

  /** The predicate `find_pattern` is handed for formation f. */
  function Holds(f: Formation, X: seq<real>, pv: seq<PivotPoint>, cur: nat, delta: real): (r: bool)
    requires Positive(X) && IndicesBelow(pv, |X|)
    ensures r ==> cur + Size(f) <= |pv| && pv[cur].dir == FirstDir(f)
  {
    match f
    case HeadShoulders => IsHs(X, pv, cur, delta)
    case InvHeadShoulders => IsIhs(X, pv, cur, delta)
    case DoubleTop => IsDoubleTop(X, pv, cur, delta)
    case DoubleBottom => IsDoubleBottom(X, pv, cur, delta)
    case TripleTop => IsTripleTop(X, pv, cur, delta)
    case TripleBottom => IsTripleBottom(X, pv, cur, delta)
  }

  /** Both prices are close to their mean, as the source tests E1/E5, E2/E4 and E3/E5. */
  predicate PairNear(p: real, q: real, delta: real)
    requires p > 0.0 && q > 0.0
  {
    var m := (p + q) / 2.0;
    IsCloseEnough(p, m, delta) && IsCloseEnough(q, m, delta)
  }

  /** All three prices are close to their mean, as the source tests E2/E4/E6. */
  predicate TripleNear(p: real, q: real, r: real, delta: real)
    requires p > 0.0 && q > 0.0 && r > 0.0
  {
    var m := (p + q + r) / 3.0;
    IsCloseEnough(p, m, delta) && IsCloseEnough(q, m, delta) && IsCloseEnough(r, m, delta)
  }

  /** A group of two offsets is the pairwise mean test. */
  lemma PairClose(X: seq<real>, pv: seq<PivotPoint>, cur: nat, a: nat, b: nat, delta: real)
    requires Positive(X) && IndicesBelow(pv, |X|) && cur + a < |pv| && cur + b < |pv|
    ensures GroupClose(Prices(X, pv, cur, [a, b]), delta) == PairNear(Price(X, pv, cur + a), Price(X, pv, cur + b), delta)
  {
    var ps := Prices(X, pv, cur, [a, b]);
    MeanOfTwo(ps);
    assert GroupClose(ps, delta) <==> IsCloseEnough(ps[0], Mean(ps), delta) && IsCloseEnough(ps[1], Mean(ps), delta);
  }

  /** A group of three offsets is the three-way mean test. */
  lemma TripleClose(X: seq<real>, pv: seq<PivotPoint>, cur: nat, a: nat, b: nat, c: nat, delta: real)
    requires Positive(X) && IndicesBelow(pv, |X|) && cur + a < |pv| && cur + b < |pv| && cur + c < |pv|
    ensures GroupClose(Prices(X, pv, cur, [a, b, c]), delta) ==
      TripleNear(Price(X, pv, cur + a), Price(X, pv, cur + b), Price(X, pv, cur + c), delta)
  {
    var ps := Prices(X, pv, cur, [a, b, c]);
    MeanOfThree(ps);
    assert GroupClose(ps, delta) <==>
      IsCloseEnough(ps[0], Mean(ps), delta) && IsCloseEnough(ps[1], Mean(ps), delta) && IsCloseEnough(ps[2], Mean(ps), delta);
  }

  /** The order test of a five-point window. */
  lemma FiveOrdered(f: Formation, X: seq<real>, pv: seq<PivotPoint>, cur: nat)
    requires Size(f) == 5 && Positive(X) && IndicesBelow(pv, |X|) && cur + 5 <= |pv|
    ensures var e1, e3, e5 := Price(X, pv, cur), Price(X, pv, cur + 2), Price(X, pv, cur + 4);
      Ordered(f, X, pv, cur) <==> if InnerAbove(f) then e3 >= e1 && e3 >= e5 else e3 <= e1 && e3 <= e5
  {
    assert Inner(f) == [2];
    assert 2 in Inner(f);
  }

  /** The order test of a seven-point window. */
  lemma SevenOrdered(f: Formation, X: seq<real>, pv: seq<PivotPoint>, cur: nat)
    requires Size(f) == 7 && Positive(X) && IndicesBelow(pv, |X|) && cur + 7 <= |pv|
    ensures var e1, e3, e5, e7 := Price(X, pv, cur), Price(X, pv, cur + 2), Price(X, pv, cur + 4), Price(X, pv, cur + 6);
      Ordered(f, X, pv, cur) <==>
        if InnerAbove(f) then e3 >= e1 && e3 >= e7 && e5 >= e1 && e5 >= e7
        else e3 <= e1 && e3 <= e7 && e5 <= e1 && e5 <= e7
  {
    assert Inner(f) == [2, 4];
    assert 2 in Inner(f) && 4 in Inner(f);
  }

  /** The groups of both head-and-shoulders formations: E1/E5 and E2/E4. */
  lemma ShoulderGroups(f: Formation, X: seq<real>, pv: seq<PivotPoint>, cur: nat, delta: real)
    requires f == HeadShoulders || f == InvHeadShoulders
    requires Positive(X) && IndicesBelow(pv, |X|) && cur + 5 <= |pv|
    ensures AllGroupsClose(f, X, pv, cur, delta) ==
      (PairNear(Price(X, pv, cur), Price(X, pv, cur + 4), delta) &&
       PairNear(Price(X, pv, cur + 1), Price(X, pv, cur + 3), delta))
  {
    assert Groups(f) == [[0, 4], [1, 3]];
    PairClose(X, pv, cur, 0, 4, delta);
    PairClose(X, pv, cur, 1, 3, delta);
  }

  /** The group of both double formations: E2/E4. */
  lemma DoubleGroups(f: Formation, X: seq<real>, pv: seq<PivotPoint>, cur: nat, delta: real)
    requires f == DoubleTop || f == DoubleBottom
    requires Positive(X) && IndicesBelow(pv, |X|) && cur + 5 <= |pv|
    ensures AllGroupsClose(f, X, pv, cur, delta) == PairNear(Price(X, pv, cur + 1), Price(X, pv, cur + 3), delta)
  {
    assert Groups(f) == [[1, 3]];
    PairClose(X, pv, cur, 1, 3, delta);
  }

  /** The groups of both triple formations: E2/E4/E6 and E3/E5. */
  lemma TripleGroups(f: Formation, X: seq<real>, pv: seq<PivotPoint>, cur: nat, delta: real)
    requires f == TripleTop || f == TripleBottom
    requires Positive(X) && IndicesBelow(pv, |X|) && cur + 7 <= |pv|
    ensures AllGroupsClose(f, X, pv, cur, delta) ==
      (TripleNear(Price(X, pv, cur + 1), Price(X, pv, cur + 3), Price(X, pv, cur + 5), delta) &&
       PairNear(Price(X, pv, cur + 2), Price(X, pv, cur + 4), delta))
  {
    assert Groups(f) == [[1, 3, 5], [2, 4]];
    TripleClose(X, pv, cur, 1, 3, 5, delta);
    PairClose(X, pv, cur, 2, 4, delta);
  }

  lemma HsTable(X: seq<real>, pv: seq<PivotPoint>, cur: nat, delta: real)
    requires Positive(X) && IndicesBelow(pv, |X|) && cur + 5 <= |pv|
    ensures IsHs(X, pv, cur, delta) == TableMatch(HeadShoulders, X, pv, cur, delta)
  {
    FiveOrdered(HeadShoulders, X, pv, cur);
    ShoulderGroups(HeadShoulders, X, pv, cur, delta);
  }

  lemma IhsTable(X: seq<real>, pv: seq<PivotPoint>, cur: nat, delta: real)
    requires Positive(X) && IndicesBelow(pv, |X|) && cur + 5 <= |pv|
    ensures IsIhs(X, pv, cur, delta) == TableMatch(InvHeadShoulders, X, pv, cur, delta)
  {
    FiveOrdered(InvHeadShoulders, X, pv, cur);
    ShoulderGroups(InvHeadShoulders, X, pv, cur, delta);
  }

  lemma DoubleTopTable(X: seq<real>, pv: seq<PivotPoint>, cur: nat, delta: real)
    requires Positive(X) && IndicesBelow(pv, |X|) && cur + 5 <= |pv|
    ensures IsDoubleTop(X, pv, cur, delta) == TableMatch(DoubleTop, X, pv, cur, delta)
  {
    FiveOrdered(DoubleTop, X, pv, cur);
    DoubleGroups(DoubleTop, X, pv, cur, delta);
  }

  lemma DoubleBottomTable(X: seq<real>, pv: seq<PivotPoint>, cur: nat, delta: real)
    requires Positive(X) && IndicesBelow(pv, |X|) && cur + 5 <= |pv|
    ensures IsDoubleBottom(X, pv, cur, delta) == TableMatch(DoubleBottom, X, pv, cur, delta)
  {
    FiveOrdered(DoubleBottom, X, pv, cur);
    DoubleGroups(DoubleBottom, X, pv, cur, delta);
  }

  lemma TripleTopTable(X: seq<real>, pv: seq<PivotPoint>, cur: nat, delta: real)
    requires Positive(X) && IndicesBelow(pv, |X|) && cur + 7 <= |pv|
    ensures IsTripleTop(X, pv, cur, delta) == TableMatch(TripleTop, X, pv, cur, delta)
  {
    SevenOrdered(TripleTop, X, pv, cur);
    TripleGroups(TripleTop, X, pv, cur, delta);
  }

  lemma TripleBottomTable(X: seq<real>, pv: seq<PivotPoint>, cur: nat, delta: real)
    requires Positive(X) && IndicesBelow(pv, |X|) && cur + 7 <= |pv|
    ensures IsTripleBottom(X, pv, cur, delta) == TableMatch(TripleBottom, X, pv, cur, delta)
  {
    SevenOrdered(TripleBottom, X, pv, cur);
    TripleGroups(TripleBottom, X, pv, cur, delta);
  }

  /** The six predicates are exactly the table-driven description. */
  lemma HoldsIsTableMatch(f: Formation, X: seq<real>, pv: seq<PivotPoint>, cur: nat, delta: real)
    requires Positive(X) && IndicesBelow(pv, |X|)
    ensures Holds(f, X, pv, cur, delta) == TableMatch(f, X, pv, cur, delta)
  {
    if cur + Size(f) <= |pv| {
      match f
      case HeadShoulders => HsTable(X, pv, cur, delta);
      case InvHeadShoulders => IhsTable(X, pv, cur, delta);
      case DoubleTop => DoubleTopTable(X, pv, cur, delta);
      case DoubleBottom => DoubleBottomTable(X, pv, cur, delta);
      case TripleTop => TripleTopTable(X, pv, cur, delta);
      case TripleBottom => TripleBottomTable(X, pv, cur, delta);
    }
  }
}
