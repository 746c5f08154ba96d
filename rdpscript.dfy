/**
 * The module-level `douglas_peucker` of `test/__test_rdp.py`. Its `Point`,
 * `Line` and argmax loop are those of `pp/rdp.py`, so they are reused from
 * `Rdp`; what differs is that the halves are copied into the result one
 * element at a time.
 */
module RdpScript {
  import opened Rdp

  /** `douglas_peucker(points, eps)`: the same list as `RDP.douglas_peucker`. */
  method DouglasPeucker(points: seq<Point>, eps: real) returns (res: seq<Point>)
    requires |points| >= 1 && eps >= 0.0 && DistinctX(points)
    ensures res == Simplify(points, eps)
    decreases |points|
  {
    if |points| == 1 {
      return [points[0]];
    }
    var line := LineThrough(points[0], points[|points| - 1]);
    var maxSq, furthest := RDP.FarthestInterior(points, line);
    SimplifyStep(points, eps, maxSq, furthest);

    res := [];
    if maxSq > eps * eps {
      var res1 := DouglasPeucker(points[..furthest], eps);
      var res2 := DouglasPeucker(points[furthest..], eps);
      res := AppendAll(res, res1);
      assert res == res1;
      res := AppendAll(res, res2);
      assert res == res1 + res2;
      assert res == Simplify(points, eps);
    } else {
      res := res + [points[0]];
      assert res == [points[0]];
      res := res + [points[|points| - 1]];
      assert res == Simplify(points, eps);
    }
  }

  /** The script's copy loop: appends the elements of `src` to `res` one index at a time. */
  method AppendAll(res: seq<Point>, src: seq<Point>) returns (out: seq<Point>)
    ensures out == res + src
  {
    out := res;
    for i := 0 to |src|
      invariant out == res + src[..i]
    {
      out := out + [src[i]];
    }
  }
}
