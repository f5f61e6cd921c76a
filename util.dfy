/** Geometry helpers shared by the board, the hand tracker and the session
    (videoTest/util.py). Distances are never taken with a square root: every
    comparison `eud_dist(a, b) < r` of the source is written as an exact
    comparison of squared distances, and the lemma DistanceComparisons shows
    that the two agree for the true (non-negative) distance. */
module Util {

  datatype Option<T> = None | Some(value: T)

  /** A point in image coordinates (the source's two-element lists). */
  datatype Point = Point(x: real, y: real)

  function Abs(v: real): (r: real)
    ensures r >= 0.0 && (r == v || r == -v)
  {
    if v < 0.0 then -v else v
  }

  /** The square of eud_dist(a.x, a.y, b.x, b.y). */
  function SqDist(a: Point, b: Point): (d: real)
    ensures d >= 0.0
    ensures a == b ==> d == 0.0
  {
    var dx := a.x - b.x;
    var dy := a.y - b.y;
    SquareFacts(dx);
    SquareFacts(dy);
    dx * dx + dy * dy
  }

  /** `d` is the value eud_dist returns for `a` and `b`: the non-negative root
      of the squared distance. (Ghost: only used to state what the squared
      comparisons below mean.) */
  ghost predicate IsDistance(a: Point, b: Point, d: real)
  {
    d >= 0.0 && d * d == SqDist(a, b)
  }

  /** eud_dist(a, b) < r */
  predicate DistBelow(a: Point, b: Point, r: real)
  {
    0.0 < r && SqDist(a, b) < r * r
  }

  /** eud_dist(a, b) > r */
  predicate DistAbove(a: Point, b: Point, r: real)
  {
    r < 0.0 || r * r < SqDist(a, b)
  }

  /** eud_dist(a, b) <= r */
  predicate DistAtMost(a: Point, b: Point, r: real)
  {
    0.0 <= r && SqDist(a, b) <= r * r
  }

  /** eud_dist(a, b) >= r */
  predicate DistAtLeast(a: Point, b: Point, r: real)
  {
    r <= 0.0 || r * r <= SqDist(a, b)
  }

  lemma NegativeSquare(v: real)
    requires v < 0.0
    ensures v * v > 0.0
  {
    var w := -v;
    assert w * w > 0.0;
    assert v * v == w * w;
  }

  lemma SquareFacts(v: real)
    ensures v * v >= 0.0
    ensures v != 0.0 ==> v * v > 0.0
  {
    if v < 0.0 {
      NegativeSquare(v);
    } else if v > 0.0 {
      assert v * v > 0.0;
    }
  }

  lemma StrictlyBelowSquares(u: real, v: real)
    requires 0.0 <= u < v
    ensures u * u < v * v
  {
    var w := v - u;
    assert v * v == u * u + 2.0 * u * w + w * w;
    assert u * w >= 0.0;
    assert w * w > 0.0;
  }

  lemma SquareMonotone(u: real, v: real)
    requires 0.0 <= u && 0.0 <= v
    ensures u < v <==> u * u < v * v
    ensures u <= v <==> u * u <= v * v
  {
    if u < v {
      StrictlyBelowSquares(u, v);
    } else if v < u {
      StrictlyBelowSquares(v, u);
    }
  }

  /** The four squared comparisons agree with comparing the true distance
      `d` against the bound `r`, for every bound. */
  lemma DistanceComparisons(a: Point, b: Point, d: real, r: real)
    requires IsDistance(a, b, d)
    ensures DistBelow(a, b, r) <==> d < r
    ensures DistAbove(a, b, r) <==> d > r
    ensures DistAtMost(a, b, r) <==> d <= r
    ensures DistAtLeast(a, b, r) <==> d >= r
  {
    if r >= 0.0 {
      SquareMonotone(d, r);
    }
  }

  /** The distance is symmetric, and so is every comparison built on it. */
  lemma DistanceSymmetric(a: Point, b: Point, d: real, r: real)
    requires IsDistance(a, b, d)
    ensures IsDistance(b, a, d)
    ensures DistBelow(a, b, r) == DistBelow(b, a, r)
    ensures DistAtMost(a, b, r) == DistAtMost(b, a, r)
  {
    assert SqDist(a, b) == SqDist(b, a);
  }

  /** find_midpoint: the coordinate-wise average. It is the point halfway
      along the segment: equally far from both ends, at a quarter of the
      squared length, and the same whichever end is named first. */
  function FindMidpoint(a: Point, b: Point): (m: Point)
    ensures SqDist(a, m) == SqDist(b, m)
    ensures 4.0 * SqDist(a, m) == SqDist(a, b)
    ensures m.x - a.x == b.x - m.x && m.y - a.y == b.y - m.y
  {
    var m := Point((a.x + b.x) / 2.0, (a.y + b.y) / 2.0);
    var hx := (b.x - a.x) / 2.0;
    var hy := (b.y - a.y) / 2.0;
    assert a.x - b.x == -2.0 * hx && a.y - b.y == -2.0 * hy;
    assert (a.x - b.x) * (a.x - b.x) == 4.0 * (hx * hx);
    assert (a.y - b.y) * (a.y - b.y) == 4.0 * (hy * hy);
    assert SqDist(a, m) == hx * hx + hy * hy;
    m
  }

  lemma MidpointSymmetric(a: Point, b: Point)
    ensures FindMidpoint(a, b) == FindMidpoint(b, a)
  {
  }

  /** finger_to_finger_dist looks up landmark f * 4: the tip of finger f,
      with the thumb numbered 1 and the index finger 2. */
  function FingerTip(f: nat): (i: nat)
    ensures i % 4 == 0 && i / 4 == f
  {
    f * 4
  }

  /** The squared value of finger_to_finger_dist(hl, f1, f2). */
  function FingerToFingerSqDist(hl: seq<Point>, f1: nat, f2: nat): (d: real)
    requires FingerTip(f1) < |hl| && FingerTip(f2) < |hl|
    ensures d >= 0.0
    ensures f1 == f2 ==> d == 0.0
  {
    SqDist(hl[FingerTip(f1)], hl[FingerTip(f2)])
  }

  /** is_finger_near_finger: lb < finger_to_finger_dist(hl, f1, f2) < ub. */
  predicate IsFingerNearFinger(hl: seq<Point>, f1: nat, f2: nat, lb: real, ub: real)
    requires FingerTip(f1) < |hl| && FingerTip(f2) < |hl|
  {
    DistAbove(hl[FingerTip(f1)], hl[FingerTip(f2)], lb)
    && DistBelow(hl[FingerTip(f1)], hl[FingerTip(f2)], ub)
  }

  /** is_thumb_near_finger: the thumb is finger 1. */
  predicate IsThumbNearFinger(hl: seq<Point>, finger: nat, lb: real, ub: real)
    requires 4 < |hl| && FingerTip(finger) < |hl|
  {
    IsFingerNearFinger(hl, 1, finger, lb, ub)
  }

  /** The near-finger test is the strict open interval lb < d < ub on the
      distance d between the two fingertips, and the thumb variant compares
      landmark 4 with the finger's tip. */
  lemma NearFingerIsOpenInterval(hl: seq<Point>, f1: nat, f2: nat, lb: real, ub: real, d: real)
    requires FingerTip(f1) < |hl| && FingerTip(f2) < |hl|
    requires IsDistance(hl[FingerTip(f1)], hl[FingerTip(f2)], d)
    ensures IsFingerNearFinger(hl, f1, f2, lb, ub) <==> lb < d < ub
    ensures lb == d || ub == d ==> !IsFingerNearFinger(hl, f1, f2, lb, ub)
    ensures f1 == 1 && 4 < |hl| ==> (IsThumbNearFinger(hl, f2, lb, ub) <==> lb < d < ub)
  {
    DistanceComparisons(hl[FingerTip(f1)], hl[FingerTip(f2)], d, lb);
    DistanceComparisons(hl[FingerTip(f1)], hl[FingerTip(f2)], d, ub);
  }

  /** One normalised landmark scaled to image coordinates. */
  function Scale(p: Point, dsize: (int, int)): Point
  {
    Point(p.x * dsize.0 as real, p.y * dsize.1 as real)
  }

  /** hlist_to_coords: every hand's landmarks, in order, scaled by the image
      size (x by dsize.0 and y by dsize.1). */
  method HlistToCoords(hlist: seq<seq<Point>>, dsize: (int, int)) returns (ret: seq<seq<Point>>)
    ensures |ret| == |hlist|
    ensures forall i :: 0 <= i < |hlist| ==> |ret[i]| == |hlist[i]|
    ensures forall i, k :: 0 <= i < |hlist| && 0 <= k < |hlist[i]| ==>
              ret[i][k] == Point(hlist[i][k].x * dsize.0 as real, hlist[i][k].y * dsize.1 as real)
  {
    ret := [];
    var h := 0;
    while h < |hlist|
      invariant 0 <= h <= |hlist|
      invariant |ret| == h
      invariant forall i :: 0 <= i < h ==> |ret[i]| == |hlist[i]|
      invariant forall i, k :: 0 <= i < h && 0 <= k < |hlist[i]| ==> ret[i][k] == Scale(hlist[i][k], dsize)
    {
      var temp1: seq<Point> := [];
      var v := 0;
      while v < |hlist[h]|
        invariant 0 <= v <= |hlist[h]|
        invariant |temp1| == v
        invariant forall k :: 0 <= k < v ==> temp1[k] == Scale(hlist[h][k], dsize)
      {
        var val := hlist[h][v];
        temp1 := temp1 + [Point(val.x * dsize.0 as real, val.y * dsize.1 as real)];
        v := v + 1;
      }
      ret := ret + [temp1];
      h := h + 1;
    }
  }
}
