/** The per-hand state machine of class hand in videoTest/grabDetection.py,
    as values. One HandState is the hand's fields; every method of the class
    is a function from the old state (and the frame's observations) to its
    result and the new state. find_loc writes handedness, percentage, slope
    and possibly best_hand whenever it matches, and the other methods call
    it again and again within one frame, so every function here threads the
    state returned by one find_loc into the next. The class
    GrabDetection.Hand updates the same fields in place and is proved
    against these functions. */
module HandModel {
  import opened Util

  /** best_hand is (re)assigned only above this handedness score. */
  const PercentageThreshold: real := 0.7
  /** A hand still counts as the same hand if its slope changed by less. */
  const RotationThreshold: real := 0.25
  /** print_toggle stays silent while grace_period_timer is at most this. */
  const GracePeriodThreshold: int := 1
  /** A grab state must have held this many frames before it is reported. */
  const StabilityThreshold: int := 5
  const SpazzingThreshold: int := 300
  const SpazzingRatio: real := 0.4
  const FocusedThreshold: int := 60
  /** Landmarks per detected hand; check_spazzing divides by this. */
  const LandmarkCount: nat := 21

  /** One detected hand in a frame: its landmarks in image coordinates,
      the handedness label and score, and the slope get_hand_slope would
      compute from it. */
  datatype Observation = Observation(landmarks: seq<Point>, handedness: string, score: real, slope: real)

  /** The fields of class hand that its methods read or write. */
  datatype HandState = HandState(
    lastLoc: Point,
    moving: bool,
    grabbing: bool,
    handedness: string,
    percentage: real,
    bestHand: Option<string>,
    slope: real,
    graceTimer: nat,
    stabilityTimer: nat,
    distanceLow: real,
    distanceHigh: real,
    grabLow: real,
    grabHigh: real,
    spazzing: bool,
    spazzingTimer: nat,
    focusedTimer: nat,
    hl: seq<Point>)

  /** A grab (release true) or a drop (release false) at a point, as
      print_toggle reports it. */
  datatype Toggle = Toggle(at: Point, release: bool)

  predicate WellFormed(obs: seq<Observation>)
  {
    forall i :: 0 <= i < |obs| ==> |obs[i].landmarks| == LandmarkCount
  }

  function Wrist(o: Observation): Point
    requires |o.landmarks| == LandmarkCount
  {
    o.landmarks[0]
  }

  /** hand(mhl_val, handedness, percentage, board) */
  function NewHand(o: Observation, side: int): (h: HandState)
    requires |o.landmarks| == LandmarkCount
    ensures h.lastLoc == Wrist(o) && h.hl == o.landmarks && h.slope == o.slope
    ensures h.handedness == o.handedness && h.percentage == o.score
    ensures h.distanceLow == side as real / 4.0 && h.distanceHigh == side as real / 2.0
    ensures h.grabLow == 0.0 && h.grabHigh == (side * 2) as real
    ensures !h.moving && !h.grabbing && !h.spazzing
    ensures h.graceTimer == 0 && h.stabilityTimer == 0 && h.spazzingTimer == 0 && h.focusedTimer == 0
    ensures h.bestHand.Some? <==> o.score >= PercentageThreshold
    ensures h.bestHand.Some? ==> h.bestHand.value == o.handedness
  {
    HandState(
      lastLoc := Wrist(o), moving := false, grabbing := false,
      handedness := o.handedness, percentage := o.score,
      bestHand := if o.score >= PercentageThreshold then Some(o.handedness) else None,
      slope := o.slope, graceTimer := 0, stabilityTimer := 0,
      distanceLow := side as real / 4.0, distanceHigh := side as real / 2.0,
      grabLow := 0.0, grabHigh := (side * 2) as real,
      spazzing := false, spazzingTimer := 0, focusedTimer := 0, hl := o.landmarks)
  }

  // ---------------------------------------------------------------------
  // Matching an observation to the hand
  // ---------------------------------------------------------------------

  /** is_still(loc): eud_dist(loc, last_loc) < distance_params[0]. */
  predicate IsStill(h: HandState, loc: Point)
  {
    DistBelow(loc, h.lastLoc, h.distanceLow)
  }

  /** is_moving(loc): distance_params[0] < eud_dist(loc, last_loc) < distance_params[1]. */
  predicate IsMoving(h: HandState, loc: Point)
  {
    DistAbove(loc, h.lastLoc, h.distanceLow) && DistBelow(loc, h.lastLoc, h.distanceHigh)
  }

  /** is_rotated(o): the slope changed by less than 0.25. */
  predicate IsRotated(h: HandState, o: Observation)
  {
    Abs(h.slope - o.slope) < RotationThreshold
  }

  /** The acceptance test of find_loc. */
  predicate Accepts(h: HandState, o: Observation)
    requires |o.landmarks| == LandmarkCount
  {
    (IsMoving(h, Wrist(o)) || IsStill(h, Wrist(o))) && IsRotated(h, o)
  }

  /** With the wrist at distance d from last_loc: still is d < low, moving
      is low < d < high, and a distance equal to low, or at least high
      (when low <= high), is neither, so the observation is rejected. */
  lemma StillMovingBands(h: HandState, loc: Point, d: real)
    requires IsDistance(loc, h.lastLoc, d)
    ensures IsStill(h, loc) <==> d < h.distanceLow
    ensures IsMoving(h, loc) <==> h.distanceLow < d < h.distanceHigh
    ensures d == h.distanceLow ==> !IsStill(h, loc) && !IsMoving(h, loc)
    ensures h.distanceLow <= h.distanceHigh <= d ==> !IsStill(h, loc) && !IsMoving(h, loc)
  {
    DistanceComparisons(loc, h.lastLoc, d, h.distanceLow);
    DistanceComparisons(loc, h.lastLoc, d, h.distanceHigh);
  }

  /** The first index at or after `from` whose observation the hand accepts. */
  function FirstMatch(h: HandState, obs: seq<Observation>, from: nat): (r: Option<nat>)
    requires WellFormed(obs)
    decreases |obs| - from
    ensures r.Some? ==> from <= r.value < |obs| && Accepts(h, obs[r.value])
  {
    if from >= |obs| then None
    else if Accepts(h, obs[from]) then Some(from)
    else FirstMatch(h, obs, from + 1)
  }

  /** FirstMatch skips only rejected observations. */
  lemma {:induction false} FirstMatchIsFirst(h: HandState, obs: seq<Observation>, from: nat)
    requires WellFormed(obs)
    decreases |obs| - from
    ensures var r := FirstMatch(h, obs, from);
      && (r.Some? ==> forall k :: from <= k < r.value ==> !Accepts(h, obs[k]))
      && (r.None? ==> forall k :: from <= k < |obs| ==> !Accepts(h, obs[k]))
  {
    if from < |obs| && !Accepts(h, obs[from]) {
      FirstMatchIsFirst(h, obs, from + 1);
    }
  }

  /** The field writes of find_loc on a match. */
  function Matched(h: HandState, o: Observation): HandState
  {
    h.(bestHand := if o.score > PercentageThreshold then Some(o.handedness) else h.bestHand,
       handedness := o.handedness, percentage := o.score, slope := o.slope)
  }

  /** find_loc(mh, mhl): the index of the first accepted observation (its
      wrist is the returned location) and the state after the field
      writes. With no match nothing changes. */
  function FindLoc(h: HandState, obs: seq<Observation>): (r: (Option<nat>, HandState))
    requires WellFormed(obs)
    ensures r.0.None? ==> r.1 == h
    ensures r.0.Some? ==> r.0.value < |obs| && Accepts(h, obs[r.0.value])
    ensures r.0.Some? ==> var o := obs[r.0.value];
              && r.1.handedness == o.handedness && r.1.percentage == o.score && r.1.slope == o.slope
              && r.1.bestHand == (if o.score > PercentageThreshold then Some(o.handedness) else h.bestHand)
              && r.1.(handedness := h.handedness, percentage := h.percentage, slope := h.slope,
                      bestHand := h.bestHand) == h
  {
    var m := FirstMatch(h, obs, 0);
    if m.None? then (None, h) else (m, Matched(h, obs[m.value]))
  }

  /** find_loc answers with the smallest accepted index, and with None
      only when it accepts no observation. */
  lemma FindLocIsFirst(h: HandState, obs: seq<Observation>)
    requires WellFormed(obs)
    ensures var r := FindLoc(h, obs).0;
      && (r.None? <==> forall k :: 0 <= k < |obs| ==> !Accepts(h, obs[k]))
      && (r.Some? ==> forall k :: 0 <= k < r.value ==> !Accepts(h, obs[k]))
  {
    FirstMatchIsFirst(h, obs, 0);
  }

  /** find_loc only writes handedness, percentage, slope and best_hand. */
  lemma FindLocKeeps(h: HandState, obs: seq<Observation>)
    requires WellFormed(obs)
    ensures var h' := FindLoc(h, obs).1;
      && h'.lastLoc == h.lastLoc && h'.moving == h.moving && h'.grabbing == h.grabbing
      && h'.graceTimer == h.graceTimer && h'.stabilityTimer == h.stabilityTimer
      && h'.distanceLow == h.distanceLow && h'.distanceHigh == h.distanceHigh
      && h'.grabLow == h.grabLow && h'.grabHigh == h.grabHigh
      && h'.spazzing == h.spazzing && h'.spazzingTimer == h.spazzingTimer
      && h'.focusedTimer == h.focusedTimer && h'.hl == h.hl
  {
  }

  /** update_loc(mh, mhl): last_loc becomes the matched wrist. */
  function UpdateLoc(h: HandState, obs: seq<Observation>): (r: (bool, HandState))
    requires WellFormed(obs)
    ensures r.0 <==> FindLoc(h, obs).0.Some?
    ensures r.0 ==> r.1 == FindLoc(h, obs).1.(lastLoc := Wrist(obs[FindLoc(h, obs).0.value]))
    ensures !r.0 ==> r.1 == h
  {
    var (m, h1) := FindLoc(h, obs);
    if m.None? then (false, h1) else (true, h1.(lastLoc := Wrist(obs[m.value])))
  }

  // ---------------------------------------------------------------------
  // Grab detection
  // ---------------------------------------------------------------------

  /** The active pinch test of is_grabbing: landmarks 4 (thumb tip) and 8
      (index tip) strictly between grabbing_params[0] and [1]. */
  predicate Pinching(h: HandState, lm: seq<Point>)
    requires |lm| == LandmarkCount
  {
    IsThumbNearFinger(lm, 2, h.grabLow, h.grabHigh)
  }

  /** is_grabbing(mh, mhl) */
  function IsGrabbing(h: HandState, obs: seq<Observation>): (r: (bool, HandState))
    requires WellFormed(obs)
    ensures h.moving ==> r == (h.grabbing, h)
    ensures !h.moving ==> r.1 == FindLoc(h, obs).1
    ensures !h.moving && FindLoc(h, obs).0.None? ==> !r.0
    ensures !h.moving && FindLoc(h, obs).0.Some? ==>
              r.0 == Pinching(h, obs[FindLoc(h, obs).0.value].landmarks)
  {
    if h.moving then (h.grabbing, h)
    else
      var (m, h1) := FindLoc(h, obs);
      if m.None? then (false, h1)
      else (Pinching(h1, obs[m.value].landmarks), h1)
  }

  /** On the matched observation the grab test is exactly
      0 < dist(landmark 4, landmark 8) < 2 * side for a hand made with that
      side length. */
  lemma GrabIsOpenPinchInterval(o: Observation, side: int, d: real)
    requires |o.landmarks| == LandmarkCount
    requires IsDistance(o.landmarks[4], o.landmarks[8], d)
    ensures Pinching(NewHand(o, side), o.landmarks) <==> 0.0 < d < (side * 2) as real
  {
    NearFingerIsOpenInterval(o.landmarks, 1, 2, 0.0, (side * 2) as real, d);
  }

  /** update_grabbing(mh, mhl) */
  function UpdateGrabbing(h: HandState, obs: seq<Observation>): (h': HandState)
    requires WellFormed(obs)
    ensures h'.grabbing == IsGrabbing(h, obs).0
    ensures h'.stabilityTimer == if h.grabbing != IsGrabbing(h, obs).0 then 0 else h.stabilityTimer
    ensures h'.(grabbing := h.grabbing, stabilityTimer := h.stabilityTimer) == IsGrabbing(h, obs).1
  {
    var (g, h1) := IsGrabbing(h, obs);
    h1.(stabilityTimer := if h1.grabbing != g then 0 else h1.stabilityTimer, grabbing := g)
  }

  /** print_toggle(mh, mhl, img) */
  function PrintToggle(h: HandState, obs: seq<Observation>): (r: (Option<Toggle>, HandState))
    requires WellFormed(obs)
    ensures h.graceTimer <= GracePeriodThreshold ==> r == (None, h)
    ensures r.1.hl == h.hl
  {
    if h.graceTimer <= GracePeriodThreshold then (None, h)
    else
      var (m, h1) := FindLoc(h, obs);
      if m.None? then (None, h1)
      else
        var lm := obs[m.value].landmarks;
        var mid := FindMidpoint(lm[4], lm[8]);
        var (g, h2) := IsGrabbing(h1, obs);
        if g && !h2.grabbing && h2.stabilityTimer >= StabilityThreshold && !h2.spazzing then
          (Some(Toggle(mid, true)), h2)
        else if h2.grabbing && !g && h2.stabilityTimer >= StabilityThreshold && !h2.spazzing then
          (Some(Toggle(mid, false)), h2)
        else
          (None, h2)
  }

  /** An event is reported only after the grace period, on a stable,
      focused hand whose fresh grab classification differs from the
      stored one: release is true on the rising edge and false on the
      falling edge, and the point is the midpoint of the thumb and index
      tips of the matched observation. At most one event per call. */
  lemma PrintToggleEdges(h: HandState, obs: seq<Observation>)
    requires WellFormed(obs)
    ensures var (t, h2) := PrintToggle(h, obs);
      t.Some? ==>
        && h.graceTimer > GracePeriodThreshold
        && FindLoc(h, obs).0.Some?
        && var i := FindLoc(h, obs).0.value;
           var g := IsGrabbing(FindLoc(h, obs).1, obs).0;
           && t.value.at == FindMidpoint(obs[i].landmarks[4], obs[i].landmarks[8])
           && t.value.release == g && g != h.grabbing
           && h.stabilityTimer >= StabilityThreshold && !h.spazzing
  {
    if h.graceTimer > GracePeriodThreshold {
      FindLocKeeps(h, obs);
      var h1 := FindLoc(h, obs).1;
      FindLocKeeps(h1, obs);
    }
  }

  /** Conversely, after the grace period an edge on a stable, focused hand
      is always reported. */
  lemma PrintToggleReportsEdges(h: HandState, obs: seq<Observation>)
    requires WellFormed(obs)
    requires h.graceTimer > GracePeriodThreshold && FindLoc(h, obs).0.Some?
    requires h.stabilityTimer >= StabilityThreshold && !h.spazzing
    requires IsGrabbing(FindLoc(h, obs).1, obs).0 != h.grabbing
    ensures PrintToggle(h, obs).0.Some?
  {
    FindLocKeeps(h, obs);
    FindLocKeeps(FindLoc(h, obs).1, obs);
  }

  /** update_everything(mh, mhl): the index matched by the first find_loc,
      and the state after setting moving, update_grabbing, update_loc and
      the two timer increments. */
  function UpdateEverything(h: HandState, obs: seq<Observation>): (r: (Option<nat>, HandState))
    requires WellFormed(obs)
    ensures r.0 == FindLoc(h, obs).0
    ensures r.0.None? ==> r.1 == h
    ensures r.1.hl == h.hl
  {
    var (m, h1) := FindLoc(h, obs);
    if m.None? then (None, h1)
    else
      var h2 := h1.(moving := IsMoving(h1, Wrist(obs[m.value])));
      var h3 := UpdateGrabbing(h2, obs);
      var h4 := UpdateLoc(h3, obs).1;
      (m, h4.(graceTimer := h4.graceTimer + 1, stabilityTimer := h4.stabilityTimer + 1))
  }

  /** The state update_everything hands to update_grabbing. */
  function MovedState(h: HandState, obs: seq<Observation>): HandState
    requires WellFormed(obs) && FindLoc(h, obs).0.Some?
  {
    FindLoc(h, obs).1.(moving := IsMoving(h, Wrist(obs[FindLoc(h, obs).0.value])))
  }

  /** On a match update_everything sets moving from the matched wrist,
      stores the new grab classification, resets stability on a change and
      then advances grace and stability by exactly one. */
  lemma UpdateEverythingCounters(h: HandState, obs: seq<Observation>)
    requires WellFormed(obs)
    requires FindLoc(h, obs).0.Some?
    ensures var i := FindLoc(h, obs).0.value;
      var g := IsGrabbing(MovedState(h, obs), obs).0;
      var h' := UpdateEverything(h, obs).1;
      && h'.moving == IsMoving(h, Wrist(obs[i]))
      && h'.grabbing == g
      && h'.graceTimer == h.graceTimer + 1
      && h'.stabilityTimer == (if g != h.grabbing then 0 else h.stabilityTimer) + 1
      && h'.hl == h.hl && h'.spazzing == h.spazzing
  {
    FindLocKeeps(h, obs);
    var h2 := MovedState(h, obs);
    FindLocKeeps(h2, obs);
    var h3 := UpdateGrabbing(h2, obs);
    FindLocKeeps(h3, obs);
  }

  /** The location update_everything stores is the wrist matched by
      update_loc's own find_loc, which runs after the first match and the
      one inside is_grabbing may have changed the slope: it always finds
      some observation, but not necessarily the one whose index is
      returned. */
  lemma UpdateEverythingLocation(h: HandState, obs: seq<Observation>)
    requires WellFormed(obs)
    requires FindLoc(h, obs).0.Some?
    ensures var h3 := UpdateGrabbing(MovedState(h, obs), obs);
      && FindLoc(h3, obs).0.Some?
      && UpdateEverything(h, obs).1.lastLoc == Wrist(obs[FindLoc(h3, obs).0.value])
  {
    var i := FindLoc(h, obs).0.value;
    FindLocKeeps(h, obs);
    var h2 := MovedState(h, obs);
    var h3 := UpdateGrabbing(h2, obs);
    FindLocIsFirst(h3, obs);
    if h2.moving {
      assert Accepts(h3, obs[i]);
    } else {
      FindLocKeeps(h2, obs);
      FindLocIsFirst(h2, obs);
      assert Accepts(h2, obs[i]);
      var j := FindLoc(h2, obs).0.value;
      assert Accepts(h3, obs[j]);
    }
  }

  // ---------------------------------------------------------------------
  // Spazzing and focus
  // ---------------------------------------------------------------------

  /** is_spazzing(loc, ind): landmark ind moved at least distance_params[1]
      from the stored landmarks. */
  predicate IsSpazzing(h: HandState, loc: Point, ind: nat)
    requires ind < |h.hl|
  {
    DistAtLeast(loc, h.hl[ind], h.distanceHigh)
  }

  /** Number of indices below n whose landmark is spazzing. */
  function SpazzCount(h: HandState, hl: seq<Point>, n: nat): (c: nat)
    requires n <= |h.hl| && n <= |hl|
    ensures c <= n
  {
    if n == 0 then 0
    else SpazzCount(h, hl, n - 1) + (if IsSpazzing(h, hl[n - 1], n - 1) then 1 else 0)
  }

  /** check_spazzing(hl): the fraction count / 21 exceeds 0.4. */
  predicate CheckSpazzing(h: HandState, hl: seq<Point>)
    requires |h.hl| <= |hl|
  {
    (SpazzCount(h, hl, |h.hl|) as real) / (LandmarkCount as real) > SpazzingRatio
  }

  /** count / 21 > 0.4 holds exactly from 9 spazzing landmarks on. */
  lemma CheckSpazzingCount(h: HandState, hl: seq<Point>)
    requires |h.hl| <= |hl|
    ensures CheckSpazzing(h, hl) <==> SpazzCount(h, hl, |h.hl|) >= 9
  {
    var c := SpazzCount(h, hl, |h.hl|);
    assert (c as real) / 21.0 > 0.4 <==> c as real > 8.4;
  }

  /** Every landmark spazzing gives the full count. */
  lemma {:induction false} SpazzCountAll(h: HandState, hl: seq<Point>, n: nat)
    requires n <= |h.hl| && n <= |hl|
    requires forall i :: 0 <= i < n ==> IsSpazzing(h, hl[i], i)
    ensures SpazzCount(h, hl, n) == n
  {
    if n > 0 {
      SpazzCountAll(h, hl, n - 1);
    }
  }

  /** update_spazz(res, img), on the state only. */
  function UpdateSpazz(h: HandState, res: bool): (h': HandState)
    ensures res ==> h'.spazzing && h'.spazzingTimer == h.spazzingTimer + 1 && h'.focusedTimer == 0
    ensures !res ==> h'.spazzingTimer == 0 && h'.focusedTimer == h.focusedTimer + 1
    ensures !res ==> (h'.spazzing <==> h.spazzing && h'.focusedTimer <= FocusedThreshold)
    ensures h'.(spazzing := h.spazzing, spazzingTimer := h.spazzingTimer, focusedTimer := h.focusedTimer) == h
  {
    var h1 := if res then h.(spazzingTimer := h.spazzingTimer + 1, focusedTimer := 0, spazzing := res)
              else h.(focusedTimer := h.focusedTimer + 1, spazzingTimer := 0);
    if h1.spazzingTimer > SpazzingThreshold then h1
    else if h1.focusedTimer > FocusedThreshold then h1.(spazzing := false)
    else h1
  }

  /** k calm frames in a row. */
  function Calm(h: HandState, k: nat): HandState
  {
    if k == 0 then h else UpdateSpazz(Calm(h, k - 1), false)
  }

  /** Hysteresis: once spazzing is set, the next 60 calm frames keep it set
      and the 61st clears it. */
  lemma {:induction false} CalmFramesKeepSpazzing(h: HandState, k: nat)
    ensures var s := UpdateSpazz(h, true);
      && (k <= FocusedThreshold ==> Calm(s, k).spazzing && Calm(s, k).focusedTimer == k)
      && (k == FocusedThreshold + 1 ==> !Calm(s, k).spazzing)
  {
    if k > 0 {
      CalmFramesKeepSpazzing(h, k - 1);
    }
  }

  /** update_interface(mh, mhl, img, cap), on the state only: with a
      matched observation, hl becomes its landmarks and update_spazz runs
      on check_spazzing against the previous landmarks. */
  function UpdateInterface(h: HandState, obs: seq<Observation>): (r: HandState)
    requires WellFormed(obs) && |h.hl| <= LandmarkCount
    ensures FindLoc(h, obs).0.None? ==> r == h
    ensures FindLoc(h, obs).0.Some? ==> r.hl == obs[FindLoc(h, obs).0.value].landmarks
    ensures |r.hl| <= LandmarkCount
    ensures |h.hl| == LandmarkCount ==> |r.hl| == LandmarkCount
  {
    var (m, h1) := FindLoc(h, obs);
    if m.None? then h1
    else
      var hl := obs[m.value].landmarks;
      var res := CheckSpazzing(h1, hl);
      UpdateSpazz(h1.(hl := hl), res)
  }

  /** The spazzing update of update_interface compares with the landmarks
      stored before the frame. */
  lemma UpdateInterfaceSpazz(h: HandState, obs: seq<Observation>)
    requires WellFormed(obs) && |h.hl| <= LandmarkCount
    requires FindLoc(h, obs).0.Some?
    ensures var lm := obs[FindLoc(h, obs).0.value].landmarks;
      UpdateInterface(h, obs) == UpdateSpazz(FindLoc(h, obs).1.(hl := lm), CheckSpazzing(h, lm))
  {
    FindLocKeeps(h, obs);
    var lm := obs[FindLoc(h, obs).0.value].landmarks;
    assert SpazzCount(FindLoc(h, obs).1, lm, |h.hl|) == SpazzCount(h, lm, |h.hl|) by {
      SpazzCountSameLandmarks(FindLoc(h, obs).1, h, lm, |h.hl|);
    }
  }

  lemma {:induction false} SpazzCountSameLandmarks(h1: HandState, h2: HandState, hl: seq<Point>, n: nat)
    requires h1.hl == h2.hl && h1.distanceHigh == h2.distanceHigh
    requires n <= |h1.hl| && n <= |hl|
    ensures SpazzCount(h1, hl, n) == SpazzCount(h2, hl, n)
  {
    if n > 0 {
      SpazzCountSameLandmarks(h1, h2, hl, n - 1);
    }
  }
}
