/** Class hand of videoTest/grabDetection.py with its fields updated in
    place. View() is the hand's state as a HandModel.HandState, and every
    method's result and new state are the HandModel function of the old
    state, so the properties proved there carry over. */
module GrabDetection {
  import opened Util
  import opened HandModel

  /** find_loc answers with its first accepted index. */
  lemma FirstMatchIs(h: HandState, obs: seq<Observation>, i: nat)
    requires WellFormed(obs) && i < |obs| && Accepts(h, obs[i])
    requires forall k :: 0 <= k < i ==> !Accepts(h, obs[k])
    ensures FirstMatch(h, obs, 0) == Some(i)
  {
    FirstMatchIsFirst(h, obs, 0);
  }

  class Hand {
    var lastLoc: Point
    var moving: bool
    var grabbing: bool
    var handedness: string
    var percentage: real
    var bestHand: Option<string>
    var slope: real
    var graceTimer: nat
    var stabilityTimer: nat
    /** distance_params */
    var distanceLow: real
    var distanceHigh: real
    /** grabbing_params */
    var grabLow: real
    var grabHigh: real
    var spazzing: bool
    var spazzingTimer: nat
    var focusedTimer: nat
    /** The landmarks stored by the last update_interface. */
    var hl: seq<Point>

    function View(): HandState
      reads this
    {
      HandState(lastLoc, moving, grabbing, handedness, percentage, bestHand, slope,
                graceTimer, stabilityTimer, distanceLow, distanceHigh, grabLow, grabHigh,
                spazzing, spazzingTimer, focusedTimer, hl)
    }

    /** hand(mhl_val, handedness, percentage, curr_board) for the
        observation o on a board of side length side. */
    constructor (o: Observation, side: int)
      requires |o.landmarks| == LandmarkCount
      ensures View() == NewHand(o, side)
    {
      lastLoc := o.landmarks[0];
      moving := false;
      grabbing := false;
      handedness := o.handedness;
      percentage := o.score;
      graceTimer := 0;
      slope := o.slope;
      stabilityTimer := 0;
      if o.score >= PercentageThreshold {
        bestHand := Some(o.handedness);
      } else {
        bestHand := None;
      }
      distanceLow := side as real / 4.0;
      distanceHigh := side as real / 2.0;
      grabLow := 0.0;
      grabHigh := (side * 2) as real;
      spazzing := false;
      spazzingTimer := 0;
      focusedTimer := 0;
      hl := o.landmarks;
    }

    /** find_loc(mh, mhl): scans the observations in order and, on the
        first accepted one, records its handedness, score and slope. */
    method FindLoc(obs: seq<Observation>) returns (loc: Option<Point>, ind: Option<nat>)
      requires WellFormed(obs)
      modifies this
      ensures (ind, View()) == HandModel.FindLoc(old(View()), obs)
      ensures loc.Some? <==> ind.Some?
      ensures ind.Some? ==> loc.value == Wrist(obs[ind.value])
    {
      for i := 0 to |obs|
        invariant View() == old(View())
        invariant forall k :: 0 <= k < i ==> !Accepts(View(), obs[k])
      {
        var o := obs[i];
        var l := o.landmarks[0];
        if (IsMoving(View(), l) || IsStill(View(), l)) && IsRotated(View(), o) {
          FirstMatchIs(View(), obs, i);
          if o.score > PercentageThreshold {
            bestHand := Some(o.handedness);
          }
          handedness := o.handedness;
          percentage := o.score;
          slope := o.slope;
          return Some(l), Some(i);
        }
      }
      FirstMatchIsFirst(View(), obs, 0);
      return None, None;
    }

    /** update_loc(mh, mhl) */
    method UpdateLoc(obs: seq<Observation>) returns (found: bool)
      requires WellFormed(obs)
      modifies this
      ensures (found, View()) == HandModel.UpdateLoc(old(View()), obs)
    {
      var loc, ind := FindLoc(obs);
      if loc.Some? {
        lastLoc := loc.value;
        return true;
      }
      return false;
    }

    /** is_grabbing(mh, mhl), the active pinch path. */
    method IsGrabbing(obs: seq<Observation>) returns (grab: bool)
      requires WellFormed(obs)
      modifies this
      ensures (grab, View()) == HandModel.IsGrabbing(old(View()), obs)
    {
      if moving {
        return grabbing;
      }
      var loc, ind := FindLoc(obs);
      if loc.None? {
        return false;
      }
      var handLandmarks := obs[ind.value].landmarks;
      grab := IsThumbNearFinger(handLandmarks, 2, grabLow, grabHigh);
    }

    /** update_grabbing(mh, mhl) */
    method UpdateGrabbing(obs: seq<Observation>)
      requires WellFormed(obs)
      modifies this
      ensures View() == HandModel.UpdateGrabbing(old(View()), obs)
    {
      var newGrab := IsGrabbing(obs);
      if grabbing != newGrab {
        stabilityTimer := 0;
      }
      grabbing := newGrab;
    }

    /** print_toggle(mh, mhl, img) */
    method PrintToggle(obs: seq<Observation>) returns (t: Option<Toggle>)
      requires WellFormed(obs)
      modifies this
      ensures (t, View()) == HandModel.PrintToggle(old(View()), obs)
    {
      if graceTimer <= GracePeriodThreshold {
        return None;
      }
      var loc, ind := FindLoc(obs);
      if loc.Some? {
        var thumb := obs[ind.value].landmarks[4];
        var index := obs[ind.value].landmarks[8];
        var mid := FindMidpoint(thumb, index);
        var grab := IsGrabbing(obs);
        if grab && !grabbing && stabilityTimer >= StabilityThreshold && !spazzing {
          return Some(Toggle(mid, true));
        }
        if grabbing && !grab && stabilityTimer >= StabilityThreshold && !spazzing {
          return Some(Toggle(mid, false));
        }
      }
      return None;
    }

    /** update_everything(mh, mhl) */
    method UpdateEverything(obs: seq<Observation>) returns (ind: Option<nat>)
      requires WellFormed(obs)
      modifies this
      ensures (ind, View()) == HandModel.UpdateEverything(old(View()), obs)
    {
      var loc;
      loc, ind := FindLoc(obs);
      if loc.None? {
        return None;
      }
      moving := IsMoving(View(), loc.value);
      UpdateGrabbing(obs);
      var _ := UpdateLoc(obs);
      graceTimer := graceTimer + 1;
      stabilityTimer := stabilityTimer + 1;
    }

    /** check_spazzing(hl): counts the stored landmarks that moved at least
        distance_params[1]. */
    method CheckSpazzing(newHl: seq<Point>) returns (res: bool)
      requires |hl| <= |newHl|
      ensures res == HandModel.CheckSpazzing(View(), newHl)
    {
      var count := 0;
      for i := 0 to |hl|
        invariant count == SpazzCount(View(), newHl, i)
      {
        if IsSpazzing(View(), newHl[i], i) {
          count := count + 1;
        }
      }
      res := (count as real) / (LandmarkCount as real) > SpazzingRatio;
    }

    /** update_spazz(res, img), without the drawing. */
    method UpdateSpazz(res: bool)
      modifies this
      ensures View() == HandModel.UpdateSpazz(old(View()), res)
    {
      if res {
        spazzingTimer := spazzingTimer + 1;
        focusedTimer := 0;
        spazzing := res;
      } else {
        focusedTimer := focusedTimer + 1;
        spazzingTimer := 0;
      }
      if spazzingTimer > SpazzingThreshold {
      } else if focusedTimer > FocusedThreshold {
        spazzing := false;
      }
    }

    /** update_interface(mh, mhl, img, cap), without the drawing. */
    method UpdateInterface(obs: seq<Observation>)
      requires WellFormed(obs) && |hl| <= LandmarkCount
      modifies this
      ensures View() == HandModel.UpdateInterface(old(View()), obs)
    {
      var loc, ind := FindLoc(obs);
      if loc.None? {
        return;
      }
      var newHl := obs[ind.value].landmarks;
      var res := CheckSpazzing(newHl);
      hl := newHl;
      UpdateSpazz(res);
    }
  }
}
