/** Class interface of videoTest/interface.py: the tracked hands loh, the
    board and the action log, and the per-frame loop of process_image
    (lines 149-208) with the Hand and Board objects updated in place. Each
    method is proved against the value model in Tracking. */
module Interface {
  import opened Util
  import opened Occupancy
  import opened HandModel
  import opened GrabDetection
  import opened Boards
  import opened Tracking

  /** The states of a list of hands. */
  function Views(hs: seq<Hand>): (r: seq<HandState>)
    reads hs
    ensures |r| == |hs|
  {
    seq(|hs|, k requires 0 <= k < |hs| reads hs => hs[k].View())
  }

  /** No hand object occurs twice. */
  predicate Distinct(hs: seq<Hand>)
  {
    forall i, j :: 0 <= i < j < |hs| ==> hs[i] != hs[j]
  }

  class Session {
    var board: Board
    /** The tracked hands, in tracking order. */
    var loh: seq<Hand>
    /** [x, y, release] for every event sent to the board. */
    var log: seq<LogEntry>

    function Hands(): seq<HandState>
      reads this, loh
    {
      Views(loh)
    }

    function State(): FrameState
      reads this, loh, board
    {
      FrameState(Views(loh), board.View(), log)
    }

    ghost predicate Valid()
      reads this, loh, board
    {
      board.Valid() && HandsValid()
    }

    /** The part of Valid() about the hands alone. */
    ghost predicate HandsValid()
      reads this, loh
    {
      Distinct(loh) && AllTracked(Views(loh))
    }

    /** A session on a board, tracking no hand and with an empty log. */
    constructor (b: Board)
      requires b.Valid()
      ensures Valid() && board == b && loh == [] && log == []
    {
      board := b;
      loh := [];
      log := [];
    }

    /** overlap(hand1, hand2) */
    method Overlap(hand1: Hand, hand2: Hand) returns (r: bool)
      requires |hand1.hl| <= |hand2.hl|
      ensures r == Tracking.Overlap(hand1.View(), hand2.View())
    {
      var count := 0;
      for i := 0 to |hand1.hl|
        invariant count == OverlapCount(hand1.hl, hand2.hl, hand1.distanceLow, i)
      {
        var lm1 := hand1.hl[i];
        var lm2 := hand2.hl[i];
        if DistAtMost(lm1, lm2, hand1.distanceLow) {
          count := count + 1;
        }
      }
      r := count > OverlappingLandmarks;
    }

    /** One iteration of the loop over loh for tempHand: print_toggle,
        the board call and log row for its event, update_interface and
        update_everything. ok is false when the board call raised. */
    method RunHand(tempHand: Hand, obs: seq<Observation>) returns (ok: bool, rem: Option<nat>)
      requires board.Valid() && Tracked(tempHand.View()) && WellFormed(obs)
      modifies this, tempHand, board
      ensures board == old(board) && loh == old(loh) && board.Valid()
      ensures var t := Turn(old(tempHand.View()), obs, old(board.View()), old(log));
        && ok == t.ok && rem == t.rem && tempHand.View() == t.hand
        && board.View() == t.board && log == t.log
    {
      var toggle := tempHand.PrintToggle(obs);
      var sent := Send(toggle);
      if !sent {
        return false, None;
      }
      tempHand.UpdateInterface(obs);
      rem := tempHand.UpdateEverything(obs);
      ok := true;
    }

    /** The board call for print_toggle's event t and the log row for it:
        remove_single for a release, add_single otherwise. sent is false
        when the board call raised. */
    method Send(t: Option<Toggle>) returns (sent: bool)
      requires board.Valid()
      modifies this, board
      ensures board == old(board) && loh == old(loh) && board.Valid()
      ensures Dispatch(old(board.View()), old(log), t) == Dispatched(sent, board.View(), log)
    {
      if t.None? {
        return true;
      }
      var e := Entry(t.value);
      var mapped;
      if e.release {
        var status := board.RemoveSingle(e.x, e.y);
        mapped := status != Unmapped;
      } else {
        mapped := board.AddSingle(e.x, e.y, false);
      }
      if !mapped {
        return false;
      }
      log := log + [e];
      return true;
    }

    /** RunHand on loh[ind]; the other hands are untouched. */
    method StepHand(ind: nat, obs: seq<Observation>) returns (ok: bool, rem: Option<nat>)
      requires Valid() && ind < |loh| && WellFormed(obs)
      modifies this, board, loh[ind]
      ensures Valid() && board == old(board) && loh == old(loh)
      ensures var t := Turn(old(Hands())[ind], obs, old(board.View()), old(log));
        && ok == t.ok && rem == t.rem && Hands() == old(Hands())[ind := t.hand]
        && board.View() == t.board && log == t.log
    {
      ghost var hs := Hands();
      var tempHand := loh[ind];
      assert tempHand.View() == hs[ind] && Tracked(hs[ind]);
      ok, rem := RunHand(tempHand, obs);
      forall k | 0 <= k < |loh| && k != ind
        ensures loh[k].View() == hs[k]
      {
        assert loh[k] != tempHand;
      }
      assert Hands() == hs[ind := tempHand.View()];
    }

    /** Dropping loh[ind] keeps the hands distinct and drops its state. */
    lemma DropHand(hs: seq<Hand>, ind: nat)
      requires ind < |hs| && Distinct(hs)
      ensures Distinct(Without(hs, ind)) && Views(Without(hs, ind)) == Without(Views(hs), ind)
    {
    }

    /** The while loop over loh: a hand that matched keeps its place and
        its observation is popped from obs; a hand that did not is popped
        from loh. Returns the observations nobody claimed. */
    method TrackHands(obs: seq<Observation>) returns (ok: bool, left: seq<Observation>)
      requires Valid() && WellFormed(obs)
      modifies this, board, loh
      ensures Valid() && board == old(board)
      ensures forall h :: h in loh ==> h in old(loh)
      ensures var p := Advance(old(Hands()), obs, Indices(|obs|), old(board.View()), old(log));
        && ok == p.ok && Hands() == p.hands && left == p.obs
        && board.View() == p.board && log == p.log
      ensures var p := Advance(old(Hands()), obs, Indices(|obs|), old(board.View()), old(log));
        ok ==> && |loh| == |p.kept| == |p.claimed|
               && forall k :: 0 <= k < |loh| ==> p.kept[k] < |old(loh)| && loh[k] == old(loh)[p.kept[k]]
    {
      ghost var pos: seq<nat> := Indices(|obs|);
      ghost var orig: seq<nat> := Indices(|loh|);
      ResumeStart(Hands(), obs, pos, board.View(), log);
      ghost var target := Resume(Hands(), 0, obs, pos, board.View(), log);
      ghost var targetKept := ResumeKept(Hands(), 0, orig, obs, pos, board.View(), log);
      left := obs;
      var ind := 0;
      while ind < |loh|
        invariant 0 <= ind <= |loh|
        invariant Valid() && board == old(board)
        invariant forall h :: h in loh ==> h in old(loh)
        invariant WellFormed(left) && |pos| == |left|
        invariant |orig| == |loh| && forall k :: 0 <= k < |loh| ==> orig[k] < |old(loh)| && loh[k] == old(loh)[orig[k]]
        invariant Resume(Hands(), ind, left, pos, board.View(), log) == target
        invariant ResumeKept(Hands(), ind, orig, left, pos, board.View(), log) == targetKept
        decreases |loh| - ind
      {
        assert loh[ind] in loh;
        var ok';
        ok', left, pos, orig, ind := TrackOne(ind, left, pos, orig, old(loh));
        if !ok' {
          return false, left;
        }
      }
      ResumeEnd(Hands(), left, pos, board.View(), log);
      ResumeKeptEnd(Hands(), orig, left, pos, board.View(), log);
      ResumeKeptStart(old(Hands()), obs, Indices(|obs|), old(board.View()), old(log));
      AdvanceCounts(old(Hands()), obs, Indices(|obs|), old(board.View()), old(log));
      return true, left;
    }

    /** One iteration of the while loop over loh, on loh[ind]: returns the
        index, observations and positions of the next iteration. */
    method TrackOne(ind: nat, left: seq<Observation>, ghost pos: seq<nat>, ghost orig: seq<nat>, ghost loh0: seq<Hand>)
      returns (ok: bool, left': seq<Observation>, ghost pos': seq<nat>, ghost orig': seq<nat>, ind': nat)
      requires Valid() && ind < |loh| && WellFormed(left) && |pos| == |left|
      requires |orig| == |loh| && forall k :: 0 <= k < |loh| ==> orig[k] < |loh0| && loh[k] == loh0[orig[k]]
      modifies this, board, loh[ind]
      ensures Valid() && board == old(board)
      ensures forall h :: h in loh ==> h in old(loh)
      ensures WellFormed(left') && |pos'| == |left'|
      ensures ind' <= |loh| && (ok ==> |loh| - ind' < old(|loh|) - ind)
      ensures ok ==>
        Resume(Hands(), ind', left', pos', board.View(), log)
          == Resume(old(Hands()), ind, left, pos, old(board.View()), old(log))
      ensures !ok ==>
        Resume(old(Hands()), ind, left, pos, old(board.View()), old(log))
          == Outcome(false, Hands(), left', board.View(), log)
      ensures |orig'| == |loh| && forall k :: 0 <= k < |loh| ==> orig'[k] < |loh0| && loh[k] == loh0[orig'[k]]
      ensures ok ==>
        ResumeKept(Hands(), ind', orig', left', pos', board.View(), log)
          == ResumeKept(old(Hands()), ind, orig, left, pos, old(board.View()), old(log))
    {
      ghost var hs := Hands();
      ghost var g := board.View();
      ghost var log0 := log;
      var rem;
      ok, rem := StepHand(ind, left);
      left', pos', orig', ind' := left, pos, orig, ind;
      if !ok {
        ResumeCrash(hs, ind, left, pos, g, log0);
        return;
      }
      if rem.Some? {
        ResumeKeep(hs, ind, left, pos, g, log0);
        ResumeKeptKeep(hs, ind, orig, left, pos, g, log0);
        left' := Without(left, rem.value);
        pos' := Without(pos, rem.value);
        ind' := ind + 1;
      } else {
        ResumeDrop(hs, ind, left, pos, g, log0);
        ResumeKeptDrop(hs, ind, orig, left, pos, g, log0);
        DropHand(loh, ind);
        WithoutMapped(loh, orig, loh0, ind);
        loh := Without(loh, ind);
        orig' := Without(orig, ind);
      }
    }

    /** New hands for the unclaimed observations, appended in order. */
    method SpawnHands(left: seq<Observation>)
      requires Valid() && WellFormed(left)
      modifies this
      ensures Valid() && board == old(board) && log == old(log)
      ensures forall h :: h in loh ==> h in old(loh) || fresh(h)
      ensures Hands() == old(Hands()) + Spawn(left, board.side)
      ensures |loh| == |old(loh)| + |left| && loh[..|old(loh)|] == old(loh)
      ensures forall k :: |old(loh)| <= k < |loh| ==> fresh(loh[k])
    {
      for index := 0 to |left|
        invariant Valid() && board == old(board) && log == old(log)
        invariant forall h :: h in loh ==> h in old(loh) || fresh(h)
        invariant |loh| == |old(loh)| + index && loh[..|old(loh)|] == old(loh)
        invariant forall k :: |old(loh)| <= k < |loh| ==> fresh(loh[k])
        invariant Hands() == old(Hands()) + Spawn(left, board.side)[..index]
      {
        var tempHand := new Hand(left[index], board.side);
        ghost var hs := Hands();
        loh := loh + [tempHand];
        assert Hands() == hs + [tempHand.View()];
        assert Spawn(left, board.side)[..index + 1] == Spawn(left, board.side)[..index] + [NewHand(left[index], board.side)];
      }
    }

    /** The pair loop: for i < j, overlapping hands both get
        update_spazz(True). */
    method MarkHands()
      requires HandsValid()
      modifies set h | h in loh
      ensures HandsValid()
      ensures Hands() == MarkOverlaps(old(Hands()))
    {
      ghost var target := MarkOverlaps(Hands());
      var i: nat := 0;
      while i < |loh|
        invariant i <= |loh|
        invariant HandsValid()
        invariant MarkFrom(Hands(), i) == target
        decreases |loh| - i
      {
        ghost var prev := Hands();
        MarkFromStep(prev, i);
        MarkRowLoop(i);
        i := i + 1;
      }
      MarkFromEnd(Hands());
    }

    /** The inner loop for row i. */
    method MarkRowLoop(i: nat)
      requires HandsValid() && i < |loh|
      modifies set h | h in loh
      ensures HandsValid()
      ensures Hands() == MarkRow(old(Hands()), i, i + 1)
    {
      ghost var row := MarkRow(Hands(), i, i + 1);
      var j: nat := i + 1;
      while j < |loh|
        invariant i < j <= |loh| && loh == old(loh)
        invariant HandsValid()
        invariant MarkRow(Hands(), i, j) == row
        decreases |loh| - j
      {
        ghost var prev := Hands();
        MarkPairStep(i, j);
        MarkRowStep(prev, i, j);
        j := j + 1;
      }
      MarkRowEnd(Hands(), i);
    }

    /** One pair of the loop. */
    method MarkPairStep(i: nat, j: nat)
      requires HandsValid() && i < j < |loh|
      modifies set h | h in loh
      ensures HandsValid()
      ensures Hands() == MarkPair(old(Hands()), i, j)
    {
      ghost var marked := MarkPair(Hands(), i, j);
      assert Tracked(Hands()[i]) && Tracked(Hands()[j]);
      var ov := Overlap(loh[i], loh[j]);
      if ov {
        ghost var hs := Hands();
        loh[i].UpdateSpazz(true);
        assert Hands() == hs[i := UpdateSpazz(hs[i], true)] by {
          forall k | 0 <= k < |loh| && k != i
            ensures loh[k].View() == hs[k]
          {
            assert loh[k] != loh[i];
          }
        }
        ghost var hs' := Hands();
        loh[j].UpdateSpazz(true);
        assert Hands() == hs'[j := UpdateSpazz(hs'[j], true)] by {
          forall k | 0 <= k < |loh| && k != j
            ensures loh[k].View() == hs'[k]
          {
            assert loh[k] != loh[j];
          }
        }
      }
      assert Hands() == marked;
    }

    /** Lines 149-208 of process_image for one frame: cmh is None when no
        hand was detected. ok is false when a board call raised. */
    method ProcessFrame(cmh: Option<seq<Observation>>) returns (ok: bool)
      requires Valid() && (cmh.Some? ==> WellFormed(cmh.value))
      modifies this, board, loh
      ensures Valid() && board == old(board)
      ensures (State(), ok) == Frame(old(State()), cmh)
      ensures ok && cmh.Some? ==> var p := FramePass(old(State()), cmh.value);
        && |p.kept| <= |loh|
        && (forall k :: 0 <= k < |p.kept| ==> p.kept[k] < |old(loh)| && loh[k] == old(loh)[p.kept[k]])
        && (forall k :: |p.kept| <= k < |loh| ==> fresh(loh[k]))
    {
      if cmh.None? {
        loh := [];
        return true;
      }
      var left;
      ok, left := TrackHands(cmh.value);
      if !ok {
        return;
      }
      SpawnHands(left);
      assert forall h :: h in loh ==> h in old(loh) || fresh(h);
      MarkHands();
    }
  }
}
