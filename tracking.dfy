/** The per-frame hand bookkeeping of process_image in
    videoTest/interface.py (lines 149-208) and interface.overlap, as values:
    tracked hands are HandModel states, the board is an Occupancy grid and
    the action log a sequence of LogEntry. The class Interface.Session does
    the same with Hand and Board objects and is proved against these
    functions. */
module Tracking {
  import opened Util
  import opened Occupancy
  import opened HandModel

  /** overlapping_lm = 21 // 5 */
  const OverlappingLandmarks: int := LandmarkCount / 5

  /** Every tracked hand stores a full set of landmarks. */
  predicate Tracked(h: HandState)
  {
    |h.hl| == LandmarkCount
  }

  predicate AllTracked(hs: seq<HandState>)
  {
    forall k :: 0 <= k < |hs| ==> Tracked(hs[k])
  }

  // ---------------------------------------------------------------------
  // overlap(hand1, hand2)
  // ---------------------------------------------------------------------

  /** Landmark i of the two landmark lists is close: low, distance_params[0]
      of the first hand, is at least their distance. */
  predicate Close(a: seq<Point>, b: seq<Point>, low: real, i: nat)
    requires i < |a| && i < |b|
  {
    DistAtMost(a[i], b[i], low)
  }

  /** The counter of overlap after visiting indices below n. */
  function OverlapCount(a: seq<Point>, b: seq<Point>, low: real, n: nat): (c: nat)
    requires n <= |a| && n <= |b|
    ensures c <= n
  {
    if n == 0 then 0
    else OverlapCount(a, b, low, n - 1) + (if Close(a, b, low, n - 1) then 1 else 0)
  }

  /** overlap(hand1, hand2): more than overlapping_lm landmarks are close. */
  predicate Overlap(h1: HandState, h2: HandState)
    requires |h1.hl| <= |h2.hl|
  {
    OverlapCount(h1.hl, h2.hl, h1.distanceLow, |h1.hl|) > OverlappingLandmarks
  }

  /** The close landmark indices below n. */
  ghost function CloseSet(a: seq<Point>, b: seq<Point>, low: real, n: nat): set<nat>
    requires n <= |a| && n <= |b|
  {
    set i: nat | i < n && Close(a, b, low, i)
  }

  /** The counter counts exactly the close indices. */
  lemma {:induction false} OverlapCountIsCloseSet(a: seq<Point>, b: seq<Point>, low: real, n: nat)
    requires n <= |a| && n <= |b|
    ensures OverlapCount(a, b, low, n) == |CloseSet(a, b, low, n)|
  {
    if n > 0 {
      OverlapCountIsCloseSet(a, b, low, n - 1);
      if Close(a, b, low, n - 1) {
        assert CloseSet(a, b, low, n) == CloseSet(a, b, low, n - 1) + {n - 1};
      } else {
        assert CloseSet(a, b, low, n) == CloseSet(a, b, low, n - 1);
      }
    }
  }

  /** Two tracked hands overlap exactly when at least five of their 21
      landmark pairs are close. */
  lemma OverlapMeansFiveClose(h1: HandState, h2: HandState)
    requires Tracked(h1) && Tracked(h2)
    ensures Overlap(h1, h2) <==> |CloseSet(h1.hl, h2.hl, h1.distanceLow, LandmarkCount)| >= 5
  {
    OverlapCountIsCloseSet(h1.hl, h2.hl, h1.distanceLow, LandmarkCount);
  }

  /** Closeness is the non-strict test d <= distance_params[0]: a landmark
      pair exactly that far apart counts. */
  lemma CloseIsNonStrict(a: seq<Point>, b: seq<Point>, low: real, i: nat, d: real)
    requires i < |a| && i < |b|
    requires IsDistance(a[i], b[i], d)
    ensures Close(a, b, low, i) <==> d <= low
  {
    DistanceComparisons(a[i], b[i], d, low);
  }

  /** Hands made for the same board share distance_params, and then the
      overlap test does not depend on the order of the two hands. */
  lemma {:induction false} OverlapCountSymmetric(a: seq<Point>, b: seq<Point>, low: real, n: nat)
    requires n <= |a| && n <= |b|
    ensures OverlapCount(a, b, low, n) == OverlapCount(b, a, low, n)
  {
    if n > 0 {
      OverlapCountSymmetric(a, b, low, n - 1);
      assert SqDist(a[n - 1], b[n - 1]) == SqDist(b[n - 1], a[n - 1]);
    }
  }

  lemma OverlapSymmetric(h1: HandState, h2: HandState)
    requires Tracked(h1) && Tracked(h2) && h1.distanceLow == h2.distanceLow
    ensures Overlap(h1, h2) == Overlap(h2, h1)
  {
    OverlapCountSymmetric(h1.hl, h2.hl, h1.distanceLow, LandmarkCount);
  }

  // ---------------------------------------------------------------------
  // Overlap marking: for i < j, overlapping hands both get update_spazz(True)
  // ---------------------------------------------------------------------

  /** b differs from a at most in the three fields update_spazz writes. */
  predicate SpazzOnly(a: HandState, b: HandState)
  {
    b.(spazzing := a.spazzing, spazzingTimer := a.spazzingTimer, focusedTimer := a.focusedTimer) == a
  }

  /** The hands keep everything but their spazzing fields. */
  predicate SameHands(hs: seq<HandState>, rs: seq<HandState>)
  {
    |rs| == |hs| && forall k :: 0 <= k < |hs| ==> SpazzOnly(hs[k], rs[k])
  }

  /** One pair (i, j) of the marking loop. */
  function MarkPair(hs: seq<HandState>, i: nat, j: nat): (rs: seq<HandState>)
    requires i < j < |hs| && AllTracked(hs)
    ensures |rs| == |hs| && AllTracked(rs)
  {
    if Overlap(hs[i], hs[j]) then
      hs[i := UpdateSpazz(hs[i], true)][j := UpdateSpazz(hs[j], true)]
    else hs
  }

  /** The inner loop: pairs (i, j), (i, j + 1), ... in order. */
  function MarkRow(hs: seq<HandState>, i: nat, j: nat): (rs: seq<HandState>)
    requires i < j <= |hs| && AllTracked(hs)
    ensures |rs| == |hs| && AllTracked(rs)
    decreases |hs| - j
  {
    if j == |hs| then hs
    else MarkRow(MarkPair(hs, i, j), i, j + 1)
  }

  /** The outer loop from row i on. */
  function MarkFrom(hs: seq<HandState>, i: nat): (rs: seq<HandState>)
    requires i <= |hs| && AllTracked(hs)
    ensures |rs| == |hs| && AllTracked(rs)
    decreases |hs| - i
  {
    if i + 1 >= |hs| then hs
    else MarkFrom(MarkRow(hs, i, i + 1), i + 1)
  }

  /** The whole pair loop of process_image. */
  function MarkOverlaps(hs: seq<HandState>): (rs: seq<HandState>)
    requires AllTracked(hs)
  {
    MarkFrom(hs, 0)
  }

  lemma MarkPairSame(hs: seq<HandState>, i: nat, j: nat)
    requires i < j < |hs| && AllTracked(hs)
    ensures SameHands(hs, MarkPair(hs, i, j))
  {
  }

  /** Marking a row changes nothing but spazzing fields. */
  lemma {:induction false} MarkRowSame(hs: seq<HandState>, i: nat, j: nat)
    requires i < j <= |hs| && AllTracked(hs)
    ensures SameHands(hs, MarkRow(hs, i, j))
    decreases |hs| - j
  {
    if j < |hs| {
      var hs' := MarkPair(hs, i, j);
      MarkPairSame(hs, i, j);
      MarkRowSame(hs', i, j + 1);
    }
  }

  /** Marking from row i changes nothing but spazzing fields. */
  lemma {:induction false} MarkFromSame(hs: seq<HandState>, i: nat)
    requires i <= |hs| && AllTracked(hs)
    ensures SameHands(hs, MarkFrom(hs, i))
    decreases |hs| - i
  {
    if i + 1 < |hs| {
      MarkRowSame(hs, i, i + 1);
      MarkFromSame(MarkRow(hs, i, i + 1), i + 1);
    }
  }

  /** Marking never changes a hand's landmarks or distance bounds, so the
      overlap test gives the same answer before and after. */
  lemma SameHandsOverlap(hs: seq<HandState>, rs: seq<HandState>, i: nat, j: nat)
    requires AllTracked(hs) && SameHands(hs, rs) && i < |hs| && j < |hs|
    ensures Overlap(rs[i], rs[j]) == Overlap(hs[i], hs[j])
  {
    assert SpazzOnly(hs[i], rs[i]) && SpazzOnly(hs[j], rs[j]);
  }

  /** A hand already spazzing stays so through the rest of the row. */
  lemma {:induction false} MarkRowKeepsSpazzing(hs: seq<HandState>, i: nat, j: nat, k: nat)
    requires i < j <= |hs| && AllTracked(hs) && k < |hs| && hs[k].spazzing
    ensures MarkRow(hs, i, j)[k].spazzing
    decreases |hs| - j
  {
    if j < |hs| {
      var hs' := MarkPair(hs, i, j);
      assert hs'[k].spazzing;
      MarkRowKeepsSpazzing(hs', i, j + 1, k);
    }
  }

  lemma {:induction false} MarkFromKeepsSpazzing(hs: seq<HandState>, i: nat, k: nat)
    requires i <= |hs| && AllTracked(hs) && k < |hs| && hs[k].spazzing
    ensures MarkFrom(hs, i)[k].spazzing
    decreases |hs| - i
  {
    if i + 1 < |hs| {
      MarkRowKeepsSpazzing(hs, i, i + 1, k);
      MarkFromKeepsSpazzing(MarkRow(hs, i, i + 1), i + 1, k);
    }
  }

  lemma MarkRowStep(hs: seq<HandState>, i: nat, j: nat)
    requires i < j < |hs| && AllTracked(hs)
    ensures MarkRow(hs, i, j) == MarkRow(MarkPair(hs, i, j), i, j + 1)
  {
  }

  lemma MarkRowEnd(hs: seq<HandState>, i: nat)
    requires i < |hs| && AllTracked(hs)
    ensures MarkRow(hs, i, |hs|) == hs
  {
  }

  lemma MarkFromStep(hs: seq<HandState>, i: nat)
    requires i < |hs| && AllTracked(hs)
    ensures MarkFrom(hs, i) == MarkFrom(MarkRow(hs, i, i + 1), i + 1)
  {
  }

  lemma MarkFromEnd(hs: seq<HandState>)
    requires AllTracked(hs)
    ensures MarkFrom(hs, |hs|) == hs
  {
  }

  /** Every overlapping pair (i, j') with j <= j' is marked by the row. */
  lemma {:induction false} MarkRowMarks(hs: seq<HandState>, i: nat, j: nat, j': nat)
    requires i < j <= j' < |hs| && AllTracked(hs) && Overlap(hs[i], hs[j'])
    ensures MarkRow(hs, i, j)[i].spazzing && MarkRow(hs, i, j)[j'].spazzing
    decreases |hs| - j
  {
    var hs' := MarkPair(hs, i, j);
    if j == j' {
      assert hs'[i].spazzing && hs'[j'].spazzing;
      MarkRowKeepsSpazzing(hs', i, j + 1, i);
      MarkRowKeepsSpazzing(hs', i, j + 1, j');
    } else {
      MarkPairSame(hs, i, j);
      SameHandsOverlap(hs, hs', i, j');
      MarkRowMarks(hs', i, j + 1, j');
    }
  }

  /** Every overlapping pair whose first index is at least i is marked. */
  lemma {:induction false} MarkFromMarks(hs: seq<HandState>, i: nat, a: nat, b: nat)
    requires i <= a < b < |hs| && AllTracked(hs) && Overlap(hs[a], hs[b])
    ensures MarkFrom(hs, i)[a].spazzing && MarkFrom(hs, i)[b].spazzing
    decreases |hs| - i
  {
    var hs' := MarkRow(hs, i, i + 1);
    if a == i {
      MarkRowMarks(hs, i, i + 1, b);
      MarkFromKeepsSpazzing(hs', i + 1, a);
      MarkFromKeepsSpazzing(hs', i + 1, b);
    } else {
      MarkRowSame(hs, i, i + 1);
      SameHandsOverlap(hs, hs', a, b);
      MarkFromMarks(hs', i + 1, a, b);
    }
  }

  /** After the pair loop both hands of every overlapping pair are
      spazzing, and every hand still has its landmarks, location, grab
      state and timers other than the spazzing ones. */
  lemma MarkOverlapsSpazzing(hs: seq<HandState>, a: nat, b: nat)
    requires AllTracked(hs) && a < b < |hs| && Overlap(hs[a], hs[b])
    ensures MarkOverlaps(hs)[a].spazzing && MarkOverlaps(hs)[b].spazzing
    ensures Overlap(MarkOverlaps(hs)[a], MarkOverlaps(hs)[b])
  {
    MarkFromMarks(hs, 0, a, b);
    MarkFromSame(hs, 0);
    SameHandsOverlap(hs, MarkOverlaps(hs), a, b);
  }

  /** k overlaps no other hand. */
  predicate Isolated(hs: seq<HandState>, k: nat)
    requires AllTracked(hs) && k < |hs|
  {
    && (forall a :: 0 <= a < k ==> !Overlap(hs[a], hs[k]))
    && (forall b :: k < b < |hs| ==> !Overlap(hs[k], hs[b]))
  }

  lemma {:induction false} MarkRowIsolated(hs: seq<HandState>, i: nat, j: nat, k: nat)
    requires i < j <= |hs| && AllTracked(hs) && k < |hs| && Isolated(hs, k)
    ensures MarkRow(hs, i, j)[k] == hs[k] && Isolated(MarkRow(hs, i, j), k)
    decreases |hs| - j
  {
    if j < |hs| {
      var hs' := MarkPair(hs, i, j);
      assert hs'[k] == hs[k];
      MarkPairSame(hs, i, j);
      IsolatedSameHands(hs, hs', k);
      MarkRowIsolated(hs', i, j + 1, k);
    }
  }

  lemma IsolatedSameHands(hs: seq<HandState>, rs: seq<HandState>, k: nat)
    requires AllTracked(hs) && SameHands(hs, rs) && k < |hs| && Isolated(hs, k)
    ensures AllTracked(rs) && Isolated(rs, k)
  {
    forall a | 0 <= a < k
      ensures !Overlap(rs[a], rs[k])
    {
      SameHandsOverlap(hs, rs, a, k);
    }
    forall b | k < b < |hs|
      ensures !Overlap(rs[k], rs[b])
    {
      SameHandsOverlap(hs, rs, k, b);
    }
  }

  lemma {:induction false} MarkFromIsolated(hs: seq<HandState>, i: nat, k: nat)
    requires i <= |hs| && AllTracked(hs) && k < |hs| && Isolated(hs, k)
    ensures MarkFrom(hs, i)[k] == hs[k]
    decreases |hs| - i
  {
    if i + 1 < |hs| {
      var hs' := MarkRow(hs, i, i + 1);
      MarkRowIsolated(hs, i, i + 1, k);
      MarkFromIsolated(hs', i + 1, k);
      assert MarkFrom(hs, i) == MarkFrom(hs', i + 1);
    }
  }

  /** A hand that overlaps no other hand leaves the pair loop unchanged. */
  lemma MarkOverlapsIsolated(hs: seq<HandState>, k: nat)
    requires AllTracked(hs) && k < |hs| && Isolated(hs, k)
    ensures MarkOverlaps(hs)[k] == hs[k]
  {
    MarkFromIsolated(hs, 0, k);
  }

  // ---------------------------------------------------------------------
  // One tracked hand: print_toggle, board dispatch, update_interface,
  // update_everything
  // ---------------------------------------------------------------------

  /** The log row [x, y, release] of a reported event. */
  function Entry(t: Toggle): LogEntry
  {
    LogEntry(t.at.x, t.at.y, t.release)
  }

  /** What the board call of one event did: ok is false when it raised
      because get_center found no cell for the event point. */
  datatype Dispatched = Dispatched(ok: bool, board: Grid, log: seq<LogEntry>)

  /** Lines 160-170: a release calls remove_single, a drop add_single,
      and either is appended to the log. */
  function Dispatch(g: Grid, log: seq<LogEntry>, t: Option<Toggle>): (d: Dispatched)
    requires Consistent(g)
    ensures Consistent(d.board) && d.board.rows == g.rows && d.board.cols == g.cols && d.board.side == g.side
  {
    if t.None? then Dispatched(true, g, log)
    else
      match Apply(g, Entry(t.value))
      case None => Dispatched(false, g, log)
      case Some(g1) => Dispatched(true, g1, log + [Entry(t.value)])
  }

  /** With no event the board and the log are untouched; a release is
      remove_single and a drop is add_single at the event point; either is
      appended to the log; a point outside the lattice makes the board call
      raise, and then nothing was changed or logged. */
  lemma DispatchRoutes(g: Grid, log: seq<LogEntry>, t: Option<Toggle>)
    requires Consistent(g)
    ensures var d := Dispatch(g, log, t);
      && (t.None? ==> d == Dispatched(true, g, log))
      && (t.Some? ==> var e := Entry(t.value);
            && (d.ok <==> CellAt(g.side, g.rows, g.cols, e.x, e.y).Some?)
            && (!d.ok ==> d.board == g && d.log == log)
            && (d.ok ==> d.log == log + [e])
            && (d.ok && e.release ==> d.board == AfterRemove(g, e.x, e.y).1)
            && (d.ok && !e.release ==> Some(d.board) == AfterAdd(g, e.x, e.y, false)))
  {
  }

  /** The log only grows, and its new rows replay the board's change. */
  predicate Logged(g: Grid, log: seq<LogEntry>, g': Grid, log': seq<LogEntry>)
    requires Consistent(g)
  {
    |log| <= |log'| && log'[..|log|] == log && Replay(g, log'[|log|..]) == (g', true)
  }

  lemma DispatchLogged(g: Grid, log: seq<LogEntry>, t: Option<Toggle>)
    requires Consistent(g)
    ensures var d := Dispatch(g, log, t); Logged(g, log, d.board, d.log)
  {
    var d := Dispatch(g, log, t);
    if t.Some? && Apply(g, Entry(t.value)).Some? {
      var e := Entry(t.value);
      assert d == Dispatched(true, Apply(g, e).value, log + [e]);
      SliceAppend(log, [e]);
      assert [e][1..] == [];
    } else {
      assert d.log == log;
      SliceAppend(log, []);
    }
  }

  lemma SliceAppend<T>(a: seq<T>, b: seq<T>)
    ensures (a + b)[..|a|] == a && (a + b)[|a|..] == b
  {
  }

  /** What one pass of the while loop over loh did: the hand as it was
      left, the board and log, and the index update_everything returned.
      ok is false when the board call raised. */
  datatype Turned = Turned(ok: bool, hand: HandState, board: Grid, log: seq<LogEntry>, rem: Option<nat>)

  /** One iteration of the loop for the hand h: print_toggle, the board
      call, update_interface and update_everything. */
  function Turn(h: HandState, obs: seq<Observation>, g: Grid, log: seq<LogEntry>): (r: Turned)
    requires WellFormed(obs) && Tracked(h) && Consistent(g)
    ensures Tracked(r.hand) && Consistent(r.board)
    ensures r.board.rows == g.rows && r.board.cols == g.cols && r.board.side == g.side
    ensures r.rem.Some? ==> r.rem.value < |obs|
  {
    var (t, h1) := PrintToggle(h, obs);
    var d := Dispatch(g, log, t);
    if !d.ok then Turned(false, h1, g, log, None)
    else
      var h2 := UpdateInterface(h1, obs);
      var (rem, h3) := UpdateEverything(h2, obs);
      Turned(true, h3, d.board, d.log, rem)
  }

  lemma TurnLogged(h: HandState, obs: seq<Observation>, g: Grid, log: seq<LogEntry>)
    requires WellFormed(obs) && Tracked(h) && Consistent(g)
    ensures var r := Turn(h, obs, g, log); Logged(g, log, r.board, r.log)
  {
    DispatchLogged(g, log, PrintToggle(h, obs).0);
  }

  lemma LoggedTrans(g: Grid, log: seq<LogEntry>, g1: Grid, log1: seq<LogEntry>, g2: Grid, log2: seq<LogEntry>)
    requires Consistent(g) && Consistent(g1)
    requires Logged(g, log, g1, log1) && Logged(g1, log1, g2, log2)
    ensures Logged(g, log, g2, log2)
  {
    PrefixTrans(log, log1, log2);
    ReplayAppend(g, log1[|log|..], log2[|log1|..]);
  }

  /** A prefix of a prefix is a prefix, and the suffixes add up. */
  lemma PrefixTrans<T>(a: seq<T>, b: seq<T>, c: seq<T>)
    requires |a| <= |b| <= |c| && b[..|a|] == a && c[..|b|] == b
    ensures c[..|a|] == a && c[|a|..] == b[|a|..] + c[|b|..]
  {
    assert c[..|a|] == c[..|b|][..|a|];
    assert c[|a|..] == c[|a|..|b|] + c[|b|..];
  }

  // ---------------------------------------------------------------------
  // The while loop over loh
  // ---------------------------------------------------------------------

  /** s without its element i (list.pop(i)). */
  function Without<T>(s: seq<T>, i: nat): (r: seq<T>)
    requires i < |s|
    ensures |r| == |s| - 1
    ensures forall k :: 0 <= k < |r| ==> r[k] == if k < i then s[k] else s[k + 1]
  {
    s[..i] + s[i + 1..]
  }

  lemma WithoutMultiset<T>(s: seq<T>, i: nat)
    requires i < |s|
    ensures multiset(Without(s, i)) + multiset{s[i]} == multiset(s)
  {
    assert s == s[..i] + [s[i]] + s[i + 1..];
  }

  predicate Increasing(s: seq<nat>)
  {
    forall a, b :: 0 <= a < b < |s| ==> s[a] < s[b]
  }

  lemma WithoutIncreasing(s: seq<nat>, i: nat)
    requires i < |s| && Increasing(s)
    ensures Increasing(Without(s, i))
  {
    var r := Without(s, i);
    forall a, b | 0 <= a < b < |r|
      ensures r[a] < r[b]
    {
      var a' := if a < i then a else a + 1;
      var b' := if b < i then b else b + 1;
      assert r[a] == s[a'] && r[b] == s[b'];
    }
  }

  lemma WithoutWellFormed(obs: seq<Observation>, i: nat)
    requires i < |obs| && WellFormed(obs)
    ensures WellFormed(Without(obs, i))
  {
  }

  /** obs[k] is the frame's observation at position pos[k]. */
  predicate Aligned(obs: seq<Observation>, pos: seq<nat>, frame: seq<Observation>)
  {
    |pos| == |obs| && forall k :: 0 <= k < |pos| ==> pos[k] < |frame| && obs[k] == frame[pos[k]]
  }

  lemma WithoutAligned(obs: seq<Observation>, pos: seq<nat>, frame: seq<Observation>, i: nat)
    requires i < |obs| && Aligned(obs, pos, frame)
    ensures Aligned(Without(obs, i), Without(pos, i), frame)
  {
  }

  /** The kept positions after one more hand in front. */
  lemma KeptShift(ks: seq<nat>, n: nat, front: bool)
    requires Increasing(ks) && forall k :: 0 <= k < |ks| ==> ks[k] < n
    ensures var r := if front then [0] + Shift(ks) else Shift(ks);
      Increasing(r) && forall k :: 0 <= k < |r| ==> r[k] < n + 1
  {
  }

  /** Every index moved up by one. */
  function Shift(ks: seq<nat>): (r: seq<nat>)
    ensures |r| == |ks| && forall k :: 0 <= k < |ks| ==> r[k] == ks[k] + 1
  {
    seq(|ks|, k requires 0 <= k < |ks| => ks[k] + 1)
  }

  /** The outcome of the loop over loh. hands is the new loh; kept are the
      positions in the old loh of the hands still tracked; claimed are the
      frame positions of the observations they matched, in loh order;
      obs are the observations left unmatched and pos their positions in
      the frame. On a raise, hands is loh as the exception left it. */
  datatype Pass = Pass(ok: bool, hands: seq<HandState>, kept: seq<nat>, claimed: seq<nat>,
                       obs: seq<Observation>, pos: seq<nat>, board: Grid, log: seq<LogEntry>)

  /** The loop over the hands todo, with obs the observations not yet
      claimed and pos their positions in the frame. */
  function Advance(todo: seq<HandState>, obs: seq<Observation>, pos: seq<nat>, g: Grid, log: seq<LogEntry>): (r: Pass)
    requires WellFormed(obs) && AllTracked(todo) && Consistent(g) && |pos| == |obs|
    ensures WellFormed(r.obs) && AllTracked(r.hands) && Consistent(r.board) && |r.pos| == |r.obs|
    ensures r.board.rows == g.rows && r.board.cols == g.cols && r.board.side == g.side
    decreases |todo|
  {
    if |todo| == 0 then Pass(true, [], [], [], obs, pos, g, log)
    else
      var t := Turn(todo[0], obs, g, log);
      if !t.ok then Pass(false, [t.hand] + todo[1..], [], [], obs, pos, t.board, t.log)
      else if t.rem.None? then
        var r := Advance(todo[1..], obs, pos, t.board, t.log);
        r.(kept := Shift(r.kept))
      else
        var i := t.rem.value;
        WithoutWellFormed(obs, i);
        var r := Advance(todo[1..], Without(obs, i), Without(pos, i), t.board, t.log);
        r.(hands := [t.hand] + r.hands, kept := [0] + Shift(r.kept), claimed := [pos[i]] + r.claimed)
  }

  /** One unfolding of the loop: the first hand's turn, then the rest. */
  lemma AdvanceStep(todo: seq<HandState>, obs: seq<Observation>, pos: seq<nat>, g: Grid, log: seq<LogEntry>)
    requires WellFormed(obs) && AllTracked(todo) && Consistent(g) && |pos| == |obs| && |todo| > 0
    ensures var t := Turn(todo[0], obs, g, log);
      var r := Advance(todo, obs, pos, g, log);
      && (!t.ok ==> r == Pass(false, [t.hand] + todo[1..], [], [], obs, pos, t.board, t.log))
      && (t.ok && t.rem.None? ==>
            var r' := Advance(todo[1..], obs, pos, t.board, t.log);
            r == r'.(kept := Shift(r'.kept)))
      && (t.ok && t.rem.Some? ==>
            var i := t.rem.value;
            WellFormed(Without(obs, i)) &&
            var r' := Advance(todo[1..], Without(obs, i), Without(pos, i), t.board, t.log);
            r == r'.(hands := [t.hand] + r'.hands, kept := [0] + Shift(r'.kept), claimed := [pos[i]] + r'.claimed))
  {
    var t := Turn(todo[0], obs, g, log);
    if t.ok && t.rem.Some? {
      WithoutWellFormed(obs, t.rem.value);
    }
  }

  /** What the loop over loh has produced once the hands before ind are
      done: those hands, then the outcome of the loop on the rest. */
  datatype Outcome = Outcome(ok: bool, hands: seq<HandState>, obs: seq<Observation>, board: Grid, log: seq<LogEntry>)

  /** The hands from ind on are tracked. */
  lemma SuffixTracked(hs: seq<HandState>, ind: nat)
    requires ind <= |hs| && AllTracked(hs)
    ensures AllTracked(hs[ind..])
  {
    forall k | 0 <= k < |hs| - ind
      ensures Tracked(hs[ind..][k])
    {
      assert hs[ind..][k] == hs[ind + k];
    }
  }

  ghost function Resume(hs: seq<HandState>, ind: nat, obs: seq<Observation>, pos: seq<nat>, g: Grid, log: seq<LogEntry>): Outcome
    requires ind <= |hs| && WellFormed(obs) && AllTracked(hs) && Consistent(g) && |pos| == |obs|
  {
    SuffixTracked(hs, ind);
    var p := Advance(hs[ind..], obs, pos, g, log);
    Outcome(p.ok, hs[..ind] + p.hands, p.obs, p.board, p.log)
  }

  lemma ResumeStart(hs: seq<HandState>, obs: seq<Observation>, pos: seq<nat>, g: Grid, log: seq<LogEntry>)
    requires WellFormed(obs) && AllTracked(hs) && Consistent(g) && |pos| == |obs|
    ensures var p := Advance(hs, obs, pos, g, log);
      Resume(hs, 0, obs, pos, g, log) == Outcome(p.ok, p.hands, p.obs, p.board, p.log)
  {
    assert hs[0..] == hs;
  }

  lemma ResumeEnd(hs: seq<HandState>, obs: seq<Observation>, pos: seq<nat>, g: Grid, log: seq<LogEntry>)
    requires WellFormed(obs) && AllTracked(hs) && Consistent(g) && |pos| == |obs|
    ensures Resume(hs, |hs|, obs, pos, g, log) == Outcome(true, hs, obs, g, log)
  {
    assert hs[|hs|..] == [];
    assert hs[..|hs|] == hs;
  }

  /** The turn of hs[ind] raised: the loop stops there. */
  lemma ResumeCrash(hs: seq<HandState>, ind: nat, obs: seq<Observation>, pos: seq<nat>, g: Grid, log: seq<LogEntry>)
    requires ind < |hs| && WellFormed(obs) && AllTracked(hs) && Consistent(g) && |pos| == |obs|
    requires !Turn(hs[ind], obs, g, log).ok
    ensures var t := Turn(hs[ind], obs, g, log);
      Resume(hs, ind, obs, pos, g, log) == Outcome(false, hs[ind := t.hand], obs, t.board, t.log)
  {
    var t := Turn(hs[ind], obs, g, log);
    var r := Resume(hs, ind, obs, pos, g, log);
    AdvanceStep(hs[ind..], obs, pos, g, log);
    assert hs[ind..][0] == hs[ind] && hs[ind..][1..] == hs[ind + 1..];
    assert hs[..ind] + ([t.hand] + hs[ind + 1..]) == hs[ind := t.hand];
  }

  lemma SliceFront<T>(s: seq<T>, i: nat)
    requires i < |s|
    ensures s[i..][0] == s[i] && s[i..][1..] == s[i + 1..]
  {
  }

  lemma SliceUpdate<T>(s: seq<T>, i: nat, x: T, rest: seq<T>)
    requires i < |s|
    ensures s[i := x][i + 1..] == s[i + 1..]
    ensures s[i := x][..i + 1] + rest == s[..i] + ([x] + rest)
  {
    assert s[i := x][..i + 1] == s[..i] + [x];
  }

  lemma AllTrackedUpdate(hs: seq<HandState>, i: nat, h: HandState)
    requires i < |hs| && AllTracked(hs) && Tracked(h)
    ensures AllTracked(hs[i := h])
  {
  }

  /** hs[ind] matched observation i: it stays, and the observation and
      its position leave the pool. */
  lemma ResumeKeep(hs: seq<HandState>, ind: nat, obs: seq<Observation>, pos: seq<nat>, g: Grid, log: seq<LogEntry>)
    requires ind < |hs| && WellFormed(obs) && AllTracked(hs) && Consistent(g) && |pos| == |obs|
    requires var t := Turn(hs[ind], obs, g, log); t.ok && t.rem.Some?
    ensures var t := Turn(hs[ind], obs, g, log);
      var i := t.rem.value;
      && WellFormed(Without(obs, i)) && AllTracked(hs[ind := t.hand])
      && Resume(hs, ind, obs, pos, g, log)
         == Resume(hs[ind := t.hand], ind + 1, Without(obs, i), Without(pos, i), t.board, t.log)
  {
    var t := Turn(hs[ind], obs, g, log);
    var i := t.rem.value;
    WithoutWellFormed(obs, i);
    AllTrackedUpdate(hs, ind, t.hand);
    AdvanceStep(hs[ind..], obs, pos, g, log);
    SliceFront(hs, ind);
    var r' := Advance(hs[ind + 1..], Without(obs, i), Without(pos, i), t.board, t.log);
    SliceUpdate(hs, ind, t.hand, r'.hands);
  }

  /** hs[ind] matched nothing: it leaves loh. */
  lemma ResumeDrop(hs: seq<HandState>, ind: nat, obs: seq<Observation>, pos: seq<nat>, g: Grid, log: seq<LogEntry>)
    requires ind < |hs| && WellFormed(obs) && AllTracked(hs) && Consistent(g) && |pos| == |obs|
    requires var t := Turn(hs[ind], obs, g, log); t.ok && t.rem.None?
    ensures var t := Turn(hs[ind], obs, g, log);
      && AllTracked(Without(hs, ind))
      && Resume(hs, ind, obs, pos, g, log) == Resume(Without(hs, ind), ind, obs, pos, t.board, t.log)
  {
    var t := Turn(hs[ind], obs, g, log);
    var hs' := Without(hs, ind);
    AdvanceStep(hs[ind..], obs, pos, g, log);
    assert hs[ind..][0] == hs[ind] && hs[ind..][1..] == hs[ind + 1..];
    assert hs'[ind..] == hs[ind + 1..];
    assert hs'[..ind] == hs[..ind];
  }

  /** orig[j], or 0 past its end. */
  function At(orig: seq<nat>, j: nat): nat
  {
    if j < |orig| then orig[j] else 0
  }

  /** The entries of orig at ind + ks[k], in the order of ks. */
  function Pick(orig: seq<nat>, ind: nat, ks: seq<nat>): (r: seq<nat>)
    ensures |r| == |ks| && forall k :: 0 <= k < |ks| ==> r[k] == At(orig, ind + ks[k])
  {
    seq(|ks|, k requires 0 <= k < |ks| => At(orig, ind + ks[k]))
  }

  /** Once the hands before ind are done, the positions in the original
      loh of the hands the loop will have kept: orig[k] is the original
      position of hs[k]. */
  ghost function ResumeKept(hs: seq<HandState>, ind: nat, orig: seq<nat>, obs: seq<Observation>, pos: seq<nat>, g: Grid, log: seq<LogEntry>): seq<nat>
    requires ind <= |hs| && WellFormed(obs) && AllTracked(hs) && Consistent(g) && |pos| == |obs| && |orig| == |hs|
  {
    SuffixTracked(hs, ind);
    var p := Advance(hs[ind..], obs, pos, g, log);
    orig[..ind] + Pick(orig, ind, p.kept)
  }

  /** Keeping the hand at ind moves it into the done prefix. */
  lemma PickKeep(orig: seq<nat>, ind: nat, ks: seq<nat>)
    requires ind < |orig|
    ensures orig[..ind] + Pick(orig, ind, [0] + Shift(ks)) == orig[..ind + 1] + Pick(orig, ind + 1, ks)
  {
    assert Pick(orig, ind, [0] + Shift(ks)) == [orig[ind]] + Pick(orig, ind + 1, ks);
    assert orig[..ind + 1] == orig[..ind] + [orig[ind]];
  }

  /** Dropping the hand at ind drops its original position. */
  lemma PickDrop(orig: seq<nat>, ind: nat, ks: seq<nat>)
    requires ind < |orig|
    ensures orig[..ind] + Pick(orig, ind, Shift(ks)) == Without(orig, ind)[..ind] + Pick(Without(orig, ind), ind, ks)
  {
    assert Pick(orig, ind, Shift(ks)) == Pick(Without(orig, ind), ind, ks);
    assert Without(orig, ind)[..ind] == orig[..ind];
  }

  /** Before the first hand, with every hand at its own position, the
      kept positions are those of the whole loop. */
  lemma ResumeKeptStart(hs: seq<HandState>, obs: seq<Observation>, pos: seq<nat>, g: Grid, log: seq<LogEntry>)
    requires WellFormed(obs) && AllTracked(hs) && Consistent(g) && |pos| == |obs|
    requires Advance(hs, obs, pos, g, log).ok
    ensures ResumeKept(hs, 0, Indices(|hs|), obs, pos, g, log) == Advance(hs, obs, pos, g, log).kept
  {
    var p := Advance(hs, obs, pos, g, log);
    AdvanceOrder(hs, obs, pos, g, log);
    assert hs[0..] == hs;
  }

  /** After the last hand every remaining hand is kept. */
  lemma ResumeKeptEnd(hs: seq<HandState>, orig: seq<nat>, obs: seq<Observation>, pos: seq<nat>, g: Grid, log: seq<LogEntry>)
    requires WellFormed(obs) && AllTracked(hs) && Consistent(g) && |pos| == |obs| && |orig| == |hs|
    ensures ResumeKept(hs, |hs|, orig, obs, pos, g, log) == orig
  {
    assert hs[|hs|..] == [];
    assert orig[..|hs|] == orig;
  }

  /** A claiming hand is kept at its original position. */
  lemma ResumeKeptKeep(hs: seq<HandState>, ind: nat, orig: seq<nat>, obs: seq<Observation>, pos: seq<nat>, g: Grid, log: seq<LogEntry>)
    requires ind < |hs| && WellFormed(obs) && AllTracked(hs) && Consistent(g) && |pos| == |obs| && |orig| == |hs|
    requires var t := Turn(hs[ind], obs, g, log); t.ok && t.rem.Some?
    ensures var t := Turn(hs[ind], obs, g, log);
      var i := t.rem.value;
      && WellFormed(Without(obs, i)) && AllTracked(hs[ind := t.hand])
      && ResumeKept(hs, ind, orig, obs, pos, g, log)
         == ResumeKept(hs[ind := t.hand], ind + 1, orig, Without(obs, i), Without(pos, i), t.board, t.log)
  {
    var t := Turn(hs[ind], obs, g, log);
    var i := t.rem.value;
    WithoutWellFormed(obs, i);
    AllTrackedUpdate(hs, ind, t.hand);
    SuffixTracked(hs, ind);
    AdvanceStep(hs[ind..], obs, pos, g, log);
    SliceFront(hs, ind);
    assert hs[ind := t.hand][ind + 1..] == hs[ind + 1..];
    var r' := Advance(hs[ind + 1..], Without(obs, i), Without(pos, i), t.board, t.log);
    PickKeep(orig, ind, r'.kept);
  }

  /** A lost hand leaves loh and the original positions with it. */
  lemma ResumeKeptDrop(hs: seq<HandState>, ind: nat, orig: seq<nat>, obs: seq<Observation>, pos: seq<nat>, g: Grid, log: seq<LogEntry>)
    requires ind < |hs| && WellFormed(obs) && AllTracked(hs) && Consistent(g) && |pos| == |obs| && |orig| == |hs|
    requires var t := Turn(hs[ind], obs, g, log); t.ok && t.rem.None?
    ensures var t := Turn(hs[ind], obs, g, log);
      && AllTracked(Without(hs, ind))
      && ResumeKept(hs, ind, orig, obs, pos, g, log)
         == ResumeKept(Without(hs, ind), ind, Without(orig, ind), obs, pos, t.board, t.log)
  {
    var t := Turn(hs[ind], obs, g, log);
    var hs' := Without(hs, ind);
    SuffixTracked(hs, ind);
    AdvanceStep(hs[ind..], obs, pos, g, log);
    SliceFront(hs, ind);
    assert hs'[ind..] == hs[ind + 1..];
    var r' := Advance(hs[ind + 1..], obs, pos, t.board, t.log);
    PickDrop(orig, ind, r'.kept);
  }

  /** Popping position ind from a list and from its map into an
      original list keeps the map. */
  lemma WithoutMapped<T>(s: seq<T>, orig: seq<nat>, s0: seq<T>, ind: nat)
    requires ind < |s| && |orig| == |s|
    requires forall k :: 0 <= k < |s| ==> orig[k] < |s0| && s[k] == s0[orig[k]]
    ensures var s', orig' := Without(s, ind), Without(orig, ind);
      |orig'| == |s'| && forall k :: 0 <= k < |s'| ==> orig'[k] < |s0| && s'[k] == s0[orig'[k]]
  {
  }

  /** Each hand still tracked claimed one observation: the survivors and
      the unmatched observations add up to the frame's observations. */
  lemma {:induction false} AdvanceCounts(todo: seq<HandState>, obs: seq<Observation>, pos: seq<nat>, g: Grid, log: seq<LogEntry>)
    requires WellFormed(obs) && AllTracked(todo) && Consistent(g) && |pos| == |obs|
    ensures var r := Advance(todo, obs, pos, g, log);
      r.ok ==> |r.kept| == |r.hands| && |r.claimed| == |r.hands| && |r.hands| + |r.obs| == |obs|
    decreases |todo|
  {
    if |todo| > 0 {
      var t := Turn(todo[0], obs, g, log);
      if t.ok {
        if t.rem.None? {
          AdvanceCounts(todo[1..], obs, pos, t.board, t.log);
        } else {
          var i := t.rem.value;
          WithoutWellFormed(obs, i);
          AdvanceCounts(todo[1..], Without(obs, i), Without(pos, i), t.board, t.log);
        }
      }
    }
  }

  /** Every frame position is either claimed by exactly one surviving hand
      or left over, never both. */
  lemma {:induction false} AdvanceClaims(todo: seq<HandState>, obs: seq<Observation>, pos: seq<nat>, g: Grid, log: seq<LogEntry>)
    requires WellFormed(obs) && AllTracked(todo) && Consistent(g) && |pos| == |obs|
    ensures var r := Advance(todo, obs, pos, g, log);
      r.ok ==> multiset(r.claimed) + multiset(r.pos) == multiset(pos)
    decreases |todo|
  {
    if |todo| > 0 {
      var t := Turn(todo[0], obs, g, log);
      if t.ok {
        if t.rem.None? {
          AdvanceClaims(todo[1..], obs, pos, t.board, t.log);
        } else {
          var i := t.rem.value;
          WithoutWellFormed(obs, i);
          AdvanceClaims(todo[1..], Without(obs, i), Without(pos, i), t.board, t.log);
          WithoutMultiset(pos, i);
          var r := Advance(todo[1..], Without(obs, i), Without(pos, i), t.board, t.log);
          assert multiset([pos[i]] + r.claimed) == multiset{pos[i]} + multiset(r.claimed);
        }
      }
    }
  }

  /** Survivors keep their relative order, and the unmatched
      observations keep theirs. */
  lemma {:induction false} AdvanceOrder(todo: seq<HandState>, obs: seq<Observation>, pos: seq<nat>, g: Grid, log: seq<LogEntry>)
    requires WellFormed(obs) && AllTracked(todo) && Consistent(g) && |pos| == |obs|
    ensures var r := Advance(todo, obs, pos, g, log);
      && (Increasing(pos) ==> Increasing(r.pos))
      && (r.ok ==> Increasing(r.kept) && forall k :: 0 <= k < |r.kept| ==> r.kept[k] < |todo|)
    decreases |todo|
  {
    if |todo| > 0 {
      var t := Turn(todo[0], obs, g, log);
      if t.ok {
        if t.rem.None? {
          AdvanceOrder(todo[1..], obs, pos, t.board, t.log);
          var r := Advance(todo[1..], obs, pos, t.board, t.log);
          if r.ok {
            KeptShift(r.kept, |todo| - 1, false);
          }
        } else {
          var i := t.rem.value;
          WithoutWellFormed(obs, i);
          AdvanceOrder(todo[1..], Without(obs, i), Without(pos, i), t.board, t.log);
          var r := Advance(todo[1..], Without(obs, i), Without(pos, i), t.board, t.log);
          if Increasing(pos) {
            WithoutIncreasing(pos, i);
          }
          if r.ok {
            KeptShift(r.kept, |todo| - 1, true);
          }
        }
      }
    }
  }

  /** Each unmatched observation is the frame's observation at its
      recorded position. */
  lemma {:induction false} AdvanceLeftovers(todo: seq<HandState>, obs: seq<Observation>, pos: seq<nat>, g: Grid, log: seq<LogEntry>, frame: seq<Observation>)
    requires WellFormed(obs) && AllTracked(todo) && Consistent(g) && Aligned(obs, pos, frame)
    ensures var r := Advance(todo, obs, pos, g, log); Aligned(r.obs, r.pos, frame)
    decreases |todo|
  {
    if |todo| > 0 {
      var t := Turn(todo[0], obs, g, log);
      if t.ok {
        if t.rem.None? {
          AdvanceLeftovers(todo[1..], obs, pos, t.board, t.log, frame);
        } else {
          var i := t.rem.value;
          WithoutWellFormed(obs, i);
          WithoutAligned(obs, pos, frame, i);
          AdvanceLeftovers(todo[1..], Without(obs, i), Without(pos, i), t.board, t.log, frame);
        }
      }
    }
  }

  /** The loop only appends to the log, and the appended rows replay the
      board from where the loop started to where it ended, also when a
      board call raised. */
  lemma {:induction false} AdvanceLogged(todo: seq<HandState>, obs: seq<Observation>, pos: seq<nat>, g: Grid, log: seq<LogEntry>)
    requires WellFormed(obs) && AllTracked(todo) && Consistent(g) && |pos| == |obs|
    ensures var r := Advance(todo, obs, pos, g, log); Logged(g, log, r.board, r.log)
    decreases |todo|
  {
    if |todo| == 0 {
      assert log[|log|..] == [];
    } else {
      var t := Turn(todo[0], obs, g, log);
      TurnLogged(todo[0], obs, g, log);
      if t.ok {
        var r;
        if t.rem.None? {
          AdvanceLogged(todo[1..], obs, pos, t.board, t.log);
          r := Advance(todo[1..], obs, pos, t.board, t.log);
        } else {
          var i := t.rem.value;
          WithoutWellFormed(obs, i);
          AdvanceLogged(todo[1..], Without(obs, i), Without(pos, i), t.board, t.log);
          r := Advance(todo[1..], Without(obs, i), Without(pos, i), t.board, t.log);
        }
        LoggedTrans(g, log, t.board, t.log, r.board, r.log);
      }
    }
  }

  // ---------------------------------------------------------------------
  // One frame
  // ---------------------------------------------------------------------

  /** loh, the board and the log between two frames. */
  datatype FrameState = FrameState(hands: seq<HandState>, board: Grid, log: seq<LogEntry>)

  ghost predicate Good(s: FrameState)
  {
    AllTracked(s.hands) && Consistent(s.board)
  }

  /** 0, 1, ..., n - 1 */
  function Indices(n: nat): (r: seq<nat>)
    ensures |r| == n && forall k :: 0 <= k < n ==> r[k] == k
  {
    seq(n, k requires 0 <= k < n => k)
  }

  /** Every position below n occurs once in Indices(n), and nothing else. */
  lemma {:induction false} IndicesMultiset(n: nat)
    ensures forall x: nat :: multiset(Indices(n))[x] == if x < n then 1 else 0
  {
    if n > 0 {
      IndicesMultiset(n - 1);
      assert Indices(n) == Indices(n - 1) + [n - 1];
    } else {
      assert multiset(Indices(0)) == multiset{};
    }
  }

  /** New hands for the unmatched observations, in order. */
  function Spawn(obs: seq<Observation>, side: int): (hs: seq<HandState>)
    requires WellFormed(obs)
    ensures |hs| == |obs| && AllTracked(hs)
    ensures forall k :: 0 <= k < |obs| ==> hs[k] == NewHand(obs[k], side)
  {
    seq(|obs|, k requires 0 <= k < |obs| => NewHand(obs[k], side))
  }

  /** The loop over loh for a frame with observations obs. */
  function FramePass(s: FrameState, obs: seq<Observation>): (p: Pass)
    requires Good(s) && WellFormed(obs)
    ensures WellFormed(p.obs) && AllTracked(p.hands) && Consistent(p.board)
    ensures p.board.rows == s.board.rows && p.board.cols == s.board.cols && p.board.side == s.board.side
  {
    Advance(s.hands, obs, Indices(|obs|), s.board, s.log)
  }

  /** Lines 149-208 of process_image for one frame: cmh is None when no
      hand is detected. The flag is false when a board call raised. */
  function Frame(s: FrameState, cmh: Option<seq<Observation>>): (r: (FrameState, bool))
    requires Good(s) && (cmh.Some? ==> WellFormed(cmh.value))
    ensures Good(r.0)
    ensures r.0.board.rows == s.board.rows && r.0.board.cols == s.board.cols && r.0.board.side == s.board.side
  {
    match cmh
    case None => (s.(hands := []), true)
    case Some(obs) =>
      var p := FramePass(s, obs);
      if !p.ok then (FrameState(p.hands, p.board, p.log), false)
      else
        var hs := p.hands + Spawn(p.obs, s.board.side);
        (FrameState(MarkOverlaps(hs), p.board, p.log), true)
  }

  /** A frame without detections forgets every tracked hand and touches
      nothing else. */
  lemma FrameWithoutHands(s: FrameState)
    requires Good(s)
    ensures Frame(s, None) == (FrameState([], s.board, s.log), true)
  {
  }

  /** After a frame with detections, loh has one hand per observation:
      each survivor claimed one and each leftover spawned one. */
  lemma FrameCount(s: FrameState, obs: seq<Observation>)
    requires Good(s) && WellFormed(obs)
    ensures Frame(s, Some(obs)).1 ==> |Frame(s, Some(obs)).0.hands| == |obs|
  {
    AdvanceCounts(s.hands, obs, Indices(|obs|), s.board, s.log);
  }

  /** Every observation of the frame is claimed by at most one tracked
      hand: each of its positions is either claimed by exactly one
      survivor or left over, never both, and no other position occurs. */
  lemma FrameClaimsOnce(s: FrameState, obs: seq<Observation>)
    requires Good(s) && WellFormed(obs)
    ensures var p := FramePass(s, obs);
      p.ok ==> forall x: nat :: multiset(p.claimed)[x] + multiset(p.pos)[x] == if x < |obs| then 1 else 0
  {
    var p := FramePass(s, obs);
    var pos: seq<nat> := Indices(|obs|);
    AdvanceClaims(s.hands, obs, pos, s.board, s.log);
    IndicesMultiset(|obs|);
    if p.ok {
      forall x: nat
        ensures multiset(p.claimed)[x] + multiset(p.pos)[x] == if x < |obs| then 1 else 0
      {
        assert (multiset(p.claimed) + multiset(p.pos))[x] == multiset(pos)[x];
      }
    }
  }

  /** The surviving hands keep their relative order in loh, and the
      leftover observations keep their frame order. */
  lemma FrameOrder(s: FrameState, obs: seq<Observation>)
    requires Good(s) && WellFormed(obs)
    ensures var p := FramePass(s, obs);
      p.ok ==> Increasing(p.kept) && Increasing(p.pos) && forall k :: 0 <= k < |p.kept| ==> p.kept[k] < |s.hands|
  {
    AdvanceOrder(s.hands, obs, Indices(|obs|), s.board, s.log);
  }

  /** rs holds base hands and then one hand per position in pos, the k-th
      being NewHand of the frame observation at pos[k] up to the spazzing
      fields. */
  predicate SpawnedAt(rs: seq<HandState>, base: nat, pos: seq<nat>, frame: seq<Observation>, side: int)
    requires WellFormed(frame)
  {
    && |rs| == base + |pos|
    && forall k :: 0 <= k < |pos| ==>
         pos[k] < |frame| && SpazzOnly(NewHand(frame[pos[k]], side), rs[base + k])
  }

  /** After the pair loop over survivors followed by new hands for the
      leftovers, each new hand is NewHand of the frame observation at its
      position up to the spazzing fields. */
  lemma SpawnedAfterMarking(hands: seq<HandState>, left: seq<Observation>, pos: seq<nat>, frame: seq<Observation>, side: int)
    requires AllTracked(hands) && WellFormed(left) && WellFormed(frame) && Aligned(left, pos, frame)
    ensures SpawnedAt(MarkOverlaps(hands + Spawn(left, side)), |hands|, pos, frame, side)
  {
    var hs := hands + Spawn(left, side);
    MarkFromSame(hs, 0);
    forall k | 0 <= k < |pos|
      ensures pos[k] < |frame| && SpazzOnly(NewHand(frame[pos[k]], side), MarkOverlaps(hs)[|hands| + k])
    {
      assert hs[|hands| + k] == NewHand(left[k], side);
    }
  }

  /** The survivors come first, then one new hand per leftover
      observation in frame order; a new hand is NewHand of its
      observation up to the spazzing fields the pair loop may write. */
  lemma FrameSpawned(s: FrameState, obs: seq<Observation>)
    requires Good(s) && WellFormed(obs)
    ensures var p := FramePass(s, obs);
      var r := Frame(s, Some(obs));
      r.1 ==> SpawnedAt(r.0.hands, |p.hands|, p.pos, obs, s.board.side)
  {
    var p := FramePass(s, obs);
    if p.ok {
      assert Frame(s, Some(obs)).0.hands == MarkOverlaps(p.hands + Spawn(p.obs, s.board.side));
      AdvanceLeftovers(s.hands, obs, Indices(|obs|), s.board, s.log, obs);
      SpawnedAfterMarking(p.hands, p.obs, p.pos, obs, s.board.side);
    }
  }

  /** At the end of a frame both hands of every overlapping pair i < j
      are spazzing. */
  lemma FrameMarksOverlaps(s: FrameState, obs: seq<Observation>, a: nat, b: nat)
    requires Good(s) && WellFormed(obs)
    requires Frame(s, Some(obs)).1
    requires a < b < |Frame(s, Some(obs)).0.hands|
    requires Overlap(Frame(s, Some(obs)).0.hands[a], Frame(s, Some(obs)).0.hands[b])
    ensures Frame(s, Some(obs)).0.hands[a].spazzing && Frame(s, Some(obs)).0.hands[b].spazzing
  {
    var p := FramePass(s, obs);
    var hs := p.hands + Spawn(p.obs, s.board.side);
    MarkFromSame(hs, 0);
    SameHandsOverlap(hs, MarkOverlaps(hs), a, b);
    MarkOverlapsSpazzing(hs, a, b);
  }

  /** The log only grows, and what a frame appended replays the board
      change of that frame, whether or not a board call raised. */
  lemma FrameLogged(s: FrameState, cmh: Option<seq<Observation>>)
    requires Good(s) && (cmh.Some? ==> WellFormed(cmh.value))
    ensures var r := Frame(s, cmh).0; Logged(s.board, s.log, r.board, r.log)
  {
    if cmh.Some? {
      AdvanceLogged(s.hands, cmh.value, Indices(|cmh.value|), s.board, s.log);
    } else {
      assert s.log[|s.log|..] == [];
    }
  }

  /** A log that replays from g0 to g, extended by rows that replay g
      to g', replays from g0 to g'. */
  lemma ReplayExtends(g0: Grid, log: seq<LogEntry>, g: Grid, log': seq<LogEntry>, g': Grid)
    requires Consistent(g0) && Consistent(g)
    requires Replay(g0, log) == (g, true) && Logged(g, log, g', log')
    ensures Replay(g0, log') == (g', true)
  {
    assert log' == log + log'[|log|..];
    ReplayAppend(g0, log, log'[|log|..]);
  }

  /** Hence build_activated on the whole log of a session that started
      from board g0 with an empty log rebuilds the current board. */
  lemma FramesReplay(g0: Grid, s: FrameState, cmh: Option<seq<Observation>>)
    requires Good(s) && Consistent(g0) && (cmh.Some? ==> WellFormed(cmh.value))
    requires Replay(g0, s.log) == (s.board, true)
    ensures Replay(g0, Frame(s, cmh).0.log) == (Frame(s, cmh).0.board, true)
  {
    var r := Frame(s, cmh).0;
    FrameLogged(s, cmh);
    ReplayExtends(g0, s.log, s.board, r.log, r.board);
  }
}
