/** The Board class of videoTest/board.py: the lattice of drop points, the
    height map, the presence map and the send_info journal, updated in
    place. Every method is proved against the value model in Occupancy:
    View() is the board's state as an Occupancy.Grid, and each method's
    new state is the corresponding function of the old one. */
module Boards {
  import opened Util
  import opened Occupancy

  class Board {
    const side: int
    const width: int
    const height: int
    /** centers[p][q] is the drop point of row p and column q. */
    const centers: seq<seq<(int, int)>>
    /** top[p][q]: number of blocks stacked on cell (p, q). */
    var top: seq<seq<nat>>
    /** there[p][q]: a block was seen on the cell's lowest layer. */
    var there: seq<seq<bool>>
    /** send_info: what is to be built, per row, column and stack index. */
    var sendInfo: Journal

    function Rows(): nat
    {
      |centers|
    }

    /** get_center scans len(centers[0]) columns in every row. */
    function Cols(): nat
    {
      if |centers| == 0 then 0 else |centers[0]|
    }

    function View(): Grid
      reads this
    {
      Grid(side, Rows(), Cols(), top, there, sendInfo)
    }

    ghost predicate Valid()
      reads this
    {
      && side > 0 && width >= 0 && height >= 0
      && |centers| == Extent(width, side)
      && (forall p :: 0 <= p < |centers| ==> |centers[p]| == Extent(height, side))
      && (forall p, q :: 0 <= p < |centers| && 0 <= q < |centers[p]| ==> centers[p][q] == Center(side, p, q))
      && Consistent(View())
    }

    /** Board(img) for an image of width x height pixels and a drop-point
        spacing of side pixels (the source always ends up with
        DefaultSideLength). */
    constructor (width: int, height: int, side: int)
      requires side > 0 && width >= 0 && height >= 0
      ensures Valid()
      ensures this.width == width && this.height == height && this.side == side
      ensures View() == EmptyGrid(side, Extent(width, side), Extent(height, side))
    {
      var rows := Extent(width, side);
      var cols := Extent(height, side);
      this.side := side;
      this.width := width;
      this.height := height;
      centers := seq(rows, i => seq(cols, j => Center(side, i, j)));
      top := seq(rows, _ => seq(cols, _ => 0));
      there := seq(rows, _ => seq(cols, _ => false));
      sendInfo := map[];
      new;
      assert View() == EmptyGrid(side, rows, cols);
    }

    /** get_center(x, y): scans the drop points in row-major order and
        returns the first whose half-width box holds the point. */
    method GetCenter(x: real, y: real) returns (r: Option<(nat, nat)>)
      requires Valid()
      ensures r == CellAt(side, Rows(), Cols(), x, y)
    {
      var p := 0;
      while p < |centers|
        invariant 0 <= p <= |centers|
        invariant forall p': nat, q': nat :: p' < p && q' < Cols() ==> !Covers(side, p', q', x, y)
      {
        var q := 0;
        while q < |centers[0]|
          invariant 0 <= q <= |centers[0]|
          invariant forall q': nat :: q' < q ==> !Covers(side, p, q', x, y)
        {
          var center := centers[p][q];
          var xDiff := Abs(center.0 as real - x);
          var yDiff := Abs(center.1 as real - y);
          if xDiff <= (side / 2) as real && yDiff <= (side / 2) as real {
            FirstCoveringCell(side, Rows(), Cols(), x, y, p, q);
            return Some((p, q));
          }
          q := q + 1;
        }
        p := p + 1;
      }
      return None;
    }

    /** is_block_not_at_center(x, y): whether the point's cell is empty
        (None where get_center finds no cell). `inconsistent` is the
        diagnostic the source prints when the height map and the journal
        disagree about the cell; it never fires. */
    method IsBlockNotAtCenter(x: real, y: real) returns (r: Option<bool>, inconsistent: bool)
      requires Valid()
      ensures r.None? <==> CellAt(side, Rows(), Cols(), x, y).None?
      ensures r.Some? ==> var c := CellAt(side, Rows(), Cols(), x, y).value;
                r.value == (top[c.0][c.1] == 0) &&
                r.value == (Entries(sendInfo, c.0, c.1) == map[])
      ensures !inconsistent
    {
      var c := GetCenter(x, y);
      if c.None? {
        return None, false;
      }
      var p, q := c.value.0, c.value.1;
      CellCount(View(), p, q);
      inconsistent := (top[p][q] == 0) != (p !in sendInfo || q !in sendInfo[p]);
      r := Some(top[p][q] == 0);
    }

    /** add_single_json(p, q) */
    method AddSingleJson(p: nat, q: nat)
      modifies this
      ensures sendInfo == AddJson(old(sendInfo), p, q)
      ensures top == old(top) && there == old(there)
    {
      var j := sendInfo;
      if p !in j {
        j := j[p := map[]];
      }
      var row: map<nat, map<nat, string>> := j[p];
      if q !in row {
        row := row[q := map[]];
      }
      var cell: map<nat, string> := row[q];
      var z := |cell|;
      sendInfo := j[p := row[q := cell[z := Wood]]];
      ghost var j0 := old(sendInfo);
      ghost var row0: map<nat, map<nat, string>> := if p in j0 then j0[p] else map[];
      ghost var cell0: map<nat, string> := if q in row0 then row0[q] else map[];
      assert cell == cell0;
      assert row[q := cell[z := Wood]] == row0[q := cell0[|cell0| := Wood]];
      assert sendInfo == j0[p := row0[q := cell0[|cell0| := Wood]]];
    }

    /** The journal steps of remove_single: delete the cell's key len - 1,
        then the cell map if it is empty, then the row map if it is empty. */
    method DropJournalTop(p: nat, q: nat)
      requires p in sendInfo && q in sendInfo[p] && sendInfo[p][q] != map[]
      modifies this
      ensures sendInfo == DropTop(old(sendInfo), p, q)
      ensures top == old(top) && there == old(there)
    {
      var j := sendInfo;
      var cell: map<nat, string> := j[p][q];
      var z: nat := |cell| - 1;
      cell := cell - {z};
      var row: map<nat, map<nat, string>> := j[p];
      if |cell| == 0 {
        row := row - {q};
      } else {
        row := row[q := cell];
      }
      if |row| == 0 {
        j := j - {p};
      } else {
        j := j[p := row];
      }
      assert j == DropTop(old(sendInfo), p, q);
      sendInfo := j;
    }

    /** remove_single(x, y) */
    method RemoveSingle(x: real, y: real) returns (status: Removal)
      requires Valid()
      modifies this
      ensures Valid()
      ensures (status, View()) == AfterRemove(old(View()), x, y)
    {
      var c := GetCenter(x, y);
      if c.None? {
        return Unmapped;
      }
      var p, q := c.value.0, c.value.1;
      var notThere, _ := IsBlockNotAtCenter(x, y);
      if notThere == Some(true) {
        return NothingThere;
      }
      TakeTop(p, q);
      return Removed;
    }

    /** The state change of remove_single on a non-empty cell (p, q). */
    method TakeTop(p: nat, q: nat)
      requires Valid() && p < Rows() && q < Cols() && top[p][q] > 0
      modifies this
      ensures Valid()
      ensures View() == Take(old(View()), p, q)
    {
      ghost var g := View();
      CellCount(g, p, q);
      top := Set2(top, p, q, top[p][q] - 1);
      DropJournalTop(p, q);
      assert View() == Take(g, p, q);
      TakeKeepsConsistent(g, p, q);
    }

    /** add_single(x, y, low_layer). `mapped` is false where get_center
        finds no cell; the source then raises before changing anything. */
    method AddSingle(x: real, y: real, lowLayer: bool) returns (mapped: bool)
      requires Valid()
      modifies this
      ensures Valid()
      ensures mapped <==> CellAt(side, Rows(), Cols(), x, y).Some?
      ensures mapped ==> View() == AfterAdd(old(View()), x, y, lowLayer).value
      ensures !mapped ==> View() == old(View())
    {
      var c := GetCenter(x, y);
      if c.None? {
        return false;
      }
      PlaceAt(c.value.0, c.value.1, lowLayer);
      return true;
    }

    /** The state change of add_single on cell (p, q). */
    method PlaceAt(p: nat, q: nat, lowLayer: bool)
      requires Valid() && p < Rows() && q < Cols()
      modifies this
      ensures Valid()
      ensures View() == Place(old(View()), p, q, lowLayer)
    {
      ghost var g := View();
      PlaceKeepsConsistent(g, p, q, lowLayer);
      if !lowLayer {
        GrowAt(p, q);
      } else {
        if top[p][q] == 0 {
          GrowAt(p, q);
        }
        ghost var g1 := View();
        there := Set2(there, p, q, true);
        assert View() == g1.(there := Set2(g1.there, p, q, true));
      }
    }

    /** One block more on cell (p, q): the height and the journal entry of
        add_single. */
    method GrowAt(p: nat, q: nat)
      requires Valid() && p < Rows() && q < Cols()
      modifies this
      ensures View() == Grow(old(View()), p, q)
    {
      top := Set2(top, p, q, top[p][q] + 1);
      AddSingleJson(p, q);
    }

    /** One iteration of build_activated's loop. */
    method ApplyEntry(e: LogEntry) returns (mapped: bool)
      requires Valid()
      modifies this
      ensures Valid()
      ensures mapped <==> Apply(old(View()), e).Some?
      ensures mapped ==> View() == Apply(old(View()), e).value
      ensures !mapped ==> View() == old(View())
    {
      if e.release {
        var status := RemoveSingle(e.x, e.y);
        mapped := status != Unmapped;
      } else {
        mapped := AddSingle(e.x, e.y, false);
      }
    }

    /** build_activated(log): replays the log, stopping (completed false)
        at the first entry whose point maps to no cell. */
    method BuildActivated(log: seq<LogEntry>) returns (completed: bool)
      requires Valid()
      modifies this
      ensures Valid()
      ensures (View(), completed) == Replay(old(View()), log)
    {
      var i := 0;
      while i < |log|
        invariant 0 <= i <= |log|
        invariant Valid()
        invariant Replay(old(View()), log) == Replay(View(), log[i..])
      {
        assert log[i..][0] == log[i] && log[i..][1..] == log[i + 1..];
        var mapped := ApplyEntry(log[i]);
        if !mapped {
          return false;
        }
        i := i + 1;
      }
      return true;
    }
  }
}
