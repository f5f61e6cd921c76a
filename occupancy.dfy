/** The board of videoTest/board.py as values: the lattice of drop points,
    the first-match mapping of a point to a cell, the height map `top`, the
    presence map `there` and the sparse journal `send_info`, with the effect
    of every add and remove written as a function of the old grid. The class
    Boards.Board updates the same state in place and is proved against these
    functions. */
module Occupancy {
  import opened Util

  /** The tag add_single_json writes for every placed block. */
  const Wood: string := "wood"

  /** The side length every Board ends up with (board.py overwrites the
      calibrated value with this constant). */
  const DefaultSideLength: int := 30

  /** send_info: row -> column -> stack index -> tag. */
  type Journal = map<nat, map<nat, map<nat, string>>>

  /** The mutable part of a board together with its shape. */
  datatype Grid = Grid(side: int, rows: nat, cols: nat,
                       top: seq<seq<nat>>, there: seq<seq<bool>>, journal: Journal)

  /** One entry of the action log: where, and whether remove_single
      (release) or add_single (not release) is to be replayed. */
  datatype LogEntry = LogEntry(x: real, y: real, release: bool)

  /** What remove_single did. */
  datatype Removal =
    | Unmapped      // get_center found no cell: the tuple unpacking raises
    | NothingThere  // "Removing something that isn't there": nothing changes
    | Removed

  // ---------------------------------------------------------------------
  // Lattice and point-to-cell mapping
  // ---------------------------------------------------------------------

  /** Number of rows (or columns) of the lattice for an image extent. */
  function Extent(size: int, side: int): (n: nat)
    requires side > 0 && size >= 0
    ensures n >= 1 && (n - 1) * side <= size < n * side
  {
    size / side + 1
  }

  /** The drop-point coordinate of lattice line k. */
  function Coord(side: int, k: int): int
  {
    side / 2 + k * side
  }

  /** centers[p][q]: drop point of row p and column q. The first
      coordinate is compared with x and grows with the column. */
  function Center(side: int, p: int, q: int): (int, int)
  {
    (Coord(side, q), Coord(side, p))
  }

  /** The half-width test of get_center on one axis, bounds inclusive. */
  predicate NearAxis(side: int, k: nat, v: real)
  {
    Abs(Coord(side, k) as real - v) <= (side / 2) as real
  }

  /** The cell (p, q) accepts the point (x, y): within side // 2 of its
      drop point Center(side, p, q) in both axes. */
  predicate Covers(side: int, p: nat, q: nat, x: real, y: real)
  {
    NearAxis(side, q, x) && NearAxis(side, p, y)
  }

  /** Row-major order of cells. */
  predicate Before(a: (nat, nat), b: (nat, nat))
  {
    a.0 < b.0 || (a.0 == b.0 && a.1 < b.1)
  }

  /** The first k in [from, n) whose axis test holds. */
  function FirstNear(n: nat, side: int, v: real, from: nat): (r: Option<nat>)
    decreases n - from
    ensures r.Some? ==> from <= r.value < n && NearAxis(side, r.value, v)
    ensures r.Some? ==> forall k :: from <= k < r.value ==> !NearAxis(side, k, v)
    ensures r.None? ==> forall k :: from <= k < n ==> !NearAxis(side, k, v)
  {
    if from >= n then None
    else if NearAxis(side, from, v) then Some(from)
    else FirstNear(n, side, v, from + 1)
  }

  /** get_center: the first cell in row-major order that covers the point,
      or None when no cell does. Since the two axis tests are independent,
      the first covering cell pairs the first matching row with the first
      matching column. */
  function CellAt(side: int, rows: nat, cols: nat, x: real, y: real): (r: Option<(nat, nat)>)
    ensures r.Some? ==> r.value.0 < rows && r.value.1 < cols && Covers(side, r.value.0, r.value.1, x, y)
    ensures r.Some? ==> forall p: nat, q: nat :: p < rows && q < cols && Before((p, q), r.value) ==>
                          !Covers(side, p, q, x, y)
    ensures r.None? ==> forall p: nat, q: nat :: p < rows && q < cols ==> !Covers(side, p, q, x, y)
  {
    var fr := FirstNear(rows, side, y, 0);
    var fc := FirstNear(cols, side, x, 0);
    if fr.Some? && fc.Some? then Some((fr.value, fc.value)) else None
  }

  /** A covering cell with no covering cell before it is the one CellAt
      returns: the mapping is determined by the point alone. */
  lemma FirstCoveringCell(side: int, rows: nat, cols: nat, x: real, y: real, p: nat, q: nat)
    requires p < rows && q < cols && Covers(side, p, q, x, y)
    requires forall p': nat, q': nat :: p' < rows && q' < cols && Before((p', q'), (p, q)) ==>
               !Covers(side, p', q', x, y)
    ensures CellAt(side, rows, cols, x, y) == Some((p, q))
  {
  }

  /** With an even side length (the board uses 30) every point of the
      covered extent maps to a cell: neighbouring drop points are side apart
      and each accepts side / 2 either way. */
  lemma EvenSideCoversExtent(side: int, n: nat, v: real)
    requires side > 0 && side % 2 == 0 && n >= 1
    requires 0.0 <= v <= (n * side) as real
    ensures FirstNear(n, side, v, 0).Some?
  {
    var f := v.Floor;
    var k := LineBelow(side, n, f);
    assert (k + 1) * side == k * side + side;
    assert (k * side) as real <= v <= ((k + 1) * side) as real;
    assert Coord(side, k) == k * side + side / 2;
    assert NearAxis(side, k, v);
  }

  /** The lattice line whose band [k * side, (k + 1) * side] holds f. */
  lemma LineBelow(side: int, n: nat, f: int) returns (k: nat)
    requires side > 0 && n >= 1 && 0 <= f <= n * side
    ensures k < n && k * side <= f && (f < (k + 1) * side || (f == n * side && k == n - 1))
  {
    k := f / side;
    assert k * side <= f < k * side + side;
    if k >= n {
      assert k * side >= n * side;
      k := n - 1;
    }
  }

  // ---------------------------------------------------------------------
  // Height map, presence map and journal
  // ---------------------------------------------------------------------

  predicate Shaped(g: Grid)
  {
    && g.side > 0
    && |g.top| == g.rows && |g.there| == g.rows
    && (forall p :: 0 <= p < g.rows ==> |g.top[p]| == g.cols && |g.there[p]| == g.cols)
  }

  function Set2<T>(s: seq<seq<T>>, p: nat, q: nat, v: T): (r: seq<seq<T>>)
    requires p < |s| && q < |s[p]|
    ensures |r| == |s| && |r[p]| == |s[p]| && r[p][q] == v
    ensures forall i :: 0 <= i < |s| ==> |r[i]| == |s[i]|
    ensures forall i, j :: 0 <= i < |s| && 0 <= j < |s[i]| && (i, j) != (p, q) ==> r[i][j] == s[i][j]
  {
    s[p := s[p][q := v]]
  }

  /** The journal entries of one cell (empty when the cell has none). */
  function Entries(j: Journal, p: nat, q: nat): map<nat, string>
  {
    if p in j && q in j[p] then j[p][q] else map[]
  }

  /** The keys of a cell's entries are exactly the stack indices below n. */
  ghost predicate Dense(m: map<nat, string>, n: nat)
  {
    forall k: nat :: k in m <==> k < n
  }

  lemma {:induction false} DenseSize(m: map<nat, string>, n: nat)
    requires Dense(m, n)
    ensures |m| == n
    decreases n
  {
    if n > 0 {
      assert n - 1 in m;
      var m' := m - {n - 1};
      assert Dense(m', n - 1);
      DenseSize(m', n - 1);
    } else {
      assert m == map[];
    }
  }

  /** No empty row map and no row outside the lattice. */
  ghost predicate RowsPruned(g: Grid)
  {
    forall p :: p in g.journal ==> p < g.rows && g.journal[p] != map[]
  }

  /** No empty cell map and no column outside the lattice. */
  ghost predicate CellsPruned(g: Grid)
  {
    forall p, q :: p in g.journal && q in g.journal[p] ==> q < g.cols && g.journal[p][q] != map[]
  }

  /** Every cell's entries are keyed 0 .. top[p][q] - 1. */
  ghost predicate Stacked(g: Grid)
    requires Shaped(g)
  {
    forall p, q :: 0 <= p < g.rows && 0 <= q < g.cols ==> Dense(Entries(g.journal, p, q), g.top[p][q])
  }

  /** The board invariant: the journal mirrors the height map exactly. */
  ghost predicate Consistent(g: Grid)
  {
    Shaped(g) && RowsPruned(g) && CellsPruned(g) && Stacked(g)
  }

  /** A fresh board: every height 0, nothing marked present, no journal. */
  function EmptyGrid(side: int, rows: nat, cols: nat): (g: Grid)
    requires side > 0
    ensures Consistent(g) && g.side == side && g.rows == rows && g.cols == cols
    ensures forall p, q :: 0 <= p < rows && 0 <= q < cols ==> g.top[p][q] == 0 && !g.there[p][q]
    ensures g.journal == map[]
  {
    Grid(side, rows, cols, seq(rows, _ => seq(cols, _ => 0)), seq(rows, _ => seq(cols, _ => false)), map[])
  }

  /** Under the invariant a cell holds exactly top[p][q] journal entries,
      and its height is 0 exactly when the journal has no entry for it:
      the consistency check of is_block_not_at_center never fires. */
  lemma CellCount(g: Grid, p: nat, q: nat)
    requires Consistent(g) && p < g.rows && q < g.cols
    ensures |Entries(g.journal, p, q)| == g.top[p][q]
    ensures (g.top[p][q] == 0) == !(p in g.journal && q in g.journal[p])
  {
    assert Dense(Entries(g.journal, p, q), g.top[p][q]);
    DenseSize(Entries(g.journal, p, q), g.top[p][q]);
    if g.top[p][q] > 0 {
      assert 0 in Entries(g.journal, p, q);
    }
  }

  /** add_single_json: writes the tag "wood" under the key len(cell),
      creating the row and cell maps when missing. */
  function AddJson(j: Journal, p: nat, q: nat): Journal
  {
    var row: map<nat, map<nat, string>> := if p in j then j[p] else map[];
    var cell: map<nat, string> := if q in row then row[q] else map[];
    j[p := row[q := cell[|cell| := Wood]]]
  }

  /** AddJson files one entry in cell (p, q), keyed by the number of
      entries the cell already had. */
  lemma AddJsonCell(j: Journal, p: nat, q: nat)
    ensures Entries(AddJson(j, p, q), p, q) == Entries(j, p, q)[|Entries(j, p, q)| := Wood]
  {
  }

  /** AddJson touches no other cell. */
  lemma AddJsonOthers(j: Journal, p: nat, q: nat)
    ensures forall p': nat, q': nat :: (p', q') != (p, q) ==> Entries(AddJson(j, p, q), p', q') == Entries(j, p', q')
  {
    var r := AddJson(j, p, q);
    forall p': nat, q': nat | (p', q') != (p, q)
      ensures Entries(r, p', q') == Entries(j, p', q')
    {
      if p' == p {
        assert q' != q;
      }
    }
  }

  /** AddJson adds row p to the journal and no other row. */
  lemma AddJsonRows(j: Journal, p: nat, q: nat)
    ensures AddJson(j, p, q).Keys == j.Keys + {p}
  {
  }

  /** AddJson leaves every other row as it was. */
  lemma AddJsonOtherRows(j: Journal, p: nat, q: nat)
    ensures forall p' :: p' in j && p' != p ==> AddJson(j, p, q)[p'] == j[p']
  {
  }

  /** Within row p, AddJson adds column q and no other column. */
  lemma AddJsonColumns(j: Journal, p: nat, q: nat)
    ensures AddJson(j, p, q)[p].Keys == (if p in j then j[p].Keys else {}) + {q}
  {
  }

  /** One block more on cell (p, q), filed in the journal. */
  function Grow(g: Grid, p: nat, q: nat): (r: Grid)
    requires Shaped(g) && p < g.rows && q < g.cols
    ensures Shaped(r) && r.side == g.side && r.rows == g.rows && r.cols == g.cols && r.there == g.there
  {
    g.(top := Set2(g.top, p, q, g.top[p][q] + 1), journal := AddJson(g.journal, p, q))
  }

  /** add_single on cell (p, q). Without low_layer the height grows by one
      and a journal entry is added. With low_layer this happens only on an
      empty cell, and the cell is marked present either way. */
  function Place(g: Grid, p: nat, q: nat, lowLayer: bool): (r: Grid)
    requires Shaped(g) && p < g.rows && q < g.cols
    ensures Shaped(r) && r.side == g.side && r.rows == g.rows && r.cols == g.cols
  {
    if !lowLayer then Grow(g, p, q)
    else
      var g1 := if g.top[p][q] == 0 then Grow(g, p, q) else g;
      g1.(there := Set2(g1.there, p, q, true))
  }

  /** Adding to a cell changes its height by exactly one and files the new
      entry under the old height with the tag "wood"; no other cell's height
      or entries change, and neither does the presence map. */
  lemma PlaceEffect(g: Grid, p: nat, q: nat)
    requires Consistent(g) && p < g.rows && q < g.cols
    ensures var r := Place(g, p, q, false);
      && r.top[p][q] == g.top[p][q] + 1
      && Entries(r.journal, p, q) == Entries(g.journal, p, q)[g.top[p][q] := Wood]
      && g.top[p][q] !in Entries(g.journal, p, q)
      && r.there == g.there
      && (forall p', q' :: 0 <= p' < g.rows && 0 <= q' < g.cols && (p', q') != (p, q) ==>
            r.top[p'][q'] == g.top[p'][q'] && Entries(r.journal, p', q') == Entries(g.journal, p', q'))
  {
    CellCount(g, p, q);
    assert Dense(Entries(g.journal, p, q), g.top[p][q]);
    AddJsonCell(g.journal, p, q);
    AddJsonOthers(g.journal, p, q);
  }

  /** The low_layer heuristic: an empty cell gets one block and one entry,
      a non-empty cell keeps its height and journal; either way only the
      cell's presence flag is set. */
  lemma LowLayerEffect(g: Grid, p: nat, q: nat)
    requires Consistent(g) && p < g.rows && q < g.cols
    ensures var r := Place(g, p, q, true);
      && (g.top[p][q] == 0 ==> r.top[p][q] == 1 && Entries(r.journal, p, q) == map[0 := Wood])
      && (g.top[p][q] != 0 ==> r.top == g.top && r.journal == g.journal)
      && r.there == Set2(g.there, p, q, true)
      && (forall p', q' :: 0 <= p' < g.rows && 0 <= q' < g.cols && (p', q') != (p, q) ==>
            r.top[p'][q'] == g.top[p'][q'] && Entries(r.journal, p', q') == Entries(g.journal, p', q'))
  {
    CellCount(g, p, q);
    if g.top[p][q] == 0 {
      assert Entries(g.journal, p, q) == map[];
      AddJsonCell(g.journal, p, q);
      AddJsonOthers(g.journal, p, q);
    }
  }

  lemma GrowRowsPruned(g: Grid, p: nat, q: nat)
    requires Consistent(g) && p < g.rows && q < g.cols
    ensures RowsPruned(Grow(g, p, q))
  {
    assert q in Grow(g, p, q).journal[p];
  }

  lemma GrowCellsPruned(g: Grid, p: nat, q: nat)
    requires Consistent(g) && p < g.rows && q < g.cols
    ensures CellsPruned(Grow(g, p, q))
  {
    var j := Grow(g, p, q).journal;
    assert |Entries(g.journal, p, q)| in j[p][q];
  }

  /** One cell's entries after Grow: the grown cell gains key n, the others
      are untouched. */
  lemma GrowCell(g: Grid, p: nat, q: nat, p': nat, q': nat)
    requires Shaped(g) && p < g.rows && q < g.cols && p' < g.rows && q' < g.cols
    requires Dense(Entries(g.journal, p', q'), g.top[p'][q'])
    requires |Entries(g.journal, p, q)| == g.top[p][q]
    ensures Dense(Entries(Grow(g, p, q).journal, p', q'), Grow(g, p, q).top[p'][q'])
  {
    var r := Grow(g, p, q);
    var e := Entries(g.journal, p', q');
    if (p', q') == (p, q) {
      var n := g.top[p][q];
      var e2 := Entries(r.journal, p, q);
      assert e2 == e[n := Wood];
      assert r.top[p][q] == n + 1;
      forall k: nat
        ensures k in e2 <==> k < n + 1
      {
        assert k in e <==> k < n;
      }
    } else {
      assert Entries(r.journal, p', q') == e;
      assert r.top[p'][q'] == g.top[p'][q'];
    }
  }

  lemma GrowStacked(g: Grid, p: nat, q: nat)
    requires Consistent(g) && p < g.rows && q < g.cols
    ensures Stacked(Grow(g, p, q))
  {
    var r := Grow(g, p, q);
    CellCount(g, p, q);
    forall p', q' | 0 <= p' < r.rows && 0 <= q' < r.cols
      ensures Dense(Entries(r.journal, p', q'), r.top[p'][q'])
    {
      assert Dense(Entries(g.journal, p', q'), g.top[p'][q']);
      GrowCell(g, p, q, p', q');
    }
  }

  lemma GrowKeepsConsistent(g: Grid, p: nat, q: nat)
    requires Consistent(g) && p < g.rows && q < g.cols
    ensures Consistent(Grow(g, p, q))
  {
    GrowRowsPruned(g, p, q);
    GrowCellsPruned(g, p, q);
    GrowStacked(g, p, q);
  }

  lemma PlaceKeepsConsistent(g: Grid, p: nat, q: nat, lowLayer: bool)
    requires Consistent(g) && p < g.rows && q < g.cols
    ensures Consistent(Place(g, p, q, lowLayer))
  {
    GrowKeepsConsistent(g, p, q);
  }

  /** The journal half of remove_single on cell (p, q): delete the key
      len - 1 of the cell, then the cell map if it became empty, then the
      row map if it became empty. */
  function DropTop(j: Journal, p: nat, q: nat): Journal
    requires p in j && q in j[p] && j[p][q] != map[]
  {
    var cell := j[p][q];
    var z: nat := |cell| - 1;
    var cell' := cell - {z};
    var row: map<nat, map<nat, string>> := j[p];
    var row' := if |cell'| == 0 then row - {q} else row[q := cell'];
    if |row'| == 0 then j - {p} else j[p := row']
  }

  /** DropTop deletes exactly the cell's top entry. */
  lemma DropTopCell(j: Journal, p: nat, q: nat)
    requires p in j && q in j[p] && j[p][q] != map[]
    ensures Entries(DropTop(j, p, q), p, q) == j[p][q] - {|j[p][q]| - 1}
  {
    var cell' := j[p][q] - {|j[p][q]| - 1};
    if |cell'| == 0 {
      assert cell' == map[];
    }
  }

  /** DropTop touches no other cell. */
  lemma DropTopOthers(j: Journal, p: nat, q: nat)
    requires p in j && q in j[p] && j[p][q] != map[]
    ensures forall p': nat, q': nat :: (p', q') != (p, q) ==> Entries(DropTop(j, p, q), p', q') == Entries(j, p', q')
  {
    var r := DropTop(j, p, q);
    forall p': nat, q': nat | (p', q') != (p, q)
      ensures Entries(r, p', q') == Entries(j, p', q')
    {
      if p' == p {
        assert q' != q;
      }
    }
  }

  /** DropTop prunes: it leaves no empty map behind and adds no key. */
  lemma DropTopPruned(j: Journal, p: nat, q: nat)
    requires p in j && q in j[p] && j[p][q] != map[]
    ensures var r := DropTop(j, p, q);
      && (forall p' :: p' in r ==> p' in j)
      && (forall p' :: p' in r && p' != p ==> r[p'] == j[p'])
      && (p in r ==> r[p] != map[] && (forall q' :: q' in r[p] ==> q' in j[p]))
      && (p in r && q in r[p] ==> r[p][q] != map[])
      && (forall q' :: p in r && q' in r[p] && q' != q ==> r[p][q'] == j[p][q'])
  {
  }

  /** remove_single on a non-empty cell (p, q): the height drops by one and
      the journal loses the cell's top entry. */
  function Take(g: Grid, p: nat, q: nat): (r: Grid)
    requires Consistent(g) && p < g.rows && q < g.cols && g.top[p][q] > 0
    ensures Shaped(r) && r.side == g.side && r.rows == g.rows && r.cols == g.cols && r.there == g.there
  {
    CellCount(g, p, q);
    g.(top := Set2(g.top, p, q, g.top[p][q] - 1), journal := DropTop(g.journal, p, q))
  }

  /** Removing from a non-empty cell lowers its height by one and deletes
      the entry with the highest key; no other cell changes. */
  lemma TakeEffect(g: Grid, p: nat, q: nat)
    requires Consistent(g) && p < g.rows && q < g.cols && g.top[p][q] > 0
    ensures var r := Take(g, p, q);
      && r.top[p][q] == g.top[p][q] - 1
      && g.top[p][q] - 1 in Entries(g.journal, p, q)
      && Entries(r.journal, p, q) == Entries(g.journal, p, q) - {g.top[p][q] - 1}
      && (forall p', q' :: 0 <= p' < g.rows && 0 <= q' < g.cols && (p', q') != (p, q) ==>
            r.top[p'][q'] == g.top[p'][q'] && Entries(r.journal, p', q') == Entries(g.journal, p', q'))
  {
    CellCount(g, p, q);
    assert Dense(Entries(g.journal, p, q), g.top[p][q]);
    DropTopCell(g.journal, p, q);
    DropTopOthers(g.journal, p, q);
  }

  /** One cell's entries after Take. */
  lemma TakeCell(g: Grid, p: nat, q: nat, p': nat, q': nat)
    requires Consistent(g) && p < g.rows && q < g.cols && g.top[p][q] > 0
    requires p' < g.rows && q' < g.cols
    ensures Dense(Entries(Take(g, p, q).journal, p', q'), Take(g, p, q).top[p'][q'])
  {
    TakeEffect(g, p, q);
    var r := Take(g, p, q);
    var e := Entries(g.journal, p', q');
    assert Dense(e, g.top[p'][q']);
    if (p', q') == (p, q) {
      var n := g.top[p][q];
      var e2 := Entries(r.journal, p, q);
      forall k: nat
        ensures k in e2 <==> k < n - 1
      {
        assert k in e <==> k < n;
      }
    }
  }

  lemma TakeRowsPruned(g: Grid, p: nat, q: nat)
    requires Consistent(g) && p < g.rows && q < g.cols && g.top[p][q] > 0
    ensures RowsPruned(Take(g, p, q))
  {
    CellCount(g, p, q);
    DropTopPruned(g.journal, p, q);
    var j := Take(g, p, q).journal;
    assert j == DropTop(g.journal, p, q);
    forall p' | p' in j
      ensures p' < g.rows && j[p'] != map[]
    {
      assert p' in g.journal;
    }
  }

  lemma TakeCellsPruned(g: Grid, p: nat, q: nat)
    requires Consistent(g) && p < g.rows && q < g.cols && g.top[p][q] > 0
    ensures CellsPruned(Take(g, p, q))
  {
    CellCount(g, p, q);
    DropTopPruned(g.journal, p, q);
    var j := Take(g, p, q).journal;
    assert j == DropTop(g.journal, p, q);
    forall p', q' | p' in j && q' in j[p']
      ensures q' < g.cols && j[p'][q'] != map[]
    {
      if p' != p {
        assert j[p'] == g.journal[p'];
      } else {
        assert q' in g.journal[p];
      }
    }
  }

  lemma TakeStacked(g: Grid, p: nat, q: nat)
    requires Consistent(g) && p < g.rows && q < g.cols && g.top[p][q] > 0
    ensures Stacked(Take(g, p, q))
  {
    var r := Take(g, p, q);
    forall p', q' | 0 <= p' < r.rows && 0 <= q' < r.cols
      ensures Dense(Entries(r.journal, p', q'), r.top[p'][q'])
    {
      TakeCell(g, p, q, p', q');
    }
  }

  lemma TakeKeepsConsistent(g: Grid, p: nat, q: nat)
    requires Consistent(g) && p < g.rows && q < g.cols && g.top[p][q] > 0
    ensures Consistent(Take(g, p, q))
  {
    TakeRowsPruned(g, p, q);
    TakeCellsPruned(g, p, q);
    TakeStacked(g, p, q);
  }

  /** The cell AddJson filed into holds one entry more, and dropping its
      top entry gives back the old entries. */
  lemma AddJsonTop(j: Journal, p: nat, q: nat)
    requires |Entries(j, p, q)| !in Entries(j, p, q)
    ensures var m := AddJson(j, p, q);
      && p in m && q in m[p] && m[p][q] != map[]
      && m[p][q] - {|m[p][q]| - 1} == Entries(j, p, q)
  {
    var m := AddJson(j, p, q);
    var cell := Entries(j, p, q);
    var n := |cell|;
    assert m[p][q] == cell[n := Wood];
    assert |m[p][q]| == n + 1;
    assert m[p][q] - {n} == cell;
  }

  lemma RoundTripExistingCell(j: Journal, p: nat, q: nat)
    requires p in j && q in j[p] && j[p][q] != map[]
    requires |Entries(j, p, q)| !in Entries(j, p, q)
    ensures p in AddJson(j, p, q) && q in AddJson(j, p, q)[p] && AddJson(j, p, q)[p][q] != map[]
    ensures DropTop(AddJson(j, p, q), p, q) == j
  {
    AddJsonTop(j, p, q);
    var m := AddJson(j, p, q);
    var row: map<nat, map<nat, string>> := m[p];
    assert row[q := j[p][q]] == j[p];
    assert m[p := j[p]] == j;
  }

  lemma RoundTripNewCell(j: Journal, p: nat, q: nat)
    requires p in j && j[p] != map[] && q !in j[p]
    ensures p in AddJson(j, p, q) && q in AddJson(j, p, q)[p] && AddJson(j, p, q)[p][q] != map[]
    ensures DropTop(AddJson(j, p, q), p, q) == j
  {
    AddJsonTop(j, p, q);
    var m := AddJson(j, p, q);
    assert m[p][q] == map[0 := Wood];
    assert m[p] - {q} == j[p];
    assert m[p := j[p]] == j;
  }

  lemma RoundTripNewRow(j: Journal, p: nat, q: nat)
    requires p !in j
    ensures p in AddJson(j, p, q) && q in AddJson(j, p, q)[p] && AddJson(j, p, q)[p][q] != map[]
    ensures DropTop(AddJson(j, p, q), p, q) == j
  {
    AddJsonTop(j, p, q);
    var m := AddJson(j, p, q);
    assert m[p] == map[q := map[0 := Wood]];
    assert m[p] - {q} == map[];
    assert m - {p} == j;
  }

  /** The journal half of the round trip: filing an entry and dropping the
      top one leaves a pruned journal as it was. */
  lemma JournalRoundTrip(j: Journal, p: nat, q: nat)
    requires p in j ==> j[p] != map[]
    requires p in j && q in j[p] ==> j[p][q] != map[]
    requires |Entries(j, p, q)| !in Entries(j, p, q)
    ensures p in AddJson(j, p, q) && q in AddJson(j, p, q)[p] && AddJson(j, p, q)[p][q] != map[]
    ensures DropTop(AddJson(j, p, q), p, q) == j
  {
    AddJsonTop(j, p, q);
    if p in j && q in j[p] {
      RoundTripExistingCell(j, p, q);
    } else if p in j {
      RoundTripNewCell(j, p, q);
    } else {
      RoundTripNewRow(j, p, q);
    }
  }

  /** Add followed by remove on the same cell restores heights, presence
      map and journal exactly, pruned maps included. */
  lemma PlaceTakeRoundTrip(g: Grid, p: nat, q: nat)
    requires Consistent(g) && p < g.rows && q < g.cols
    ensures Consistent(Place(g, p, q, false))
    ensures Take(Place(g, p, q, false), p, q) == g
  {
    PlaceKeepsConsistent(g, p, q, false);
    CellCount(g, p, q);
    assert Dense(Entries(g.journal, p, q), g.top[p][q]);
    JournalRoundTrip(g.journal, p, q);
    var n := g.top[p][q];
    var m := Place(g, p, q, false);
    assert m == g.(top := Set2(g.top, p, q, n + 1), journal := AddJson(g.journal, p, q));
    var r := Take(m, p, q);
    assert r == m.(top := Set2(m.top, p, q, n), journal := DropTop(m.journal, p, q));
    Set2Restore(g.top, p, q, n + 1);
  }

  /** Writing a cell and then writing back its old value restores the rows. */
  lemma Set2Restore<T>(s: seq<seq<T>>, p: nat, q: nat, v: T)
    requires p < |s| && q < |s[p]|
    ensures Set2(Set2(s, p, q, v), p, q, s[p][q]) == s
  {
    assert s[p][q := v][q := s[p][q]] == s[p];
  }

  // ---------------------------------------------------------------------
  // The operations at pixel coordinates, and replaying a log
  // ---------------------------------------------------------------------

  /** add_single(x, y, low_layer): None when get_center finds no cell (the
      source raises on unpacking None), else the grid after Place. */
  function AfterAdd(g: Grid, x: real, y: real, lowLayer: bool): (r: Option<Grid>)
    requires Consistent(g)
    ensures r.None? <==> CellAt(g.side, g.rows, g.cols, x, y).None?
    ensures r.Some? ==> Consistent(r.value) && r.value.rows == g.rows && r.value.cols == g.cols && r.value.side == g.side
  {
    match CellAt(g.side, g.rows, g.cols, x, y)
    case None => None
    case Some(c) =>
      PlaceKeepsConsistent(g, c.0, c.1, lowLayer);
      Some(Place(g, c.0, c.1, lowLayer))
  }

  /** remove_single(x, y): unmapped points and empty cells leave the grid as
      it was; otherwise the cell's top block is taken off. */
  function AfterRemove(g: Grid, x: real, y: real): (r: (Removal, Grid))
    requires Consistent(g)
    ensures Consistent(r.1) && r.1.rows == g.rows && r.1.cols == g.cols && r.1.side == g.side
    ensures r.0 == Unmapped <==> CellAt(g.side, g.rows, g.cols, x, y).None?
    ensures r.0 != Removed ==> r.1 == g
    ensures r.0 == NothingThere <==>
              CellAt(g.side, g.rows, g.cols, x, y).Some? &&
              g.top[CellAt(g.side, g.rows, g.cols, x, y).value.0][CellAt(g.side, g.rows, g.cols, x, y).value.1] == 0
    ensures r.0 == Removed ==> var c := CellAt(g.side, g.rows, g.cols, x, y).value;
              r.1.top[c.0][c.1] == g.top[c.0][c.1] - 1
  {
    match CellAt(g.side, g.rows, g.cols, x, y)
    case None => (Unmapped, g)
    case Some(c) =>
      if g.top[c.0][c.1] == 0 then (NothingThere, g)
      else
        TakeKeepsConsistent(g, c.0, c.1);
        (Removed, Take(g, c.0, c.1))
  }

  /** add_single(x, y) then remove_single(x, y) restores the board. */
  lemma AddRemoveRoundTrip(g: Grid, x: real, y: real)
    requires Consistent(g)
    requires CellAt(g.side, g.rows, g.cols, x, y).Some?
    ensures AfterAdd(g, x, y, false).Some?
    ensures AfterRemove(AfterAdd(g, x, y, false).value, x, y) == (Removed, g)
  {
    var c := CellAt(g.side, g.rows, g.cols, x, y).value;
    PlaceTakeRoundTrip(g, c.0, c.1);
    PlaceEffect(g, c.0, c.1);
  }

  /** One log entry of build_activated: release entries go through
      remove_single, the others through add_single. None when the entry's
      point maps to no cell, where the source raises. */
  function Apply(g: Grid, e: LogEntry): (r: Option<Grid>)
    requires Consistent(g)
    ensures r.None? <==> CellAt(g.side, g.rows, g.cols, e.x, e.y).None?
    ensures r.Some? ==> Consistent(r.value) && r.value.rows == g.rows && r.value.cols == g.cols && r.value.side == g.side
  {
    if e.release then
      var rm := AfterRemove(g, e.x, e.y);
      if rm.0 == Unmapped then None else Some(rm.1)
    else
      AfterAdd(g, e.x, e.y, false)
  }

  /** build_activated: replays the log in order. The flag is false when an
      entry's point maps to no cell; the source then raises and the rest of
      the log is not replayed. */
  function Replay(g: Grid, log: seq<LogEntry>): (r: (Grid, bool))
    requires Consistent(g)
    ensures Consistent(r.0) && r.0.rows == g.rows && r.0.cols == g.cols && r.0.side == g.side
    decreases |log|
  {
    if log == [] then (g, true)
    else
      match Apply(g, log[0])
      case None => (g, false)
      case Some(g') => Replay(g', log[1..])
  }

  /** The replay completes exactly when every logged point maps to a cell. */
  lemma {:induction false} ReplayCompletes(g: Grid, log: seq<LogEntry>)
    requires Consistent(g)
    ensures Replay(g, log).1 <==> forall i :: 0 <= i < |log| ==> CellAt(g.side, g.rows, g.cols, log[i].x, log[i].y).Some?
    decreases |log|
  {
    if log != [] {
      match Apply(g, log[0])
      case None =>
      case Some(g') =>
        ReplayCompletes(g', log[1..]);
        assert forall i :: 1 <= i < |log| ==> log[i] == log[1..][i - 1];
    }
  }

  /** Replaying a log is replaying its first part and then the rest. */
  lemma {:induction false} ReplayAppend(g: Grid, a: seq<LogEntry>, b: seq<LogEntry>)
    requires Consistent(g)
    requires Replay(g, a).1
    ensures Replay(g, a + b) == Replay(Replay(g, a).0, b)
    decreases |a|
  {
    if a != [] {
      assert (a + b)[0] == a[0] && (a + b)[1..] == a[1..] + b;
      var g' := Apply(g, a[0]).value;
      assert Replay(g, a) == Replay(g', a[1..]);
      assert Replay(g, a + b) == Replay(g', a[1..] + b);
      ReplayAppend(g', a[1..], b);
    } else {
      assert a + b == b;
    }
  }

  /** A drop logged and then picked up again at the same point leaves the
      board as it was. */
  lemma ReplayDropThenPickUp(g: Grid, x: real, y: real)
    requires Consistent(g)
    requires CellAt(g.side, g.rows, g.cols, x, y).Some?
    ensures Replay(g, [LogEntry(x, y, false), LogEntry(x, y, true)]) == (g, true)
  {
    AddRemoveRoundTrip(g, x, y);
    var log := [LogEntry(x, y, false), LogEntry(x, y, true)];
    var g1 := AfterAdd(g, x, y, false).value;
    assert log[1..] == [LogEntry(x, y, true)];
    assert log[1..][1..] == [];
    assert Replay(g1, log[1..]) == Replay(g, []);
  }
}
