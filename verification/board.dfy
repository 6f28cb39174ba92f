/** The playing field: a grid of cell values, 0 for empty and 1..7 for a locked
    block of some piece type. Holds the collision test, the merge of a locked
    piece and the removal of full rows. */
module Board {

  /** A grid of cell values, addressed `g[row][column]`, row 0 at the top. */
  type Grid = seq<seq<int>>

  /** The offset of a piece matrix's top-left corner on the board. */
  datatype Pos = Pos(x: int, y: int)

  /** The board is 10 columns wide and 20 rows high. */
  const Width: nat := 10
  const Height: nat := 20

  /** The width the source reads off the first row (`arena[0].length`). */
  function Cols(g: Grid): nat
  {
    if |g| == 0 then 0 else |g[0]|
  }

  /** Every row is as wide as the first. */
  ghost predicate Rectangular(g: Grid)
  {
    forall i :: 0 <= i < |g| ==> |g[i]| == Cols(g)
  }

  /** Every cell holds a value of the colour table, 0..7. */
  ghost predicate CellsIn(g: Grid)
  {
    forall i, j :: 0 <= i < |g| && 0 <= j < |g[i]| ==> 0 <= g[i][j] <= 7
  }

  /** The board as the game keeps it: 20 rows of 10 cells, each in 0..7. */
  ghost predicate IsArena(g: Grid)
  {
    |g| == Height && Rectangular(g) && Cols(g) == Width && CellsIn(g)
  }

  /** A row of `w` empty cells. */
  function ZeroRow(w: nat): (r: seq<int>)
    ensures |r| == w
    ensures forall x :: 0 <= x < w ==> r[x] == 0
  {
    seq(w, _ => 0)
  }

  /** `createMatrix(w, h)`: `h` rows, each `w` empty cells. */
  function CreateMatrix(w: nat, h: nat): (r: Grid)
    ensures |r| == h
    ensures forall i :: 0 <= i < h ==> r[i] == ZeroRow(w)
    ensures Rectangular(r) && CellsIn(r)
    ensures h > 0 ==> Cols(r) == w
  {
    if h == 0 then [] else CreateMatrix(w, h - 1) + [ZeroRow(w)]
  }

  // ---------------------------------------------------------------------
  // Collision

  /** Board coordinate (`ay`, `ax`) lies on the board. */
  predicate InBounds(arena: Grid, ay: int, ax: int)
  {
    0 <= ay < |arena| && 0 <= ax < Cols(arena)
  }

  /** A piece cell may not go to (`ay`, `ax`): off the board or already taken. */
  predicate Blocked(arena: Grid, ay: int, ax: int)
    requires Rectangular(arena)
  {
    !InBounds(arena, ay, ax) || arena[ay][ax] != 0
  }

  /** Cell (`i`, `j`) of matrix `m` at `pos` is non-empty and blocked. */
  predicate Hits(arena: Grid, m: Grid, pos: Pos, i: int, j: int)
    requires Rectangular(arena)
    requires 0 <= i < |m| && 0 <= j < |m[i]|
  {
    m[i][j] != 0 && Blocked(arena, i + pos.y, j + pos.x)
  }

  /** Some non-empty cell of `m`, shifted by `pos`, is off the board or lands
      on a non-empty board cell. */
  ghost predicate Overlaps(arena: Grid, m: Grid, pos: Pos)
    requires Rectangular(arena)
  {
    exists i, j :: 0 <= i < |m| && 0 <= j < |m[i]| && Hits(arena, m, pos, i, j)
  }

  /** Scan of one matrix row from column `x` on, the inner loop of `collide`. */
  function RowCollides(arena: Grid, row: seq<int>, ay: int, ox: int, x: nat): bool
    requires Rectangular(arena)
    requires x <= |row|
    decreases |row| - x
  {
    if x == |row| then false
    else if row[x] != 0 && Blocked(arena, ay, ox + x) then true
    else RowCollides(arena, row, ay, ox, x + 1)
  }

  /** The row scan finds a blocked non-empty cell exactly when there is one
      from column `x` on. */
  lemma {:induction false} RowCollidesMeans(arena: Grid, row: seq<int>, ay: int, ox: int, x: nat)
    requires Rectangular(arena)
    requires x <= |row|
    decreases |row| - x
    ensures RowCollides(arena, row, ay, ox, x) <==>
      exists j :: x <= j < |row| && row[j] != 0 && Blocked(arena, ay, ox + j)
  {
    if x < |row| {
      RowCollidesMeans(arena, row, ay, ox, x + 1);
    }
  }

  /** Scan of the matrix rows from row `y` on, the outer loop of `collide`. */
  function CollideFrom(arena: Grid, m: Grid, pos: Pos, y: nat): bool
    requires Rectangular(arena)
    requires y <= |m|
    decreases |m| - y
  {
    if y == |m| then false
    else if RowCollides(arena, m[y], y + pos.y, pos.x, 0) then true
    else CollideFrom(arena, m, pos, y + 1)
  }

  /** The row-by-row scan finds a hit exactly when some matrix row from `y`
      on has one. */
  lemma {:induction false} CollideFromMeans(arena: Grid, m: Grid, pos: Pos, y: nat)
    requires Rectangular(arena)
    requires y <= |m|
    decreases |m| - y
    ensures CollideFrom(arena, m, pos, y) <==>
      exists i, j :: y <= i < |m| && 0 <= j < |m[i]| && Hits(arena, m, pos, i, j)
  {
    if y < |m| {
      CollideFromMeans(arena, m, pos, y + 1);
      RowCollidesMeans(arena, m[y], y + pos.y, pos.x, 0);
      if RowCollides(arena, m[y], y + pos.y, pos.x, 0) {
        var j :| 0 <= j < |m[y]| && m[y][j] != 0 && Blocked(arena, y + pos.y, pos.x + j);
        assert Hits(arena, m, pos, y, j);
      }
    }
  }

  /** `collide`: the scan of all matrix rows. */
  function Collide(arena: Grid, m: Grid, pos: Pos): bool
    requires Rectangular(arena)
  {
    CollideFrom(arena, m, pos, 0)
  }

  /** `collide` reports a collision exactly when the placed matrix overlaps
      a board cell or leaves the board. */
  lemma CollideMeans(arena: Grid, m: Grid, pos: Pos)
    requires Rectangular(arena)
    ensures Collide(arena, m, pos) <==> Overlaps(arena, m, pos)
  {
    CollideFromMeans(arena, m, pos, 0);
  }

  // ---------------------------------------------------------------------
  // Merge

  /** Board cell (`i`, `j`) lies under a non-empty cell of `m` placed at `pos`. */
  predicate Covers(m: Grid, pos: Pos, i: int, j: int)
  {
    0 <= i - pos.y < |m| && 0 <= j - pos.x < |m[i - pos.y]| && m[i - pos.y][j - pos.x] != 0
  }

  /** Writes the non-empty cells of `row` from column `x` on into board row
      `ay`, skipping those off the board: the inner loop of `merge`. */
  function MergeRow(arena: Grid, row: seq<int>, ay: int, ox: int, x: nat): (r: Grid)
    requires Rectangular(arena)
    requires x <= |row|
    decreases |row| - x
    ensures |r| == |arena|
    ensures forall i :: 0 <= i < |r| ==> |r[i]| == |arena[i]|
    ensures forall i, j :: 0 <= i < |r| && 0 <= j < |r[i]| ==>
      r[i][j] == (if i == ay && ox + x <= j < ox + |row| && row[j - ox] != 0 then row[j - ox] else arena[i][j])
  {
    if x == |row| then arena
    else
      var ax := ox + x;
      var a := if row[x] != 0 && InBounds(arena, ay, ax) then arena[ay := arena[ay][ax := row[x]]] else arena;
      assert Cols(a) == Cols(arena);
      MergeRow(a, row, ay, ox, x + 1)
  }

  /** Writes matrix rows `y..` of `m` at `pos` into the board: the outer loop of `merge`. */
  function MergeFrom(arena: Grid, m: Grid, pos: Pos, y: nat): (r: Grid)
    requires Rectangular(arena)
    requires y <= |m|
    decreases |m| - y
    ensures |r| == |arena|
    ensures forall i :: 0 <= i < |r| ==> |r[i]| == |arena[i]|
    ensures forall i, j :: 0 <= i < |r| && 0 <= j < |r[i]| ==>
      r[i][j] == (if y <= i - pos.y && Covers(m, pos, i, j) then m[i - pos.y][j - pos.x] else arena[i][j])
  {
    if y == |m| then arena
    else
      var a := MergeRow(arena, m[y], y + pos.y, pos.x, 0);
      assert Cols(a) == Cols(arena);
      MergeFrom(a, m, pos, y + 1)
  }

  /** `merge`: every non-empty cell of `m` that lands on the board is written
      there; every other board cell, and the board's shape, stay as they were. */
  function Merge(arena: Grid, m: Grid, pos: Pos): (r: Grid)
    requires Rectangular(arena)
    ensures |r| == |arena| && Rectangular(r) && Cols(r) == Cols(arena)
    ensures forall i :: 0 <= i < |r| ==> |r[i]| == |arena[i]|
    ensures forall i, j :: 0 <= i < |r| && 0 <= j < |r[i]| ==>
      r[i][j] == (if Covers(m, pos, i, j) then m[i - pos.y][j - pos.x] else arena[i][j])
    ensures CellsIn(arena) && CellsIn(m) ==> CellsIn(r)
  {
    MergeFrom(arena, m, pos, 0)
  }

  // ---------------------------------------------------------------------
  // Row sweep

  /** A row is full when none of its cells is empty. */
  predicate RowFull(row: seq<int>)
  {
    forall x :: 0 <= x < |row| ==> row[x] != 0
  }

  /** The rows that are not full, in their original order. */
  function Kept(rows: Grid): (r: Grid)
    ensures |r| <= |rows|
    ensures forall t :: 0 <= t < |r| ==> !RowFull(r[t]) && r[t] in rows
    ensures (forall t :: 0 <= t < |rows| ==> !RowFull(rows[t])) ==> r == rows
  {
    if |rows| == 0 then []
    else (if RowFull(rows[0]) then [] else [rows[0]]) + Kept(rows[1..])
  }

  /** The number of full rows. */
  function FullCount(rows: Grid): (r: nat)
    ensures r + |Kept(rows)| == |rows|
    ensures r == 0 <==> forall t :: 0 <= t < |rows| ==> !RowFull(rows[t])
  {
    if |rows| == 0 then 0
    else (if RowFull(rows[0]) then 1 else 0) + FullCount(rows[1..])
  }

  /** The board after the sweep: one empty row on top for each full row
      removed, then the remaining rows in their original order. */
  function Swept(arena: Grid): Grid
  {
    CreateMatrix(Cols(arena), FullCount(arena)) + Kept(arena)
  }

  /** After a sweep the board keeps its height and width, holds no full row
      and keeps its cells in range; a second sweep changes nothing. */
  lemma SweepShape(arena: Grid)
    requires Rectangular(arena) && Cols(arena) > 0
    ensures |Swept(arena)| == |arena|
    ensures Rectangular(Swept(arena)) && Cols(Swept(arena)) == Cols(arena)
    ensures forall t :: 0 <= t < |arena| ==> !RowFull(Swept(arena)[t])
    ensures FullCount(Swept(arena)) == 0
    ensures Swept(Swept(arena)) == Swept(arena)
    ensures CellsIn(arena) ==> CellsIn(Swept(arena))
  {
    SweptRows(arena);
    SweptStable(arena);
    SweptCellsIn(arena);
  }

  /** Every row after the sweep is as wide as the board and not full: the
      new rows are empty and the kept rows were not full. */
  lemma SweptRows(arena: Grid)
    requires Rectangular(arena) && Cols(arena) > 0
    ensures |Swept(arena)| == |arena|
    ensures forall t :: 0 <= t < |arena| ==> |Swept(arena)[t]| == Cols(arena) && !RowFull(Swept(arena)[t])
  {
    var w, k, s := Cols(arena), FullCount(arena), Swept(arena);
    forall t | 0 <= t < |s|
      ensures |s[t]| == w && !RowFull(s[t])
    {
      if t < k {
        assert s[t] == ZeroRow(w);
        assert s[t][0] == 0;
      } else {
        var row := Kept(arena)[t - k];
        assert s[t] == row;
        var i :| 0 <= i < |arena| && arena[i] == row;
      }
    }
  }

  /** With no full row left, a second sweep keeps every row. */
  lemma SweptStable(arena: Grid)
    requires Rectangular(arena) && Cols(arena) > 0
    ensures FullCount(Swept(arena)) == 0 && Swept(Swept(arena)) == Swept(arena)
  {
    var s := Swept(arena);
    SweptRows(arena);
    assert Kept(s) == s;
    assert Cols(s) == Cols(arena);
  }

  /** The sweep only moves rows of the board and adds empty ones, so cell
      values stay in range. */
  lemma SweptCellsIn(arena: Grid)
    ensures CellsIn(arena) ==> CellsIn(Swept(arena))
  {
    var k, s := FullCount(arena), Swept(arena);
    if CellsIn(arena) {
      forall t, j | 0 <= t < |s| && 0 <= j < |s[t]|
        ensures 0 <= s[t][j] <= 7
      {
        if t < k {
          assert s[t] == ZeroRow(Cols(arena));
        } else {
          assert s[t] == Kept(arena)[t - k];
          var i :| 0 <= i < |arena| && arena[i] == s[t];
        }
      }
    }
  }
}
