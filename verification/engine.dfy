/** The game state as one record, the invariant the game keeps on it, the
    per-row progression (score, lines, level, drop interval) and the row
    sweep with its scoring, both as a function and as the source's loop. */
module Engine {
  import opened Util
  import opened Board
  import opened Pieces

  /** The sound effects the engine triggers, in the order it triggers them. */
  datatype Sound = MoveTone | RotateTone | LandTone | ClearTone | GameOverTone | StartTone

  /** A piece waiting in the preview slot: its matrix and colour index. */
  datatype Piece = Piece(matrix: Grid, colorIndex: int)

  /** A freshly drawn piece of type `k`. */
  function Spawn(k: Kind): Piece
  {
    Piece(CreatePiece(k), ColorIndex(k))
  }

  /** Everything the game keeps between events. `matrix`, `pos` and
      `colorIndex` describe the falling piece; `next` is the preview piece,
      missing until the first spawn; `sounds` logs the effects triggered. */
  datatype State = State(
    arena: Grid,
    matrix: Grid,
    pos: Pos,
    colorIndex: int,
    next: Option<Piece>,
    score: int,
    level: int,
    lines: int,
    dropInterval: real,
    dropCounter: int,
    lastTime: int,
    paused: bool,
    gameStarted: bool,
    sounds: seq<Sound>)

  /** Drop interval set by a new game, in milliseconds. */
  const StartInterval: real := 1000.0

  /** The drop interval never goes below this. */
  const MinInterval: real := 100.0

  /** Score, lines, level and drop interval as the game keeps them: the
      level is one more than the number of completed tens of lines. */
  ghost predicate Progressing(s: State)
  {
    && 0 <= s.score
    && 0 <= s.lines
    && s.level == 1 + s.lines / 10
    && MinInterval <= s.dropInterval <= StartInterval
  }

  /** The invariant of every reachable state: a 20 x 10 board of values in
      0..7, a falling piece that is playable once the game has started, a
      playable preview piece once there is one, and consistent progression. */
  ghost predicate Valid(s: State)
  {
    WellFormed(s.arena, s.matrix, s.gameStarted, s.next) && Progressing(s)
  }

  /** The board and piece part of `Valid`. */
  ghost predicate WellFormed(arena: Grid, matrix: Grid, gameStarted: bool, next: Option<Piece>)
  {
    && IsArena(arena)
    && CellsIn(matrix)
    && (gameStarted ==> Playable(matrix))
    && (next.Some? ==> Playable(next.value.matrix))
  }

  /** The game is running: started and not paused. Only then do a frame
      and the piece keys do anything. */
  predicate Running(s: State)
  {
    s.gameStarted && !s.paused
  }

  /** `gameOver`: the game stops and the game-over sound plays; nothing
      else in the state changes. */
  function GameOver(s: State): (r: State)
    ensures !r.gameStarted && !Running(r)
    ensures r.sounds == s.sounds + [GameOverTone]
    ensures r == s.(gameStarted := false, sounds := r.sounds)
    ensures Valid(s) ==> Valid(r)
  {
    s.(gameStarted := false, sounds := s.sounds + [GameOverTone])
  }

  // ---------------------------------------------------------------------
  // Progression

  /** The speed-up applied at every tenth line: 80% of the interval, but
      never below 100 ms. */
  function SpeedUp(interval: real): (r: real)
    ensures r >= MinInterval
    ensures interval >= MinInterval ==> r <= interval
    ensures interval * 0.8 >= MinInterval ==> r == interval * 0.8
    ensures interval * 0.8 < MinInterval ==> r == MinInterval
  {
    if MinInterval > interval * 0.8 then MinInterval else interval * 0.8
  }

  /** Bookkeeping for one cleared row worth `rowCount * 10` points: one more
      line, a clear sound, and a level up with a speed-up when the line
      count reaches a multiple of ten. */
  function ClearRow(s: State, rowCount: int): State
  {
    var lines := s.lines + 1;
    var s1 := s.(score := s.score + rowCount * 10, lines := lines, sounds := s.sounds + [ClearTone]);
    if lines % 10 == 0 then s1.(level := s.level + 1, dropInterval := SpeedUp(s.dropInterval)) else s1
  }

  /** The bookkeeping for `n` rows cleared in one sweep, the `i`-th row
      (from 0) being worth `2^i * 10` points. */
  function ClearRows(s: State, n: nat): State
  {
    if n == 0 then s else ClearRow(ClearRows(s, n - 1), Pow2(n - 1))
  }

  /** Crossing from `l` to `l + 1` lines completes a ten exactly when
      `l + 1` is a multiple of ten. */
  lemma TenStep(l: int)
    requires l >= 0
    ensures (l + 1) / 10 == l / 10 + (if (l + 1) % 10 == 0 then 1 else 0)
  {
  }

  /** Clearing `n` rows in one sweep from a consistent progression keeps the
      level at one more than the completed tens of lines and keeps the drop
      interval within 100..its old value. */
  lemma {:induction false} ClearRowsProgress(s: State, n: nat)
    ensures Progressing(s) ==> var r := ClearRows(s, n);
      && Progressing(r)
      && MinInterval <= r.dropInterval <= s.dropInterval
  {
    if n > 0 && Progressing(s) {
      ClearRowsProgress(s, n - 1);
      ClearRowProgress(ClearRows(s, n - 1), Pow2(n - 1));
    }
  }

  /** One row clear keeps the progression consistent and never slows the
      game down. */
  lemma ClearRowProgress(s: State, rowCount: nat)
    requires Progressing(s)
    ensures Progressing(ClearRow(s, rowCount))
    ensures MinInterval <= ClearRow(s, rowCount).dropInterval <= s.dropInterval
  {
    TenStep(s.lines);
  }

  /** The row bookkeeping reads and writes only score, lines, level, drop
      interval and sounds: two states that agree on those give results that
      agree on them, and every other field comes through unchanged. */
  lemma {:induction false} ClearRowsFrame(s: State, t: State, n: nat)
    requires s.score == t.score && s.lines == t.lines && s.level == t.level
    requires s.dropInterval == t.dropInterval && s.sounds == t.sounds
    ensures var a := ClearRows(s, n);
      ClearRows(t, n) == t.(score := a.score, lines := a.lines, level := a.level,
                            dropInterval := a.dropInterval, sounds := a.sounds)
  {
    if n > 0 {
      ClearRowsFrame(s, t, n - 1);
      ClearRowFrame(ClearRows(s, n - 1), ClearRows(t, n - 1), Pow2(n - 1));
    }
  }

  /** The frame of one row clear. */
  lemma ClearRowFrame(s: State, t: State, rowCount: int)
    requires s.score == t.score && s.lines == t.lines && s.level == t.level
    requires s.dropInterval == t.dropInterval && s.sounds == t.sounds
    ensures var a := ClearRow(s, rowCount);
      ClearRow(t, rowCount) == t.(score := a.score, lines := a.lines, level := a.level,
                                  dropInterval := a.dropInterval, sounds := a.sounds)
  {
  }

  /** One row clear on a given line count: a worked instance of the
      level-up and speed-up rule (10 lines: level 2, 800 ms; 20 lines:
      level 3, 640 ms). */
  lemma LevelUpExamples(s: State)
    requires s.lines == 9 && s.level == 1 && s.dropInterval == StartInterval
    ensures var r := ClearRow(s, 1);
      r.lines == 10 && r.level == 2 && r.dropInterval == 800.0
    ensures var r := ClearRow(ClearRow(s, 1).(lines := 19), 1);
      r.lines == 20 && r.level == 3 && r.dropInterval == 640.0
  {
  }

  // ---------------------------------------------------------------------
  // Row sweep

  /** `arenaSweep`: removes the full rows, adds an empty row on top for
      each, and updates score, lines, level and drop interval. */
  function SweepState(s: State): (r: State)
    requires Rectangular(s.arena) && Cols(s.arena) > 0
    ensures r.arena == Swept(s.arena)
    ensures |r.arena| == |s.arena| && Rectangular(r.arena) && Cols(r.arena) == Cols(s.arena)
    ensures forall t :: 0 <= t < |r.arena| ==> !RowFull(r.arena[t])
    ensures var k := FullCount(s.arena);
      && r.score == s.score + 10 * (Pow2(k) - 1)
      && r.lines == s.lines + k
      && r.sounds == s.sounds + Repeat(ClearTone, k)
    ensures Progressing(s) ==> MinInterval <= r.dropInterval <= s.dropInterval
    ensures r == s.(arena := r.arena, score := r.score, lines := r.lines,
      level := r.level, dropInterval := r.dropInterval, sounds := r.sounds)
    ensures Valid(s) ==> Valid(r)
  {
    SweepShape(s.arena);
    var k := FullCount(s.arena);
    ClearRowsScore(s, k);
    ClearRowsProgress(s, k);
    ClearRowsFrame(s, s, k);
    ClearRows(s, k).(arena := Swept(s.arena))
  }

  /** The swept state is the bookkeeping for the full rows on top of the
      swept board. */
  lemma SweepStateUnfold(s: State)
    requires Rectangular(s.arena) && Cols(s.arena) > 0
    ensures SweepState(s) == ClearRows(s, FullCount(s.arena)).(arena := Swept(s.arena))
  {
  }

  /** Score, lines and sounds of `ClearRows` without any assumption on the
      starting progression. */
  lemma {:induction false} ClearRowsScore(s: State, n: nat)
    ensures var r := ClearRows(s, n);
      && r.score == s.score + 10 * (Pow2(n) - 1)
      && r.lines == s.lines + n
      && r.sounds == s.sounds + Repeat(ClearTone, n)
      && r.arena == s.arena
  {
    if n > 0 {
      ClearRowsScore(s, n - 1);
      assert Repeat(ClearTone, n) == Repeat(ClearTone, n - 1) + [ClearTone];
    }
  }

  /** The inner loop of `arenaSweep`: a row is full unless some cell is 0. */
  method RowIsFull(row: seq<int>) returns (full: bool)
    ensures full <==> RowFull(row)
  {
    var x := 0;
    while x < |row|
      invariant 0 <= x <= |row|
      invariant forall k :: 0 <= k < x ==> row[k] != 0
    {
      if row[x] == 0 {
        return false;
      }
      x := x + 1;
    }
    return true;
  }

  /** Dropping the first remaining row of a suffix either drops a full row
      (one fewer full row, same kept rows) or keeps it in front. */
  lemma SuffixStep(a: Grid, p: nat)
    requires 0 < p <= |a|
    ensures FullCount(a[p - 1..]) == (if RowFull(a[p - 1]) then 1 else 0) + FullCount(a[p..])
    ensures Kept(a[p - 1..]) == (if RowFull(a[p - 1]) then [] else [a[p - 1]]) + Kept(a[p..])
  {
    assert a[p - 1..][0] == a[p - 1];
    assert a[p - 1..][1..] == a[p..];
  }

  /** The state of the bottom-up sweep of board `a` of width `w`: rows
      `a[p..]` have been examined and `d` of them were full; the working
      board holds `d` empty rows, the unexamined rows and the kept examined
      rows; `y` is the row examined next. Once `p` reaches 0 only the empty
      rows on top are left, and those are never full. */
  ghost predicate SweepInv(a: Grid, w: nat, arena: Grid, p: int, d: int, y: int)
  {
    && 0 <= p <= |a|
    && d == FullCount(a[p..])
    && arena == CreateMatrix(w, d) + a[..p] + Kept(a[p..])
    && (p > 0 ==> y == p + d - 1)
    && (p == 0 ==> -1 <= y < d)
  }

  /** The sweep starts at the bottom row with nothing examined. */
  lemma SweepStart(a: Grid, w: nat)
    ensures SweepInv(a, w, a, |a|, 0, |a| - 1)
  {
    assert a[|a|..] == [];
    assert a[..|a|] == a;
  }

  /** The working board has the height of the board and `y` indexes it. */
  lemma SweepBounds(a: Grid, w: nat, arena: Grid, p: int, d: int, y: int)
    requires SweepInv(a, w, arena, p, d, y)
    ensures |arena| == |a| && y < |arena|
  {
  }

  /** Once every row has been examined, the rows left to examine are the
      emptied ones, and those are not full. */
  lemma SweepTop(a: Grid, w: nat, arena: Grid, p: int, d: int, y: int)
    requires w > 0
    requires SweepInv(a, w, arena, p, d, y)
    requires p == 0 && y >= 0
    ensures 0 <= y < |arena| && !RowFull(arena[y])
  {
    assert arena[y] == ZeroRow(w);
    assert arena[y][0] == 0;
  }

  /** A full row is spliced out and an empty row goes on top: one more full
      row counted, one more row examined, and the same index is examined
      again. */
  lemma SweepFull(a: Grid, w: nat, arena: Grid, p: int, d: int, y: int)
    requires Rectangular(a) && Cols(a) == w
    requires SweepInv(a, w, arena, p, d, y)
    requires p > 0
    requires RowFull(arena[y])
    ensures 0 <= y < |arena| && |arena[y]| == w
    ensures SweepInv(a, w, [ZeroRow(|arena[y]|)] + arena[..y] + arena[y + 1..], p - 1, d + 1, y)
  {
    var z, front, row, rest := CreateMatrix(w, d), a[..p - 1], a[p - 1], Kept(a[p..]);
    Regroup(arena, z, front, row, rest, a[..p]);
    assert y == |z + front|;
    Splice(arena, z + front, row, rest);
    assert |row| == w;
    SuffixStep(a, p);
    assert Kept(a[p - 1..]) == rest;
    ZeroRowsGrow(w, d);
    Reassemble([ZeroRow(w)] + z, ZeroRow(w), z, front, rest);
  }

  /** A board laid out as empty rows, examined rows, one more row and the
      kept rows can be regrouped around that one row. */
  lemma Regroup(g: Grid, z: Grid, front: Grid, row: seq<int>, rest: Grid, prefix: Grid)
    requires prefix == front + [row]
    requires g == z + prefix + rest
    ensures g == z + front + [row] + rest && g == z + front + ([row] + rest)
  {
  }

  /** Cutting a board at the row between a top part and a bottom part gives
      back the parts. */
  lemma Splice(g: Grid, top: Grid, row: seq<int>, bottom: Grid)
    requires g == top + [row] + bottom
    ensures g[|top|] == row && g[..|top|] == top && g[|top| + 1..] == bottom
  {
    assert g[..|top|] == top;
    assert g[|top| + 1..] == bottom;
  }

  /** One more empty row on top is one more row of the empty matrix. */
  lemma ZeroRowsGrow(w: nat, d: nat)
    ensures [ZeroRow(w)] + CreateMatrix(w, d) == CreateMatrix(w, d + 1)
  {
    var l, r := [ZeroRow(w)] + CreateMatrix(w, d), CreateMatrix(w, d + 1);
    assert |l| == |r|;
    forall i | 0 <= i < |l|
      ensures l[i] == r[i]
    {
    }
  }

  /** Putting a row on top of a board's parts puts it on top of the board. */
  lemma Reassemble(top: Grid, zero: seq<int>, z: Grid, front: Grid, rest: Grid)
    requires top == [zero] + z
    ensures [zero] + (z + front) + rest == top + front + rest
  {
  }

  /** A row that is not full stays, and the next row up is examined. */
  lemma SweepKeep(a: Grid, w: nat, arena: Grid, p: int, d: int, y: int)
    requires SweepInv(a, w, arena, p, d, y)
    requires y >= 0
    requires 0 <= y < |arena| && !RowFull(arena[y])
    ensures SweepInv(a, w, arena, if p > 0 then p - 1 else 0, d, y - 1)
  {
    if p > 0 {
      var z, front, row, rest := CreateMatrix(w, d), a[..p - 1], a[p - 1], Kept(a[p..]);
      Regroup(arena, z, front, row, rest, a[..p]);
      Splice(arena, z + front, row, rest);
      SuffixStep(a, p);
    }
  }

  /** When the scan has passed the top row the working board is the sweep. */
  lemma SweepEnd(a: Grid, w: nat, arena: Grid, p: int, d: int, y: int)
    requires Cols(a) == w
    requires SweepInv(a, w, arena, p, d, y)
    requires y < 0
    ensures arena == Swept(a) && d == FullCount(a)
  {
    assert p == 0;
    assert a[..0] == [] && a[0..] == a;
  }

  /** One pass of the sweep loop at row `y`: a full row is spliced out and
      an empty row put on top, and the same row is examined next; any other
      row stays and the row above is examined next. */
  method SweepRow(ghost a: Grid, w: nat, arena: Grid, ghost p: int, ghost d: int, y: int)
    returns (full: bool, next: Grid)
    requires Rectangular(a) && Cols(a) == w && w > 0
    requires SweepInv(a, w, arena, p, d, y) && y >= 0
    ensures full ==> p > 0 && SweepInv(a, w, next, p - 1, d + 1, y)
    ensures !full ==> SweepInv(a, w, next, if p > 0 then p - 1 else 0, d, y - 1)
  {
    SweepBounds(a, w, arena, p, d, y);
    full := RowIsFull(arena[y]);
    if p == 0 {
      SweepTop(a, w, arena, p, d, y);
    }
    if full {
      SweepFull(a, w, arena, p, d, y);
      next := [ZeroRow(|arena[y]|)] + arena[..y] + arena[y + 1..];
    } else {
      SweepKeep(a, w, arena, p, d, y);
      next := arena;
    }
  }

  /** `arenaSweep` as the source runs it: walk the rows bottom-up; a full
      row is spliced out, an emptied row of the same width is put on top,
      and the same index is examined again; every removed row scores
      `rowCount * 10` with `rowCount` doubling. The result is the sweep. */
  method SweepLoop(s: State) returns (r: State)
    requires Rectangular(s.arena) && Cols(s.arena) > 0
    ensures r == SweepState(s)
  {
    var w := Cols(s.arena);
    var arena := s.arena;
    var st := s;
    var rowCount := 1;
    var y := |arena| - 1;
    // `p`: rows s.arena[p..] have been examined; `d`: how many were full.
    ghost var p := |s.arena|;
    ghost var d := 0;
    SweepStart(s.arena, w);
    while y >= 0
      invariant SweepInv(s.arena, w, arena, p, d, y)
      invariant rowCount == Pow2(d)
      invariant st == ClearRows(s, d)
      decreases y + p + 1
    {
      var full, next := SweepRow(s.arena, w, arena, p, d, y);
      arena := next;
      if full {
        st := ClearRow(st, rowCount);
        rowCount := rowCount * 2;
        // the source's `++y` undoes the loop's `--y`: the same index is examined again
      } else {
        y := y - 1;
      }
      p, d := if full || p > 0 then p - 1 else 0, if full then d + 1 else d;
    }
    SweepEnd(s.arena, w, arena, p, d, y);
    SweepStateUnfold(s);
    r := st.(arena := arena);
  }
}
