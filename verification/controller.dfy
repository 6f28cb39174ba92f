/** The moves of the falling piece: spawning the next piece, sideways moves,
    rotation with its wall kick, the soft and the hard drop, locking, and
    the ghost projection that shows where a hard drop would land. */
module Controller {
  import opened Util
  import opened Board
  import opened Pieces
  import opened Engine

  /** The two random draws of one `playerReset`: `first` is the type drawn
      for the falling piece when there is no preview piece yet, `upcoming`
      the type of the new preview piece. */
  datatype Dice = Dice(first: Kind, upcoming: Kind)

  /** What the piece operations read off the state without failing: a
      rectangular board with at least one column, and a preview matrix with
      at least one row once there is a preview piece. */
  ghost predicate Ready(s: State)
  {
    && Rectangular(s.arena)
    && Cols(s.arena) > 0
    && (s.next.Some? ==> |s.next.value.matrix| > 0)
  }

  // ---------------------------------------------------------------------
  // Spawning

  /** The column where a matrix spawns: the board's middle column less half
      the matrix width, both halves rounded down. */
  function SpawnX(arena: Grid, m: Grid): int
  {
    Cols(arena) / 2 - Cols(m) / 2
  }

  /** `playerReset`: the preview piece (or, before the first spawn, a piece
      of type `dice.first`) becomes the falling piece at the top middle of
      the board, a piece of type `dice.upcoming` becomes the preview, and
      the game is over when the new piece overlaps the board. */
  function PlayerReset(s: State, dice: Dice): (r: State)
    requires Ready(s)
    ensures var p := if s.next.Some? then s.next.value else Spawn(dice.first);
      r.matrix == p.matrix && r.colorIndex == p.colorIndex
    ensures r.next == Some(Spawn(dice.upcoming))
    ensures r.pos == Pos(SpawnX(s.arena, r.matrix), 0)
    ensures r.gameStarted <==> s.gameStarted && !Collide(s.arena, r.matrix, r.pos)
    ensures r.sounds == s.sounds + (if Collide(s.arena, r.matrix, r.pos) then [GameOverTone] else [])
    ensures r == s.(matrix := r.matrix, colorIndex := r.colorIndex, next := r.next, pos := r.pos,
                    gameStarted := r.gameStarted, sounds := r.sounds)
    ensures Ready(r)
  {
    CreatePiecePlayable(dice.upcoming);
    var p := if s.next.Some? then s.next.value else Spawn(dice.first);
    var s1 := s.(matrix := p.matrix, colorIndex := p.colorIndex, next := Some(Spawn(dice.upcoming)),
                 pos := Pos(SpawnX(s.arena, p.matrix), 0));
    if Collide(s1.arena, s1.matrix, s1.pos) then GameOver(s1) else s1
  }

  /** Spawning keeps the game invariant: both the preview piece and a piece
      straight from the catalogue are playable. */
  lemma ResetValid(s: State, dice: Dice)
    requires Valid(s)
    ensures Valid(PlayerReset(s, dice))
  {
    CreatePiecePlayable(dice.first);
    CreatePiecePlayable(dice.upcoming);
  }

  /** On the 10-column board the I piece spawns in column 3 and every other
      piece in column 4, so each spans the middle columns 4 and 5. */
  lemma SpawnColumns(arena: Grid, k: Kind)
    requires Cols(arena) == Width
    ensures SpawnX(arena, CreatePiece(k)) == if k == I then 3 else 4
  {
  }

  /** A piece matrix spawned at the top middle of an empty 20 x 10 board, or
      moved down from there by up to 16 rows, overlaps nothing. */
  lemma EmptyBoardIsFree(arena: Grid, m: Grid, y: int)
    requires IsArena(arena)
    requires forall i, j :: 0 <= i < |arena| && 0 <= j < |arena[i]| ==> arena[i][j] == 0
    requires Playable(m)
    requires 0 <= y <= Height - 4
    ensures !Collide(arena, m, Pos(SpawnX(arena, m), y))
  {
    var pos := Pos(SpawnX(arena, m), y);
    CollideMeans(arena, m, pos);
    forall i, j | 0 <= i < |m| && 0 <= j < |m[i]|
      ensures !Hits(arena, m, pos, i, j)
    {
      assert InBounds(arena, i + pos.y, j + pos.x);
    }
  }

  // ---------------------------------------------------------------------
  // Sideways moves

  /** `playerMove`: shift the piece by `offset` columns, or leave everything
      as it was when the shifted piece would overlap the board or leave it. */
  function PlayerMove(s: State, offset: int): (r: State)
    requires Rectangular(s.arena)
    ensures r == s <==> Collide(s.arena, s.matrix, Pos(s.pos.x + offset, s.pos.y))
    ensures r == s || (r == s.(pos := Pos(s.pos.x + offset, s.pos.y), sounds := s.sounds + [MoveTone])
                       && !Collide(r.arena, r.matrix, r.pos))
    ensures Valid(s) ==> Valid(r)
  {
    var moved := Pos(s.pos.x + offset, s.pos.y);
    if Collide(s.arena, s.matrix, moved) then s
    else s.(pos := moved, sounds := s.sounds + [MoveTone])
  }

  /** A move that went through can be taken back: moving the other way from
      there returns the piece to where it was, since that place was free;
      only the two move sounds remain. */
  lemma MoveThereAndBack(s: State, offset: int)
    requires Rectangular(s.arena)
    requires !Collide(s.arena, s.matrix, s.pos)
    requires !Collide(s.arena, s.matrix, Pos(s.pos.x + offset, s.pos.y))
    ensures PlayerMove(PlayerMove(s, offset), -offset) == s.(sounds := s.sounds + [MoveTone, MoveTone])
  {
    var t := PlayerMove(s, offset);
    assert Pos(t.pos.x + -offset, t.pos.y) == s.pos;
  }

  // ---------------------------------------------------------------------
  // Rotation and wall kick

  /** The search loop of `playerRotate` from the column `x` on, `offset` being
      the next step it would take: stop at the first column where the
      turned matrix fits; after a failed column step by `offset` and grow the
      step by one in the other direction; give up once the step to the right
      exceeds the matrix width. */
  function Kick(arena: Grid, m: Grid, y: int, x: int, offset: int): (r: Option<int>)
    requires Rectangular(arena)
    requires offset != 0
    requires offset > 0 ==> offset <= Cols(m) + 1
    requires offset < 0 ==> -offset <= Cols(m) + 2
    decreases Cols(m) + 3 - (if offset > 0 then offset else -offset)
    ensures r.Some? ==> !Collide(arena, m, Pos(r.value, y))
  {
    if !Collide(arena, m, Pos(x, y)) then Some(x)
    else
      var next := -(offset + (if offset > 0 then 1 else -1));
      if next > Cols(m) then None
      else Kick(arena, m, y, x + offset, next)
  }

  /** The shift from the starting column of the `t`-th column the kick
      tries: 0, +1, -1, +2, -2, ... */
  function Shift(t: int): int
  {
    if t % 2 == 1 then (t + 1) / 2 else -(t / 2)
  }

  /** The step the kick takes after the `t`-th column fails: +1, -2, +3, ... */
  function Step(t: nat): int
  {
    if t % 2 == 0 then t + 1 else -(t + 1)
  }

  /** How many columns the kick tries for a matrix `w` cells wide: it gives
      up once the next step to the right would be wider than the matrix. */
  function Tries(w: nat): nat
  {
    if w < 2 then 2 else if w % 2 == 0 then w else w + 1
  }

  /** The shifts the kick tries for a matrix `w` cells wide, in order. */
  function Candidates(w: nat): (r: seq<int>)
    ensures |r| == Tries(w)
    ensures forall t :: 0 <= t < |r| ==> r[t] == Shift(t)
  {
    seq(Tries(w), t => Shift(t))
  }

  /** The first column `x0 + cs[t]` where `m` fits at row `y`, if any. */
  function FirstFree(arena: Grid, m: Grid, y: int, x0: int, cs: seq<int>): Option<int>
    requires Rectangular(arena)
  {
    if |cs| == 0 then None
    else if !Collide(arena, m, Pos(x0 + cs[0], y)) then Some(x0 + cs[0])
    else FirstFree(arena, m, y, x0, cs[1..])
  }

  /** The first-fit search finds nothing exactly when every candidate is
      blocked, and otherwise the first free candidate. */
  lemma {:induction false} FirstFreeMeans(arena: Grid, m: Grid, y: int, x0: int, cs: seq<int>)
    requires Rectangular(arena)
    ensures var r := FirstFree(arena, m, y, x0, cs);
      && (r.None? <==> forall t :: 0 <= t < |cs| ==> Collide(arena, m, Pos(x0 + cs[t], y)))
      && (r.Some? ==> exists t :: 0 <= t < |cs| && r.value == x0 + cs[t] && FitsFirst(arena, m, y, x0, cs, t))
  {
    if |cs| > 0 {
      if !Collide(arena, m, Pos(x0 + cs[0], y)) {
        assert FitsFirst(arena, m, y, x0, cs, 0);
      } else {
        FirstFreeMeans(arena, m, y, x0, cs[1..]);
        var r := FirstFree(arena, m, y, x0, cs[1..]);
        if r.Some? {
          FitsLater(arena, m, y, x0, cs, r.value);
        } else {
          assert forall t :: 1 <= t < |cs| ==> cs[t] == cs[1..][t - 1];
        }
      }
    }
  }

  /** A first fit among the candidates after a blocked first candidate is a
      first fit among all of them, one place further on. */
  lemma FitsLater(arena: Grid, m: Grid, y: int, x0: int, cs: seq<int>, x: int)
    requires Rectangular(arena)
    requires |cs| > 0 && Collide(arena, m, Pos(x0 + cs[0], y))
    requires exists t :: 0 <= t < |cs[1..]| && x == x0 + cs[1..][t] && FitsFirst(arena, m, y, x0, cs[1..], t)
    ensures exists t :: 0 <= t < |cs| && x == x0 + cs[t] && FitsFirst(arena, m, y, x0, cs, t)
  {
    var t :| 0 <= t < |cs[1..]| && x == x0 + cs[1..][t] && FitsFirst(arena, m, y, x0, cs[1..], t);
    assert FitsFirst(arena, m, y, x0, cs, t + 1);
  }

  /** Column `x0 + cs[t]` is free and every earlier candidate is blocked. */
  ghost predicate FitsFirst(arena: Grid, m: Grid, y: int, x0: int, cs: seq<int>, t: int)
    requires Rectangular(arena)
    requires 0 <= t < |cs|
  {
    && !Collide(arena, m, Pos(x0 + cs[t], y))
    && forall u :: 0 <= u < t ==> Collide(arena, m, Pos(x0 + cs[u], y))
  }

  /** The kick's step sequence: each step is the previous one grown by one
      and turned round, it moves from the `t`-th candidate column to the
      next, and the step to the right first exceeds the width `w` right
      after the last of the `Tries(w)` columns. */
  lemma StepNext(t: nat, w: nat)
    requires t < Tries(w)
    ensures Step(t) != 0
    ensures Step(t) > 0 ==> Step(t) <= w + 1
    ensures Step(t) < 0 ==> -Step(t) <= w + 2
    ensures -(Step(t) + (if Step(t) > 0 then 1 else -1)) == Step(t + 1)
    ensures Step(t + 1) > w <==> t + 1 == Tries(w)
    ensures Shift(t) + Step(t) == Shift(t + 1)
  {
  }

  /** From its `t`-th try on, the kick loop is the first-fit search over the
      remaining candidate shifts. */
  lemma {:induction false} KickFrom(arena: Grid, m: Grid, y: int, x0: int, t: nat)
    requires Rectangular(arena)
    requires t < Tries(Cols(m))
    decreases Tries(Cols(m)) - t
    ensures Kick(arena, m, y, x0 + Shift(t), Step(t)) == FirstFree(arena, m, y, x0, Candidates(Cols(m))[t..])
  {
    var w := Cols(m);
    var cs := Candidates(w);
    StepNext(t, w);
    var rest := cs[t..];
    assert rest[0] == Shift(t);
    assert rest[1..] == cs[t + 1..];
    if Collide(arena, m, Pos(x0 + Shift(t), y)) {
      if t + 1 < Tries(w) {
        KickFrom(arena, m, y, x0, t + 1);
        assert x0 + Shift(t) + Step(t) == x0 + Shift(t + 1);
      } else {
        assert cs[t + 1..] == [];
      }
    }
  }

  /** The whole kick loop, started with step 1, is the first-fit search over
      `Candidates` of the matrix width. */
  lemma KickIsFirstFit(arena: Grid, m: Grid, y: int, x0: int)
    requires Rectangular(arena)
    ensures Kick(arena, m, y, x0, 1) == FirstFree(arena, m, y, x0, Candidates(Cols(m)))
  {
    KickFrom(arena, m, y, x0, 0);
    assert Candidates(Cols(m))[0..] == Candidates(Cols(m));
  }

  /** The 2-wide O tries its own column and one to the right; the 3-wide
      and 4-wide pieces try their column, +1, -1 and +2. */
  lemma KickCandidates()
    ensures Candidates(2) == [0, 1]
    ensures Candidates(3) == [0, 1, -1, 2]
    ensures Candidates(4) == [0, 1, -1, 2]
  {
  }

  /** `playerRotate(dir)`: turn the piece, then try the kick columns in
      order; the first that fits is taken with a rotate sound; when none
      fits, the piece is turned back the other way at its old position. */
  function PlayerRotate(s: State, dir: int): (r: State)
    requires Rectangular(s.arena) && Square(s.matrix)
    ensures r.arena == s.arena && r.pos.y == s.pos.y
  {
    var m := Rotate(s.matrix, dir);
    match Kick(s.arena, m, s.pos.y, s.pos.x, 1)
    case Some(x) => s.(matrix := m, pos := Pos(x, s.pos.y), sounds := s.sounds + [RotateTone])
    case None => s.(matrix := Rotate(m, -dir))
  }

  /** A turn either goes through at the first kick column where the turned
      piece fits, with a rotate sound, or, when it fits at none of them, is
      turned back; for a non-zero direction that leaves the state as it was. */
  lemma RotateCommitsOrReverts(s: State, dir: int)
    requires Rectangular(s.arena) && Square(s.matrix)
    ensures var r := PlayerRotate(s, dir);
      var m := Rotate(s.matrix, dir);
      var cs := Candidates(Cols(m));
      || (&& r == s.(matrix := m, pos := r.pos, sounds := s.sounds + [RotateTone])
          && exists t :: 0 <= t < |cs| && r.pos.x == s.pos.x + cs[t] && FitsFirst(s.arena, m, s.pos.y, s.pos.x, cs, t))
      || (&& r == s.(matrix := Rotate(m, -dir))
          && forall t :: 0 <= t < |cs| ==> Collide(s.arena, m, Pos(s.pos.x + cs[t], s.pos.y)))
    ensures dir != 0 && PlayerRotate(s, dir).sounds == s.sounds ==> PlayerRotate(s, dir) == s
  {
    var m := Rotate(s.matrix, dir);
    if Kick(s.arena, m, s.pos.y, s.pos.x, 1).Some? {
      RotateCommits(s, dir);
    } else {
      RotateReverts(s, dir);
    }
    RotateSilentUndoes(s, dir);
  }

  /** When some kick column fits, the turned piece is placed at the first
      such column, with a rotate sound. */
  lemma RotateCommits(s: State, dir: int)
    requires Rectangular(s.arena) && Square(s.matrix)
    requires Kick(s.arena, Rotate(s.matrix, dir), s.pos.y, s.pos.x, 1).Some?
    ensures var r := PlayerRotate(s, dir);
      var m := Rotate(s.matrix, dir);
      var cs := Candidates(Cols(m));
      && r == s.(matrix := m, pos := r.pos, sounds := s.sounds + [RotateTone])
      && exists t :: 0 <= t < |cs| && r.pos.x == s.pos.x + cs[t] && FitsFirst(s.arena, m, s.pos.y, s.pos.x, cs, t)
  {
    var m := Rotate(s.matrix, dir);
    var cs := Candidates(Cols(m));
    var x := Kick(s.arena, m, s.pos.y, s.pos.x, 1).value;
    KickIsFirstFit(s.arena, m, s.pos.y, s.pos.x);
    FirstFreeMeans(s.arena, m, s.pos.y, s.pos.x, cs);
    var t :| 0 <= t < |cs| && x == s.pos.x + cs[t] && FitsFirst(s.arena, m, s.pos.y, s.pos.x, cs, t);
    var r := PlayerRotate(s, dir);
    assert r == s.(matrix := m, pos := Pos(x, s.pos.y), sounds := s.sounds + [RotateTone]);
    assert r.pos.x == s.pos.x + cs[t];
  }

  /** When no kick column fits, the piece is turned back at its old place,
      and every candidate column is blocked. */
  lemma RotateReverts(s: State, dir: int)
    requires Rectangular(s.arena) && Square(s.matrix)
    requires Kick(s.arena, Rotate(s.matrix, dir), s.pos.y, s.pos.x, 1).None?
    ensures var m := Rotate(s.matrix, dir);
      var cs := Candidates(Cols(m));
      && PlayerRotate(s, dir) == s.(matrix := Rotate(m, -dir))
      && forall t :: 0 <= t < |cs| ==> Collide(s.arena, m, Pos(s.pos.x + cs[t], s.pos.y))
  {
    var m := Rotate(s.matrix, dir);
    KickIsFirstFit(s.arena, m, s.pos.y, s.pos.x);
    FirstFreeMeans(s.arena, m, s.pos.y, s.pos.x, Candidates(Cols(m)));
  }

  /** A turn by a non-zero direction that plays no sound is one that was
      turned back, and turning back restores the matrix: nothing changes. */
  lemma RotateSilentUndoes(s: State, dir: int)
    requires Rectangular(s.arena) && Square(s.matrix)
    ensures dir != 0 && PlayerRotate(s, dir).sounds == s.sounds ==> PlayerRotate(s, dir) == s
  {
    var m := Rotate(s.matrix, dir);
    if dir != 0 && Kick(s.arena, m, s.pos.y, s.pos.x, 1).None? {
      RotateUndo(s.matrix, dir);
      assert s.(matrix := Rotate(m, -dir)) == s;
    }
  }

  /** Turning keeps the game invariant: a turned playable matrix is playable. */
  lemma RotateValid(s: State, dir: int)
    requires Valid(s) && Square(s.matrix)
    ensures Valid(PlayerRotate(s, dir))
  {
    var m := Rotate(s.matrix, dir);
    RotateKeepsCells(s.matrix, dir);
    RotateKeepsCells(m, -dir);
  }

  /** The turned matrix of every catalogue piece has the width of the piece:
      the O piece kicks over 2 columns, I over 4 and the rest over 3. */
  lemma RotatedWidth(k: Kind, dir: int)
    ensures Cols(Rotate(CreatePiece(k), dir)) == if k == I then 4 else if k == O then 2 else 3
  {
    var r := Rotate(CreatePiece(k), dir);
    assert |r[0]| == |r|;
  }

  // ---------------------------------------------------------------------
  // Drops

  /** A matrix with a block that fits somewhere sits above the bottom of
      the board: its placement row is less than the board height. */
  lemma FreeIsAboveFloor(arena: Grid, m: Grid, pos: Pos)
    requires Rectangular(arena) && HasBlock(m)
    requires !Collide(arena, m, pos)
    ensures pos.y < |arena|
  {
    CollideMeans(arena, m, pos);
    var i, j :| 0 <= i < |m| && 0 <= j < |m[i]| && m[i][j] != 0;
    assert !Hits(arena, m, pos, i, j);
  }

  /** The first row from `y` down where `m` in column `x` overlaps the board
      or leaves it. */
  function FirstCollision(arena: Grid, m: Grid, x: int, y: int): (r: int)
    requires Rectangular(arena) && HasBlock(m)
    decreases |arena| - y
    ensures r >= y && Collide(arena, m, Pos(x, r))
    ensures forall k :: y <= k < r ==> !Collide(arena, m, Pos(x, k))
  {
    if Collide(arena, m, Pos(x, y)) then y
    else
      FreeIsAboveFloor(arena, m, Pos(x, y));
      FirstCollision(arena, m, x, y + 1)
  }

  /** The ghost projection: the row just above the first collision below
      the piece, where a hard drop puts it. */
  function GhostRow(arena: Grid, m: Grid, pos: Pos): (r: int)
    requires Rectangular(arena) && HasBlock(m)
    ensures r >= pos.y - 1
    ensures Collide(arena, m, Pos(pos.x, r + 1))
    ensures forall k :: pos.y <= k <= r ==> !Collide(arena, m, Pos(pos.x, k))
  {
    FirstCollision(arena, m, pos.x, pos.y) - 1
  }

  /** The first collision is the only row with those properties: free from
      row `y` down to just above it, blocked there. */
  lemma {:induction false} FirstCollisionUnique(arena: Grid, m: Grid, x: int, y: int, c: int)
    requires Rectangular(arena) && HasBlock(m)
    requires y <= c && Collide(arena, m, Pos(x, c))
    requires forall k :: y <= k < c ==> !Collide(arena, m, Pos(x, k))
    decreases c - y
    ensures c == FirstCollision(arena, m, x, y)
  {
    if y < c {
      FirstCollisionUnique(arena, m, x, y + 1, c);
    }
  }

  /** The ghost row is the only row with those properties: free from the
      piece's row down to it, blocked one row further. */
  lemma GhostUnique(arena: Grid, m: Grid, pos: Pos, g: int)
    requires Rectangular(arena) && HasBlock(m)
    requires g >= pos.y - 1
    requires Collide(arena, m, Pos(pos.x, g + 1))
    requires forall k :: pos.y <= k <= g ==> !Collide(arena, m, Pos(pos.x, k))
    ensures g == GhostRow(arena, m, pos)
  {
    FirstCollisionUnique(arena, m, pos.x, pos.y, g + 1);
  }

  /** On an empty board the ghost row puts the lowest block of the piece on
      the bottom row of the board. */
  lemma GhostOnEmpty(arena: Grid, m: Grid, pos: Pos)
    requires Rectangular(arena) && HasBlock(m)
    requires forall i, j :: 0 <= i < |arena| && 0 <= j < |arena[i]| ==> arena[i][j] == 0
    requires !Collide(arena, m, pos)
    ensures GhostRow(arena, m, pos) + BottomRow(m) == |arena| - 1
  {
    var g, b := GhostRow(arena, m, pos), BottomRow(m);
    var i0, j0 :| 0 <= i0 < |m| && 0 <= j0 < |m[i0]| && m[i0][j0] != 0;
    assert RowHasBlock(m[i0]);
    CollideMeans(arena, m, pos);
    CollideMeans(arena, m, Pos(pos.x, g));
    CollideMeans(arena, m, Pos(pos.x, g + 1));
    assert g >= pos.y;
    var j :| 0 <= j < |m[b]| && m[b][j] != 0;
    assert !Hits(arena, m, Pos(pos.x, g), b, j);
    var i, k :| 0 <= i < |m| && 0 <= k < |m[i]| && Hits(arena, m, Pos(pos.x, g + 1), i, k);
    assert !Hits(arena, m, pos, i, k);
    assert RowHasBlock(m[i]);
  }

  /** Merging a matrix whose rows are all narrower than the board into an
      empty board leaves no full row: some column of every row stays empty. */
  lemma MergeOnEmptyNotFull(arena: Grid, m: Grid, pos: Pos)
    requires Rectangular(arena) && Cols(arena) > 0
    requires forall i, j :: 0 <= i < |arena| && 0 <= j < |arena[i]| ==> arena[i][j] == 0
    requires forall i :: 0 <= i < |m| ==> |m[i]| < Cols(arena)
    ensures FullCount(Merge(arena, m, pos)) == 0
  {
    var r, w := Merge(arena, m, pos), Cols(arena);
    forall t | 0 <= t < |r|
      ensures !RowFull(r[t])
    {
      var c := if pos.x > 0 then 0 else w - 1;
      assert !Covers(m, pos, t, c);
      assert r[t][c] == 0;
    }
  }

  /** Merging into an empty board: the cells under the matrix's blocks
      take their values and every other cell stays empty. */
  lemma MergeOnEmpty(arena: Grid, m: Grid, pos: Pos)
    requires Rectangular(arena)
    requires forall i, j :: 0 <= i < |arena| && 0 <= j < |arena[i]| ==> arena[i][j] == 0
    ensures var r := Merge(arena, m, pos);
      forall i, j :: 0 <= i < |r| && 0 <= j < |r[i]| ==>
        r[i][j] == if Covers(m, pos, i, j) then m[i - pos.y][j - pos.x] else 0
  {
  }

  /** A hard drop onto an empty board: the lowest block of the piece lands
      on the bottom row, no row is cleared, so score and lines stay as they
      were, the board is the landed piece merged into the empty board (so
      it holds exactly the piece's cells, by `MergeOnEmpty`), and the
      preview piece (or the first draw) falls next. */
  lemma HardDropOnEmpty(s: State, dice: Dice)
    requires Valid(s) && Running(s)
    requires forall i, j :: 0 <= i < |s.arena| && 0 <= j < |s.arena[i]| ==> s.arena[i][j] == 0
    requires !Collide(s.arena, s.matrix, s.pos)
    ensures var g := GhostRow(s.arena, s.matrix, s.pos);
      var r := PlayerHardDrop(s, dice);
      && g + BottomRow(s.matrix) == Height - 1
      && r.arena == Merge(s.arena, s.matrix, Pos(s.pos.x, g))
      && r.score == s.score && r.lines == s.lines
      && r.matrix == (if s.next.Some? then s.next.value.matrix else CreatePiece(dice.first))
  {
    GhostOnEmpty(s.arena, s.matrix, s.pos);
    HardDropNoClear(s, dice);
  }

  /** A hard drop onto an empty board clears no row: the board is the
      merge, score and lines stay, and the next piece falls. */
  lemma HardDropNoClear(s: State, dice: Dice)
    requires Valid(s) && Running(s)
    requires forall i, j :: 0 <= i < |s.arena| && 0 <= j < |s.arena[i]| ==> s.arena[i][j] == 0
    requires !Collide(s.arena, s.matrix, s.pos)
    ensures var r := PlayerHardDrop(s, dice);
      && r.arena == Merge(s.arena, s.matrix, Pos(s.pos.x, GhostRow(s.arena, s.matrix, s.pos)))
      && r.score == s.score && r.lines == s.lines
      && r.matrix == (if s.next.Some? then s.next.value.matrix else CreatePiece(dice.first))
  {
    var t := s.(pos := Pos(s.pos.x, GhostRow(s.arena, s.matrix, s.pos)));
    MergeOnEmptyNotFull(t.arena, t.matrix, t.pos);
    LockNoClear(t, dice);
  }

  /** Locking a piece that completes no row leaves the merged board as it
      is and the score and lines as they were. */
  lemma LockNoClear(s: State, dice: Dice)
    requires Ready(s)
    requires FullCount(Merge(s.arena, s.matrix, s.pos)) == 0
    ensures var r := Lock(s, dice);
      && r.arena == Merge(s.arena, s.matrix, s.pos)
      && r.score == s.score && r.lines == s.lines
      && r.matrix == (if s.next.Some? then s.next.value.matrix else CreatePiece(dice.first))
  {
    var merged := Merge(s.arena, s.matrix, s.pos);
    assert Kept(merged) == merged;
    assert Swept(merged) == merged;
    var spawned := PlayerReset(s.(arena := merged, sounds := s.sounds + [LandTone]), dice);
    assert Lock(s, dice) == SweepState(spawned);
  }

  /** The loops of `playerHardDrop` and `drawGhost`: step the piece down
      while it fits, then back up one row. */
  method DropToFloor(arena: Grid, m: Grid, pos: Pos) returns (y: int)
    requires Rectangular(arena) && HasBlock(m)
    ensures y == GhostRow(arena, m, pos)
  {
    y := pos.y;
    while !Collide(arena, m, Pos(pos.x, y))
      invariant pos.y <= y <= FirstCollision(arena, m, pos.x, pos.y)
      decreases |arena| - y
    {
      FreeIsAboveFloor(arena, m, Pos(pos.x, y));
      y := y + 1;
    }
    y := y - 1;
  }

  /** Locking the piece where it stands, as `playerDrop` and
      `playerHardDrop` do: write it into the board with a landing sound,
      spawn the next piece (the game-over test sees the board before full
      rows are removed), then sweep. */
  function Lock(s: State, dice: Dice): (r: State)
    requires Ready(s)
    ensures var merged := Merge(s.arena, s.matrix, s.pos);
      var spawned := PlayerReset(s.(arena := merged, sounds := s.sounds + [LandTone]), dice);
      && r.arena == Swept(merged)
      && r.matrix == spawned.matrix && r.pos == spawned.pos && r.next == spawned.next
      && r.colorIndex == spawned.colorIndex
      && (r.gameStarted <==> s.gameStarted && !Collide(merged, r.matrix, r.pos))
      && r.score == s.score + 10 * (Pow2(FullCount(merged)) - 1)
      && r.lines == s.lines + FullCount(merged)
      && r.sounds == s.sounds + [LandTone]
           + (if Collide(merged, r.matrix, r.pos) then [GameOverTone] else [])
           + Repeat(ClearTone, FullCount(merged))
    ensures r.dropCounter == s.dropCounter && r.lastTime == s.lastTime && r.paused == s.paused
    ensures Ready(r)
  {
    var merged := Merge(s.arena, s.matrix, s.pos);
    SweepState(PlayerReset(s.(arena := merged, sounds := s.sounds + [LandTone]), dice))
  }

  /** Locking keeps the game invariant: the merged playable piece keeps the
      board's cells in range, and spawning and sweeping keep the rest. */
  lemma LockValid(s: State, dice: Dice)
    requires Valid(s)
    ensures Valid(Lock(s, dice))
  {
    var merged := Merge(s.arena, s.matrix, s.pos);
    var t := s.(arena := merged, sounds := s.sounds + [LandTone]);
    assert Valid(t);
    ResetValid(t, dice);
  }

  /** Locking ignores the drop counter and carries it through. */
  lemma LockKeepsCounter(s: State, c: int, dice: Dice)
    requires Ready(s)
    ensures Lock(s.(dropCounter := c), dice) == Lock(s, dice).(dropCounter := c)
  {
    var merged := Merge(s.arena, s.matrix, s.pos);
    var a := PlayerReset(s.(arena := merged, sounds := s.sounds + [LandTone]), dice);
    var b := PlayerReset(s.(dropCounter := c).(arena := merged, sounds := s.sounds + [LandTone]), dice);
    assert b == a.(dropCounter := c);
    ClearRowsFrame(a, b, FullCount(merged));
  }

  /** `playerDrop`: move the piece one row down; when that row is blocked,
      lock it where it is instead. Either way the drop counter restarts. */
  function PlayerDrop(s: State, dice: Dice): (r: State)
    requires Ready(s)
    ensures var below := Pos(s.pos.x, s.pos.y + 1);
      if Collide(s.arena, s.matrix, below) then r == Lock(s, dice).(dropCounter := 0)
      else r == s.(pos := below, dropCounter := 0) && !Collide(r.arena, r.matrix, r.pos)
    ensures r.dropCounter == 0
    ensures Ready(r)
  {
    var below := Pos(s.pos.x, s.pos.y + 1);
    if Collide(s.arena, s.matrix, below) then Lock(s, dice).(dropCounter := 0)
    else s.(pos := below, dropCounter := 0)
  }

  /** A soft drop of a piece that fits one row lower only moves it there
      and restarts the counter. */
  lemma DropFree(s: State, dice: Dice)
    requires Ready(s)
    requires !Collide(s.arena, s.matrix, Pos(s.pos.x, s.pos.y + 1))
    ensures PlayerDrop(s, dice) == s.(pos := Pos(s.pos.x, s.pos.y + 1), dropCounter := 0)
  {
  }

  /** A soft drop keeps the game invariant. */
  lemma DropValid(s: State, dice: Dice)
    requires Valid(s)
    ensures Valid(PlayerDrop(s, dice))
  {
    LockValid(s, dice);
  }

  /** `playerHardDrop`: only while the game runs and the piece fits where it
      is; the piece goes straight down to the ghost row and locks there.
      The drop counter is left alone. */
  function PlayerHardDrop(s: State, dice: Dice): (r: State)
    requires Ready(s)
    requires s.gameStarted && !s.paused ==> HasBlock(s.matrix)
    ensures !s.gameStarted || s.paused || Collide(s.arena, s.matrix, s.pos) ==> r == s
    ensures s.gameStarted && !s.paused && !Collide(s.arena, s.matrix, s.pos) ==>
      r == Lock(s.(pos := Pos(s.pos.x, GhostRow(s.arena, s.matrix, s.pos))), dice)
      && s.pos.y <= GhostRow(s.arena, s.matrix, s.pos)
    ensures r.dropCounter == s.dropCounter
    ensures Ready(r)
  {
    if !s.gameStarted || s.paused then s
    else if Collide(s.arena, s.matrix, s.pos) then s
    else Lock(s.(pos := Pos(s.pos.x, GhostRow(s.arena, s.matrix, s.pos))), dice)
  }

  /** A hard drop keeps the game invariant. */
  lemma HardDropValid(s: State, dice: Dice)
    requires Valid(s)
    ensures Valid(PlayerHardDrop(s, dice))
  {
    if Running(s) && !Collide(s.arena, s.matrix, s.pos) {
      LockValid(s.(pos := Pos(s.pos.x, GhostRow(s.arena, s.matrix, s.pos))), dice);
    }
  }

  /** `n` soft drops in a row with the same draws. */
  function SoftDrops(s: State, n: nat, dice: Dice): (r: State)
    requires Ready(s)
    decreases n
    ensures Ready(r)
  {
    if n == 0 then s else SoftDrops(PlayerDrop(s, dice), n - 1, dice)
  }

  /** The first of `n` soft drops, taken on its own. */
  lemma SoftDropsStep(s: State, n: nat, dice: Dice)
    requires Ready(s) && n > 0
    ensures SoftDrops(s, n, dice) == SoftDrops(PlayerDrop(s, dice), n - 1, dice)
  {
  }

  /** When the row below is blocked, one soft drop locks the piece where it
      is, which is where the hard drop locks it. */
  lemma HardDropLast(s: State, dice: Dice)
    requires Ready(s) && Running(s) && HasBlock(s.matrix)
    requires !Collide(s.arena, s.matrix, s.pos)
    requires Collide(s.arena, s.matrix, Pos(s.pos.x, s.pos.y + 1))
    ensures GhostRow(s.arena, s.matrix, s.pos) == s.pos.y
    ensures SoftDrops(s, 1, dice) == PlayerHardDrop(s, dice).(dropCounter := 0)
  {
    GhostUnique(s.arena, s.matrix, s.pos, s.pos.y);
    assert s.(pos := Pos(s.pos.x, s.pos.y)) == s;
    assert SoftDrops(s, 1, dice) == PlayerDrop(s, dice);
  }

  /** When the row below is free, a soft drop moves the piece there; the
      ghost row stays, and so does where the hard drop locks the piece. */
  lemma HardDropStep(s: State, dice: Dice)
    requires Ready(s) && Running(s) && HasBlock(s.matrix)
    requires !Collide(s.arena, s.matrix, s.pos)
    requires !Collide(s.arena, s.matrix, Pos(s.pos.x, s.pos.y + 1))
    ensures var s1 := PlayerDrop(s, dice);
      && s1 == s.(pos := Pos(s.pos.x, s.pos.y + 1), dropCounter := 0)
      && GhostRow(s1.arena, s1.matrix, s1.pos) == GhostRow(s.arena, s.matrix, s.pos)
      && PlayerHardDrop(s1, dice).(dropCounter := 0) == PlayerHardDrop(s, dice).(dropCounter := 0)
  {
    var below := Pos(s.pos.x, s.pos.y + 1);
    var g := GhostRow(s.arena, s.matrix, s.pos);
    GhostUnique(s.arena, s.matrix, below, g);
    var landed := s.(pos := Pos(s.pos.x, g));
    assert s.(pos := below, dropCounter := 0).(pos := Pos(s.pos.x, g)) == landed.(dropCounter := 0);
    LockKeepsCounter(landed, 0, dice);
  }

  /** A hard drop is the same as soft-dropping row by row until the piece
      locks: one soft drop per row down to the ghost row and one more to
      lock, except that the soft drops restart the drop counter. */
  lemma {:induction false} HardDropIsSoftDrops(s: State, dice: Dice)
    requires Ready(s) && Running(s) && HasBlock(s.matrix)
    requires !Collide(s.arena, s.matrix, s.pos)
    decreases GhostRow(s.arena, s.matrix, s.pos) - s.pos.y
    ensures var n := GhostRow(s.arena, s.matrix, s.pos) - s.pos.y + 1;
      n > 0 && SoftDrops(s, n, dice) == PlayerHardDrop(s, dice).(dropCounter := 0)
  {
    var n := GhostRow(s.arena, s.matrix, s.pos) - s.pos.y + 1;
    if Collide(s.arena, s.matrix, Pos(s.pos.x, s.pos.y + 1)) {
      HardDropLast(s, dice);
    } else {
      var s1 := PlayerDrop(s, dice);
      HardDropStep(s, dice);
      assert Running(s1) && HasBlock(s1.matrix);
      HardDropIsSoftDrops(s1, dice);
      assert GhostRow(s1.arena, s1.matrix, s1.pos) - s1.pos.y + 1 == n - 1;
      assert SoftDrops(s1, n - 1, dice) == PlayerHardDrop(s, dice).(dropCounter := 0);
      SoftDropsStep(s, n, dice);
    }
  }
}
