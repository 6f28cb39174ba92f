/** The frame loop, pausing, starting a game, the key handler and the
    initial state, with the gating and timing they promise. */
module GameLoop {
  import opened Util
  import opened Board
  import opened Pieces
  import opened Engine
  import opened Controller

  /** The state before the first game: an empty 20 x 10 board, no falling
      piece (the source's `null` matrix, modelled as the empty matrix), no
      preview piece, level 1, a 1000 ms drop interval, nothing started. */
  function Initial(): (r: State)
    ensures Valid(r) && Ready(r) && !Running(r) && r.next.None?
    ensures r.score == 0 && r.lines == 0 && r.level == 1 && r.dropInterval == StartInterval
  {
    State(CreateMatrix(Width, Height), [], Pos(0, 0), 0, None, 0, 1, 0, StartInterval, 0, 0,
          false, false, [])
  }

  // ---------------------------------------------------------------------
  // Frames

  /** The clock part of a frame at `time`: the time since the last frame is
      added to the drop counter and `time` becomes the last frame time. */
  function Tick(s: State, time: int): (r: State)
    ensures r.dropCounter - s.dropCounter == time - s.lastTime && r.lastTime == time
    ensures r == s.(dropCounter := r.dropCounter, lastTime := time)
  {
    s.(dropCounter := s.dropCounter + (time - s.lastTime), lastTime := time)
  }

  /** The drop counter has passed the drop interval. */
  predicate Due(s: State)
  {
    s.dropCounter as real > s.dropInterval
  }

  /** `update(time)`: unless the game is running, nothing happens. Otherwise
      the clock ticks, and the piece drops one row when the counter has
      passed the drop interval. */
  function Update(s: State, time: int, dice: Dice): (r: State)
    requires Running(s) ==> Ready(s)
    ensures !Running(s) ==> r == s
    ensures Running(s) ==> r == if Due(Tick(s, time)) then PlayerDrop(Tick(s, time), dice) else Tick(s, time)
    ensures Running(s) ==> r.lastTime == time && Ready(r)
  {
    if s.paused || !s.gameStarted then s
    else
      var s1 := Tick(s, time);
      if Due(s1) then PlayerDrop(s1, dice) else s1
  }

  /** A frame keeps the game invariant. */
  lemma UpdateValid(s: State, time: int, dice: Dice)
    requires Valid(s)
    ensures Valid(Update(s, time, dice))
  {
    if Running(s) {
      var s1 := Tick(s, time);
      assert Valid(s1);
      DropValid(s1, dice);
    }
  }

  /** Frames that do not drop the piece add up: after frames at `t1` and
      `t2` the counter has grown by the whole time from the last frame
      before them to `t2`. */
  lemma FramesAddUp(s: State, t1: int, t2: int, dice: Dice)
    requires Running(s) && Ready(s)
    requires (s.dropCounter + (t1 - s.lastTime)) as real <= s.dropInterval
    requires (s.dropCounter + (t2 - s.lastTime)) as real <= s.dropInterval
    ensures var r := Update(Update(s, t1, dice), t2, dice);
      r.dropCounter == s.dropCounter + (t2 - s.lastTime) && r.lastTime == t2
      && r == s.(dropCounter := r.dropCounter, lastTime := t2)
  {
    var r1 := Update(s, t1, dice);
    assert r1 == s.(dropCounter := s.dropCounter + (t1 - s.lastTime), lastTime := t1);
  }

  // ---------------------------------------------------------------------
  // Pause

  /** `togglePause`: nothing before a game has started; otherwise a running
      game pauses, and a paused one resumes with the clock reset to `now`
      followed by a frame at time 0, the default argument of `update`. */
  function TogglePause(s: State, now: int, dice: Dice): (r: State)
    requires s.gameStarted ==> Ready(s)
    ensures !s.gameStarted ==> r == s
    ensures Running(s) ==> r == s.(paused := true)
    ensures s.gameStarted && s.paused ==> r == Update(s.(paused := false, lastTime := now), 0, dice)
    ensures s.gameStarted ==> Ready(r)
  {
    if !s.gameStarted then s
    else if !s.paused then s.(paused := true)
    else Update(s.(paused := false, lastTime := now), 0, dice)
  }

  /** Toggling pause keeps the game invariant. */
  lemma TogglePauseValid(s: State, now: int, dice: Dice)
    requires Valid(s)
    ensures Valid(TogglePause(s, now, dice))
  {
    if s.gameStarted && s.paused {
      UpdateValid(s.(paused := false, lastTime := now), 0, dice);
    }
  }

  /** While paused no frame changes anything, and resuming at `now` does
      not count the paused time: a frame at `t` after the resume finds the
      counter grown by `t - now` only. */
  lemma PauseSkipsPausedTime(s: State, now: int, t: int, frames: seq<int>, dice: Dice)
    requires Running(s) && Ready(s)
    requires (s.dropCounter - now) as real <= s.dropInterval
    requires (s.dropCounter + (t - now)) as real <= s.dropInterval
    ensures var paused := TogglePause(s, now, dice);
      && paused.paused
      && (forall u :: u in frames ==> Update(paused, u, dice) == paused)
      && var resumed := TogglePause(paused, now, dice);
         && Running(resumed)
         && Update(resumed, t, dice).dropCounter == s.dropCounter + (t - now)
  {
    var paused := TogglePause(s, now, dice);
    var resumed := TogglePause(paused, now, dice);
    assert resumed == s.(dropCounter := s.dropCounter - now, lastTime := 0);
  }

  // ---------------------------------------------------------------------
  // Starting a game

  /** `arena.forEach(row => row.fill(0))`: every cell emptied, every row
      keeping its length. */
  function ClearCells(a: Grid): (r: Grid)
    ensures |r| == |a|
    ensures forall i :: 0 <= i < |r| ==> r[i] == ZeroRow(|a[i]|)
  {
    seq(|a|, i requires 0 <= i < |a| => ZeroRow(|a[i]|))
  }

  /** Emptying the board keeps its shape. */
  lemma ClearCellsShape(a: Grid)
    requires IsArena(a)
    ensures IsArena(ClearCells(a))
    ensures forall i, j :: 0 <= i < |a| && 0 <= j < |ClearCells(a)[i]| ==> ClearCells(a)[i][j] == 0
  {
    var r := ClearCells(a);
    assert |r[0]| == Width;
  }

  /** The first step of `startGame`: the board emptied and score, lines,
      level and drop interval set back to their starting values. */
  function Cleared(s: State): (r: State)
    ensures r == s.(arena := r.arena, score := 0, lines := 0, level := 1, dropInterval := StartInterval)
    ensures |r.arena| == |s.arena| && Cols(r.arena) == Cols(s.arena)
    ensures forall i :: 0 <= i < |r.arena| ==> |r.arena[i]| == |s.arena[i]|
    ensures forall i, j :: 0 <= i < |r.arena| && 0 <= j < |r.arena[i]| ==> r.arena[i][j] == 0
    ensures Rectangular(s.arena) ==> Rectangular(r.arena)
  {
    var r := s.(arena := ClearCells(s.arena), score := 0, lines := 0, level := 1,
                dropInterval := StartInterval);
    assert |s.arena| > 0 ==> r.arena[0] == ZeroRow(|s.arena[0]|);
    r
  }

  /** The step of `startGame` after the spawn: started, unpaused, the start
      sound played and the clock set to `now`. */
  function Begin(s: State, now: int): (r: State)
    ensures Running(r) && r.lastTime == now && r.sounds == s.sounds + [StartTone]
    ensures r == s.(gameStarted := true, paused := false, sounds := r.sounds, lastTime := now)
  {
    s.(gameStarted := true, paused := false, sounds := s.sounds + [StartTone], lastTime := now)
  }

  /** `startGame`: empty the board, reset score, lines, level and drop
      interval, spawn a piece, mark the game started and unpaused with a
      start sound, set the clock to `now` and run a frame at time 0. The
      drop counter and the preview piece are not reset. */
  function StartGame(s: State, now: int, d1: Dice, d2: Dice): (r: State)
    requires Ready(s)
    ensures Ready(r)
  {
    Update(Begin(PlayerReset(Cleared(s), d1), now), 0, d2)
  }

  /** The piece a new game starts with: the preview piece if there is one,
      otherwise the first draw. */
  function Opening(s: State, d1: Dice): Piece
  {
    if s.next.Some? then s.next.value else Spawn(d1.first)
  }

  /** Emptying the board of a consistent state gives a consistent state
      with no block on the board. */
  lemma ClearedValid(s: State)
    requires Valid(s)
    ensures Valid(Cleared(s)) && Ready(Cleared(s))
    ensures forall i, j :: 0 <= i < |Cleared(s).arena| && 0 <= j < |Cleared(s).arena[i]| ==> Cleared(s).arena[i][j] == 0
  {
    ClearCellsShape(s.arena);
  }

  /** The spawn on the emptied board never collides, neither in row 0 nor
      one row lower, so it keeps the game going with no game-over sound. */
  lemma SpawnOnEmpty(s: State, d1: Dice)
    requires Valid(s)
    ensures Ready(Cleared(s))
    ensures var c := PlayerReset(Cleared(s), d1);
      var p := Opening(s, d1);
      && (forall i, j :: 0 <= i < |c.arena| && 0 <= j < |c.arena[i]| ==> c.arena[i][j] == 0)
      && c == Cleared(s).(matrix := p.matrix, colorIndex := p.colorIndex, next := Some(Spawn(d1.upcoming)),
                          pos := Pos(SpawnX(s.arena, p.matrix), 0))
      && !Collide(c.arena, c.matrix, Pos(c.pos.x, 1))
      && Valid(c.(gameStarted := true))
  {
    ClearedValid(s);
    var cleared := Cleared(s);
    var p := Opening(s, d1);
    CreatePiecePlayable(d1.first);
    assert Playable(p.matrix);
    EmptyBoardIsFree(cleared.arena, p.matrix, 0);
    EmptyBoardIsFree(cleared.arena, p.matrix, 1);
    ResetValid(cleared, d1);
  }

  /** A frame on a running state whose piece can move down one row: the
      counter decides whether it does. */
  lemma FrameOnFree(s: State, time: int, dice: Dice)
    requires Running(s) && Ready(s)
    requires !Collide(s.arena, s.matrix, Pos(s.pos.x, s.pos.y + 1))
    ensures var counter := s.dropCounter + (time - s.lastTime);
      Update(s, time, dice) ==
        if counter as real > s.dropInterval
        then s.(pos := Pos(s.pos.x, s.pos.y + 1), dropCounter := 0, lastTime := time)
        else s.(dropCounter := counter, lastTime := time)
  {
    var s1 := Tick(s, time);
    var below := Pos(s.pos.x, s.pos.y + 1);
    assert !Collide(s1.arena, s1.matrix, below);
    if Due(s1) {
      DropFree(s1, dice);
    }
  }

  /** A new game starts on an empty board with score 0, 0 lines, level 1
      and a 1000 ms interval, running, with the previous game's preview
      piece as its first piece (or the first draw before any game) at the
      spawn column and a new preview piece. The frame at time 0 adds
      `-now` to the carried-over drop counter; only if that still exceeds
      the interval does the piece drop to row 1 and the counter restart. */
  lemma StartGameOutcome(s: State, now: int, d1: Dice, d2: Dice)
    requires Valid(s)
    ensures var r := StartGame(s, now, d1, d2);
      var p := Opening(s, d1);
      var counter := s.dropCounter - now;
      && (forall i, j :: 0 <= i < |r.arena| && 0 <= j < |r.arena[i]| ==> r.arena[i][j] == 0)
      && r.score == 0 && r.lines == 0 && r.level == 1 && r.dropInterval == StartInterval
      && Running(r)
      && r.matrix == p.matrix && r.colorIndex == p.colorIndex
      && r.next == Some(Spawn(d1.upcoming))
      && r.lastTime == 0
      && r.sounds == s.sounds + [StartTone]
      && (if counter as real > StartInterval
          then r.dropCounter == 0 && r.pos == Pos(SpawnX(s.arena, p.matrix), 1)
          else r.dropCounter == counter && r.pos == Pos(SpawnX(s.arena, p.matrix), 0))
      && Valid(r)
  {
    SpawnOnEmpty(s, d1);
    var started := Begin(PlayerReset(Cleared(s), d1), now);
    FrameOnFree(started, 0, d2);
    UpdateValid(started, 0, d2);
  }

  /** The very first game: its first piece comes from the first draw, in
      row 0 at the spawn column, with the drop counter at `-now`. */
  lemma FirstGame(now: int, d1: Dice, d2: Dice)
    requires now >= 0
    ensures var r := StartGame(Initial(), now, d1, d2);
      && Running(r)
      && r.matrix == CreatePiece(d1.first) && r.colorIndex == ColorIndex(d1.first)
      && r.pos == Pos(if d1.first == I then 3 else 4, 0)
      && r.next == Some(Spawn(d1.upcoming))
      && r.dropCounter == -now
      && r.sounds == [StartTone]
  {
    var s0 := Initial();
    var r := StartGame(s0, now, d1, d2);
    StartGameOutcome(s0, now, d1, d2);
    assert Opening(s0, d1) == Spawn(d1.first);
    assert !((s0.dropCounter - now) as real > StartInterval);
    assert r.pos == Pos(SpawnX(s0.arena, CreatePiece(d1.first)), 0);
    SpawnColumns(s0.arena, d1.first);
  }

  // ---------------------------------------------------------------------
  // Keys

  /** The keys the handler tells apart; every other key is `OtherKey`. */
  datatype Key = ArrowLeft | ArrowRight | ArrowDown | ArrowUp | Space | LowerP | UpperP | Enter | OtherKey

  /** The `keydown` handler: before a game starts every key but Enter is
      ignored; while paused every key but `p`/`P` is ignored; then the
      arrows move, drop and turn the piece, space hard-drops and `p`/`P`
      toggles the pause. Enter gets through the first test but has no
      action. */
  function KeyDown(s: State, key: Key, now: int, dice: Dice): (r: State)
    requires s.gameStarted ==> Ready(s) && Square(s.matrix) && HasBlock(s.matrix)
    ensures !s.gameStarted ==> r == s
    ensures s.paused && key != LowerP && key != UpperP ==> r == s
    ensures key == Enter || key == OtherKey ==> r == s
    ensures key == LowerP || key == UpperP ==> r == TogglePause(s, now, dice)
    ensures Running(s) ==> match key
      case ArrowLeft => r == PlayerMove(s, -1)
      case ArrowRight => r == PlayerMove(s, 1)
      case ArrowDown => r == PlayerDrop(s, dice)
      case ArrowUp => r == PlayerRotate(s, 1)
      case Space => r == PlayerHardDrop(s, dice)
      case _ => true
  {
    if !s.gameStarted && key != Enter then s
    else if s.paused && key != LowerP && key != UpperP then s
    else
      match key
      case ArrowLeft => PlayerMove(s, -1)
      case ArrowRight => PlayerMove(s, 1)
      case ArrowDown => PlayerDrop(s, dice)
      case ArrowUp => PlayerRotate(s, 1)
      case Space => PlayerHardDrop(s, dice)
      case LowerP => TogglePause(s, now, dice)
      case UpperP => TogglePause(s, now, dice)
      case Enter => s
      case OtherKey => s
  }

  /** Every key keeps the game invariant. */
  lemma KeyDownValid(s: State, key: Key, now: int, dice: Dice)
    requires Valid(s)
    ensures Valid(KeyDown(s, key, now, dice))
  {
    if Running(s) {
      match key
      case ArrowDown => DropValid(s, dice);
      case ArrowUp => RotateValid(s, 1);
      case Space => HardDropValid(s, dice);
      case LowerP => TogglePauseValid(s, now, dice);
      case UpperP => TogglePauseValid(s, now, dice);
      case _ =>
    } else if s.gameStarted {
      TogglePauseValid(s, now, dice);
    }
  }
}
