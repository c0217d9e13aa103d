/** The game state machine: every key, control and timer event is a pure
    function from the current state to the next one. */
module GameLogic {
  import opened Types
  import opened Board
  import opened Lines
  import opened Scoring
  import opened Pieces

  /** A piece as it may sit on the board: four blocks of one colour, each
      between the side walls and above the floor (possibly above the top),
      and an angle in 0..359. */
  predicate WellPlaced(p: Tetromino) {
    && |p.blocks| == 4
    && (forall i :: 0 <= i < |p.blocks| ==> p.blocks[i].color == p.blocks[0].color)
    && (forall i :: 0 <= i < |p.blocks| ==> 0 <= p.blocks[i].x < N && p.blocks[i].y < N)
    && 0 <= p.rotation < 360
  }

  /** What holds of every state the game can reach: an N×N board, a
      non-negative score with the level it implies, a well-placed piece if
      any, and no piece once the game is over. */
  predicate Valid(s: GameState) {
    && IsGrid(s.grid)
    && 0.0 <= s.score
    && s.level == Level(s.score)
    && (s.currentPiece.Some? ==> WellPlaced(s.currentPiece.value))
    && (s.gameOver ==> s.currentPiece.None?)
  }

  /** A piece is falling and the game is neither over nor paused. */
  predicate Live(s: GameState) {
    s.currentPiece.Some? && !s.gameOver && !s.isPaused
  }

  /** The state a new game starts from. */
  function InitialState(): (s: GameState)
    ensures Valid(s)
    ensures s.score == 0.0 && s.level == 1 && s.rotationTimer == 0
    ensures s.currentPiece.None? && !s.gameOver && !s.isPaused
    ensures forall y, x :: InField(x, y) ==> s.grid[y][x] == Empty
  {
    GameState(0.0, 1, EmptyGrid(), None, false, false, 0)
  }

  /** Moving the piece by (dx, dy): only when a piece is live and the moved
      piece does not collide; then only the piece changes. */
  function MovePiece(s: GameState, dx: int, dy: int): (r: GameState)
    requires IsGrid(s.grid)
    ensures if Live(s) && !Collides(s.currentPiece.value, s.grid, dx, dy)
            then r == s.(currentPiece := Some(Shift(s.currentPiece.value, dx, dy)))
            else r == s
    ensures Valid(s) ==> Valid(r)
  {
    if s.currentPiece.None? || s.gameOver || s.isPaused then s
    else
      var moved := Shift(s.currentPiece.value, dx, dy);
      ShiftCollides(s.currentPiece.value, s.grid, dx, dy);
      if Collides(moved, s.grid, 0, 0) then s
      else s.(currentPiece := Some(moved))
  }

  /** The rotate key: turns a live piece about its pivot; a paused or
      finished game is left alone, and nothing but the piece changes. */
  function RotateOnKey(s: GameState): (r: GameState)
    requires IsGrid(s.grid)
    requires s.currentPiece.Some? ==> |s.currentPiece.value.blocks| >= 2
    ensures !Live(s) ==> r == s
    ensures Live(s) ==> r == s.(currentPiece := Some(RotatePiece(s.currentPiece.value, s.grid)))
    ensures Valid(s) ==> Valid(r)
  {
    if s.currentPiece.None? || s.gameOver || s.isPaused then s
    else s.(currentPiece := Some(RotatePiece(s.currentPiece.value, s.grid)))
  }

  /** The rotate control offered to the page: like the rotate key but it
      does not look at the pause and game-over flags. */
  function RotateFromControls(s: GameState): (r: GameState)
    requires IsGrid(s.grid)
    requires s.currentPiece.Some? ==> |s.currentPiece.value.blocks| >= 2
    ensures s.currentPiece.None? ==> r == s
    ensures s.currentPiece.Some? ==> r == s.(currentPiece := Some(RotatePiece(s.currentPiece.value, s.grid)))
    ensures Valid(s) ==> Valid(r)
  {
    match s.currentPiece
    case None => s
    case Some(p) => s.(currentPiece := Some(RotatePiece(p, s.grid)))
  }

  /** The two rotate paths agree while the game runs; they part only when
      the game is paused or over. */
  lemma RotatePathsAgreeWhileRunning(s: GameState)
    requires IsGrid(s.grid)
    requires s.currentPiece.Some? ==> |s.currentPiece.value.blocks| >= 2
    requires !s.gameOver && !s.isPaused
    ensures RotateOnKey(s) == RotateFromControls(s)
  {
  }

  /** While paused, the rotate control still turns the piece; the rotate
      key does not. This holds of the two functions and of the events that
      reach them. */
  lemma RotateControlIgnoresPause(catalog: seq<Shape>)
    requires WellFormedCatalog(catalog)
    ensures var p := Tetromino([Block(4, 0, Blue), Block(4, 1, Blue), Block(4, 2, Blue), Block(4, 3, Blue)], 0);
      var s := GameState(0.0, 1, EmptyGrid(), Some(p), false, true, 0);
      && Valid(s)
      && RotateOnKey(s) == s
      && RotateFromControls(s) != s
      && Step(s, KeyDown(ArrowUp), catalog) == s
      && Step(s, RotateControl, catalog) != s
  {
    var p := Tetromino([Block(4, 0, Blue), Block(4, 1, Blue), Block(4, 2, Blue), Block(4, 3, Blue)], 0);
    var q := Turned(p);
    assert q.blocks == [Block(5, 1, Blue), Block(4, 1, Blue), Block(3, 1, Blue), Block(2, 1, Blue)];
    assert FitsOn(q.blocks, EmptyGrid());
    var s := GameState(0.0, 1, EmptyGrid(), Some(p), false, true, 0);
    assert Valid(s) by {
      assert Level(0.0) == 1;
    }
  }

  /** The pause toggle flips the pause flag and nothing else, whether or not
      the game is over; toggling twice changes nothing. */
  function TogglePause(s: GameState): (r: GameState)
    ensures r.isPaused != s.isPaused
    ensures r.(isPaused := s.isPaused) == s
    ensures Valid(s) ==> Valid(r)
  {
    s.(isPaused := !s.isPaused)
  }

  lemma TogglePauseTwice(s: GameState)
    ensures TogglePause(TogglePause(s)) == s
  {
  }

  /** Reset discards the whole state for a fresh game. */
  function ResetGame(s: GameState): (r: GameState)
    ensures r == InitialState()
    ensures Valid(r) && r.score == 0.0 && r.level == 1 && r.currentPiece.None?
  {
    InitialState()
  }

  /** Every block at or below the top row lies in the field, so the cells
      the lock writes exist. */
  predicate Lockable(blocks: seq<Block>) {
    forall i :: 0 <= i < |blocks| && blocks[i].y >= 0 ==> InField(blocks[i].x, blocks[i].y)
  }

  /** Writing a piece into the board, block by block in order: every block
      at or below the top row colours its cell; blocks above the field are
      dropped. */
  function LockPiece(g: Grid, blocks: seq<Block>): (r: Grid)
    requires IsGrid(g)
    requires Lockable(blocks)
    ensures IsGrid(r)
    decreases |blocks|
  {
    if |blocks| == 0 then g
    else
      var n := |blocks| - 1;
      var b := blocks[n];
      assert forall i :: 0 <= i < n ==> blocks[..n][i] == blocks[i];
      var front := LockPiece(g, blocks[..n]);
      if b.y >= 0 then
        assert InField(b.x, b.y);
        front[b.y := front[b.y][b.x := Filled(b.color)]]
      else front
  }

  /** Locking leaves every cell no block sits on as it was. */
  lemma {:induction false} LockPieceFrame(g: Grid, blocks: seq<Block>)
    requires IsGrid(g)
    requires Lockable(blocks)
    ensures forall y, x :: InField(x, y) && (forall i :: 0 <= i < |blocks| ==> blocks[i].x != x || blocks[i].y != y)
              ==> LockPiece(g, blocks)[y][x] == g[y][x]
    decreases |blocks|
  {
    if |blocks| > 0 {
      var n := |blocks| - 1;
      assert forall i :: 0 <= i < n ==> blocks[..n][i] == blocks[i];
      LockPieceFrame(g, blocks[..n]);
    }
  }

  /** Two blocks on the same cell. */
  predicate SameCell(a: Block, b: Block) {
    a.x == b.x && a.y == b.y
  }

  /** Locking colours the cell of block i, if it is at or below the top row,
      with the colour of some block from i on that sits on the same cell. */
  lemma {:induction false} LockPieceCell(g: Grid, blocks: seq<Block>, i: int)
    requires IsGrid(g)
    requires Lockable(blocks)
    requires 0 <= i < |blocks| && blocks[i].y >= 0
    ensures exists j :: i <= j < |blocks| && SameCell(blocks[j], blocks[i])
              && LockPiece(g, blocks)[blocks[i].y][blocks[i].x] == Filled(blocks[j].color)
    decreases |blocks|
  {
    var n := |blocks| - 1;
    var b := blocks[n];
    var r := LockPiece(g, blocks);
    if SameCell(b, blocks[i]) {
      assert r[b.y][b.x] == Filled(b.color);
      assert SameCell(blocks[n], blocks[i]) && r[blocks[i].y][blocks[i].x] == Filled(blocks[n].color);
    } else {
      var front := blocks[..n];
      assert forall k :: 0 <= k < n ==> front[k] == blocks[k];
      LockPieceCell(g, front, i);
      var rf := LockPiece(g, front);
      var j :| i <= j < n && SameCell(front[j], front[i])
            && rf[front[i].y][front[i].x] == Filled(front[j].color);
      assert r[blocks[i].y][blocks[i].x] == rf[blocks[i].y][blocks[i].x];
      assert SameCell(blocks[j], blocks[i]) && r[blocks[i].y][blocks[i].x] == Filled(blocks[j].color);
    }
  }

  /** Locking colours the cell of every block at or below the top row with
      the colour of the last block written there. */
  lemma LockPieceWrites(g: Grid, blocks: seq<Block>)
    requires IsGrid(g)
    requires Lockable(blocks)
    ensures forall i :: 0 <= i < |blocks| && blocks[i].y >= 0 ==>
              exists j :: i <= j < |blocks| && SameCell(blocks[j], blocks[i])
                && LockPiece(g, blocks)[blocks[i].y][blocks[i].x] == Filled(blocks[j].color)
  {
    forall i | 0 <= i < |blocks| && blocks[i].y >= 0
      ensures exists j :: i <= j < |blocks| && SameCell(blocks[j], blocks[i])
                && LockPiece(g, blocks)[blocks[i].y][blocks[i].x] == Filled(blocks[j].color)
    {
      LockPieceCell(g, blocks, i);
    }
  }

  /** When all blocks share one colour, every cell a block at or below the
      top row sits on ends up holding that colour. */
  lemma LockPieceOneColour(g: Grid, blocks: seq<Block>, c: Color)
    requires IsGrid(g)
    requires Lockable(blocks)
    requires forall i :: 0 <= i < |blocks| ==> blocks[i].color == c
    ensures forall i :: 0 <= i < |blocks| && blocks[i].y >= 0 ==>
              LockPiece(g, blocks)[blocks[i].y][blocks[i].x] == Filled(c)
  {
    LockPieceWrites(g, blocks);
  }

  /** Locking the piece that cannot fall: its blocks are written into the
      board, full lines are cleared and scored, the level follows the new
      score and the piece is gone; flags and the tick counter stay. */
  function LockStep(s: GameState, p: Tetromino): (r: GameState)
    requires IsGrid(s.grid)
    requires Lockable(p.blocks)
    ensures var cleared := ClearLines(LockPiece(s.grid, p.blocks));
      && r.grid == cleared.grid
      && IsGrid(r.grid)
      && r.currentPiece.None?
      && r.score == s.score + LinePoints(cleared.linesCleared)
      && r.level == Level(r.score)
      && r.gameOver == s.gameOver && r.isPaused == s.isPaused && r.rotationTimer == s.rotationTimer
    ensures r.score >= s.score
    ensures s.level == Level(s.score) ==> r.level >= s.level
  {
    var cleared := ClearLines(LockPiece(s.grid, p.blocks));
    var score := s.score + LinePoints(cleared.linesCleared);
    LevelMonotonic(s.score, score);
    s.(grid := cleared.grid, currentPiece := None, score := score, level := Level(score))
  }

  /** The gravity step proper: spawn a piece when there is none (or end the
      game if it cannot enter); otherwise drop the piece one row, or lock it
      when it cannot drop. */
  function GravityUpdate(s: GameState, catalog: seq<Shape>, shapeIndex: int, colorIndex: int): (r: GameState)
    requires IsGrid(s.grid)
    requires s.currentPiece.Some? ==> Lockable(s.currentPiece.value.blocks)
    requires 0 <= shapeIndex < |catalog| && 0 <= colorIndex < |Colors|
    ensures s.currentPiece.None? ==>
      var q := SpawnPiece(catalog, shapeIndex, colorIndex);
      if Collides(q, s.grid, 0, 0) then r == s.(gameOver := true)
      else r == s.(currentPiece := Some(q))
    ensures s.currentPiece.Some? ==>
      var p := s.currentPiece.value;
      if Collides(p, s.grid, 0, 1) then r == LockStep(s, p)
      else r == s.(currentPiece := Some(Shift(p, 0, 1)))
    ensures r.score >= s.score
    ensures s.level == Level(s.score) ==> r.level >= s.level
  {
    match s.currentPiece
    case None =>
      var q := SpawnPiece(catalog, shapeIndex, colorIndex);
      if Collides(q, s.grid, 0, 0) then s.(gameOver := true)
      else s.(currentPiece := Some(q))
    case Some(p) =>
      var fallen := Shift(p, 0, 1);
      ShiftCollides(p, s.grid, 0, 1);
      if Collides(fallen, s.grid, 0, 0) then LockStep(s, p)
      else s.(currentPiece := Some(fallen))
  }

  /** The gravity step keeps a running game valid. */
  lemma GravityKeepsValid(s: GameState, catalog: seq<Shape>, shapeIndex: int, colorIndex: int)
    requires Valid(s) && !s.gameOver && WellFormedCatalog(catalog)
    requires 0 <= shapeIndex < |catalog| && 0 <= colorIndex < |Colors|
    ensures Valid(GravityUpdate(s, catalog, shapeIndex, colorIndex))
  {
  }

  /** A gravity timer tick: only while the game is neither over nor paused. */
  function GravityTick(s: GameState, catalog: seq<Shape>, shapeIndex: int, colorIndex: int): (r: GameState)
    requires IsGrid(s.grid)
    requires s.currentPiece.Some? ==> Lockable(s.currentPiece.value.blocks)
    requires 0 <= shapeIndex < |catalog| && 0 <= colorIndex < |Colors|
    ensures s.gameOver || s.isPaused ==> r == s
    ensures !s.gameOver && !s.isPaused ==> r == GravityUpdate(s, catalog, shapeIndex, colorIndex)
    ensures Valid(s) && WellFormedCatalog(catalog) ==> Valid(r)
  {
    if s.gameOver || s.isPaused then s
    else
      var r := GravityUpdate(s, catalog, shapeIndex, colorIndex);
      assert Valid(s) && WellFormedCatalog(catalog) ==> Valid(r) by {
        if Valid(s) && WellFormedCatalog(catalog) {
          GravityKeepsValid(s, catalog, shapeIndex, colorIndex);
        }
      }
      r
  }

  /** A spawn that collides ends the game and changes nothing else; a spawn
      that fits installs a centred piece of one colour at angle 0. */
  lemma SpawnOutcome(s: GameState, catalog: seq<Shape>, shapeIndex: int, colorIndex: int)
    requires Valid(s) && WellFormedCatalog(catalog)
    requires s.currentPiece.None? && !s.gameOver && !s.isPaused
    requires 0 <= shapeIndex < |catalog| && 0 <= colorIndex < |Colors|
    ensures var r := GravityTick(s, catalog, shapeIndex, colorIndex);
      || (r.gameOver && r.(gameOver := false) == s)
      || (&& !r.gameOver && r.currentPiece.Some?
          && r.(currentPiece := None) == s
          && var p := r.currentPiece.value;
          && |p.blocks| == 4 && p.rotation == 0
          && (forall i :: 0 <= i < 4 ==>
                p.blocks[i].x == catalog[shapeIndex][i].0 + 4 &&
                p.blocks[i].y == catalog[shapeIndex][i].1 &&
                p.blocks[i].color == Colors[colorIndex]))
  {
  }

  /** The grid-rotation timer tick: while the game runs, the board turns a
      quarter and the piece is offered the pivot turn against the turned
      board; if that turn is refused the piece keeps its old coordinates.
      Score, level and flags are untouched and the tick counter advances. */
  function RotationTick(s: GameState): (r: GameState)
    requires IsGrid(s.grid)
    requires s.currentPiece.Some? ==> |s.currentPiece.value.blocks| >= 2
    ensures s.gameOver || s.isPaused ==> r == s
    ensures !s.gameOver && !s.isPaused ==>
      && r.grid == RotateGrid(s.grid)
      && r.rotationTimer == s.rotationTimer + 1
      && r.score == s.score && r.level == s.level
      && r.gameOver == s.gameOver && r.isPaused == s.isPaused
      && (s.currentPiece.None? ==> r.currentPiece.None?)
      && (s.currentPiece.Some? ==> r.currentPiece == Some(RotatePiece(s.currentPiece.value, r.grid)))
    ensures Valid(s) ==> Valid(r)
  {
    if s.gameOver || s.isPaused then s
    else
      var grid := RotateGrid(s.grid);
      var piece := match s.currentPiece
        case None => None
        case Some(p) => Some(RotatePiece(p, grid));
      s.(grid := grid, currentPiece := piece, rotationTimer := s.rotationTimer + 1)
  }

  /** A board whose only settled block is red, in the top-left corner. */
  function RedCornerGrid(): (g: Grid)
    ensures IsGrid(g)
    ensures forall y, x :: InField(x, y) ==> g[y][x] == if y == 0 && x == 0 then Filled(Red) else Empty
  {
    EmptyGrid()[0 := EmptyRow()[0 := Filled(Red)]]
  }

  /** An upright bar against the right wall, rows 0 to 3. */
  function RightWallBar(): Tetromino {
    Tetromino([Block(9, 0, Cyan), Block(9, 1, Cyan), Block(9, 2, Cyan), Block(9, 3, Cyan)], 0)
  }

  /** The bar against the right wall cannot turn: its top block would land
      in column 10. */
  lemma RightWallBarCannotTurn(g: Grid)
    requires IsGrid(g)
    ensures RotatePiece(RightWallBar(), g) == RightWallBar()
  {
    var p := RightWallBar();
    assert TurnAbout(p.blocks[0], p.blocks[1]).x == 10;
  }

  /** The grid-rotation tick can leave the piece on a settled cell: the
      board's top-left block turns onto the top-right cell, where the bar
      stands against the right wall and cannot turn, so a piece that was
      clear of the board before the tick overlaps it after. */
  lemma RotationTickCanOverlap()
    ensures var s := GameState(0.0, 1, RedCornerGrid(), Some(RightWallBar()), false, false, 0);
      && Valid(s)
      && !Collides(RightWallBar(), s.grid, 0, 0)
      && RotationTick(s).currentPiece == Some(RightWallBar())
      && RotationTick(s).grid[0][9] == Filled(Red)
      && Collides(RightWallBar(), RotationTick(s).grid, 0, 0)
  {
    var g := RedCornerGrid();
    var p := RightWallBar();
    var s := GameState(0.0, 1, g, Some(p), false, false, 0);
    assert Level(0.0) == 1;
    assert WellPlaced(p);
    assert !Collides(p, g, 0, 0) by {
      forall i | 0 <= i < 4
        ensures !BlockHits(p.blocks[i], g, 0, 0)
      {
        assert g[p.blocks[i].y][9] == Empty;
      }
    }
    var turned := RotateGrid(g);
    assert turned[0][N - 1 - 0] == g[0][0];
    RightWallBarCannotTurn(turned);
    var r := RotationTick(s);
    assert r.grid == turned && r.currentPiece == Some(p);
    assert BlockHits(p.blocks[0], turned, 0, 0);
  }

  /** The keys the game listens to. */
  datatype Key = ArrowLeft | ArrowRight | ArrowDown | ArrowUp | Space | OtherKey

  /** Key handling: arrows move, drop or turn the piece, space toggles the
      pause. Only space touches the pause flag, and no other key changes a
      paused or finished game. */
  function HandleKey(s: GameState, k: Key): (r: GameState)
    requires IsGrid(s.grid)
    requires s.currentPiece.Some? ==> |s.currentPiece.value.blocks| >= 2
    ensures k != Space ==> r.isPaused == s.isPaused
    ensures k != Space && (s.gameOver || s.isPaused) ==> r == s
    ensures k == Space ==> r.isPaused != s.isPaused
    ensures k == ArrowLeft ==> r == MovePiece(s, -1, 0)
    ensures k == ArrowRight ==> r == MovePiece(s, 1, 0)
    ensures k == ArrowDown ==> r == MovePiece(s, 0, 1)
    ensures k == ArrowUp ==> r == RotateOnKey(s)
    ensures k == Space ==> r == TogglePause(s)
    ensures k == OtherKey ==> r == s
    ensures Valid(s) ==> Valid(r)
  {
    match k
    case ArrowLeft => MovePiece(s, -1, 0)
    case ArrowRight => MovePiece(s, 1, 0)
    case ArrowDown => MovePiece(s, 0, 1)
    case ArrowUp => RotateOnKey(s)
    case Space => TogglePause(s)
    case OtherKey => s
  }

  /** Everything that can happen to the state: a key, a call of one of the
      controls offered to the page, or a timer tick. A gravity tick carries
      the two random draws of the piece it may spawn. */
  datatype Event =
    | KeyDown(key: Key)
    | MoveControl(dx: int, dy: int)
    | RotateControl
    | PauseControl
    | ResetControl
    | GravityTimer(shapeIndex: int, colorIndex: int)
    | RotationTimer

  /** A gravity tick's draws index the catalog and the palette. */
  predicate EventFits(e: Event, catalog: seq<Shape>) {
    e.GravityTimer? ==> 0 <= e.shapeIndex < |catalog| && 0 <= e.colorIndex < |Colors|
  }

  /** One event applied to the state. Every event keeps the state valid, and
      only a reset lowers the score or the level. */
  function Step(s: GameState, e: Event, catalog: seq<Shape>): (r: GameState)
    requires Valid(s) && WellFormedCatalog(catalog) && EventFits(e, catalog)
    ensures Valid(r)
    ensures !e.ResetControl? ==> r.score >= s.score && r.level >= s.level
    ensures e.KeyDown? ==> r == HandleKey(s, e.key)
    ensures e.MoveControl? ==> r == MovePiece(s, e.dx, e.dy)
    ensures e.RotateControl? ==> r == RotateFromControls(s)
    ensures e.PauseControl? ==> r == TogglePause(s)
    ensures e.ResetControl? ==> r == InitialState()
    ensures e.GravityTimer? ==> r == GravityTick(s, catalog, e.shapeIndex, e.colorIndex)
    ensures e.RotationTimer? ==> r == RotationTick(s)
  {
    match e
    case KeyDown(k) => HandleKey(s, k)
    case MoveControl(dx, dy) => MovePiece(s, dx, dy)
    case RotateControl => RotateFromControls(s)
    case PauseControl => TogglePause(s)
    case ResetControl => ResetGame(s)
    case GravityTimer(si, ci) =>
      var r := GravityTick(s, catalog, si, ci);
      LevelMonotonic(s.score, r.score);
      r
    case RotationTimer => RotationTick(s)
  }

  /** Once the game is over, every event but a reset leaves the state as it
      is, up to the pause flag. */
  lemma GameOverIsFinal(s: GameState, e: Event, catalog: seq<Shape>)
    requires Valid(s) && WellFormedCatalog(catalog) && EventFits(e, catalog)
    requires s.gameOver
    requires !e.ResetControl?
    ensures Step(s, e, catalog).(isPaused := s.isPaused) == s
  {
  }

  /** While paused, only the pause toggle, a reset and the rotate control
      change the state. */
  lemma PauseFreezesPlay(s: GameState, e: Event, catalog: seq<Shape>)
    requires Valid(s) && WellFormedCatalog(catalog) && EventFits(e, catalog)
    requires s.isPaused
    requires e != KeyDown(Space) && !e.PauseControl? && !e.ResetControl? && !e.RotateControl?
    ensures Step(s, e, catalog) == s
  {
  }

  /** A run of events from a valid state. */
  function Run(s: GameState, es: seq<Event>, catalog: seq<Shape>): (r: GameState)
    requires Valid(s) && WellFormedCatalog(catalog)
    requires forall i :: 0 <= i < |es| ==> EventFits(es[i], catalog)
    ensures Valid(r)
    ensures (forall i :: 0 <= i < |es| ==> !es[i].ResetControl?) ==> r.score >= s.score && r.level >= s.level
    decreases |es|
  {
    if |es| == 0 then s
    else
      assert forall i :: 0 <= i < |es| - 1 ==> es[1..][i] == es[i + 1];
      Run(Step(s, es[0], catalog), es[1..], catalog)
  }

  /** Every state reachable from a new game is valid: the board stays N×N,
      the level matches the score, and the piece stays between the side
      walls and above the floor. */
  lemma ReachableStatesAreValid(es: seq<Event>, catalog: seq<Shape>)
    requires WellFormedCatalog(catalog)
    requires forall i :: 0 <= i < |es| ==> EventFits(es[i], catalog)
    ensures Valid(Run(InitialState(), es, catalog))
  {
  }
}
