/** The game session: score, cleared lines, level, the back-to-back flag, the
    time of the last gravity tick and the falling piece (which owns the grid).
    The clock and the random generator are parameters: now is the current
    time in milliseconds, kindRoll and stateRoll are the draws for the next
    spawn. */
module Game {
  import opened Catalog
  import opened Board
  import opened Pieces
  import opened Levels

  /** Running: the game goes on. GameOver and Quit stand for the process
      exits on a blocked lock and on Escape. */
  datatype Outcome = Running | GameOver | Quit

  datatype KeyCode = Left | Right | Up | Down | Escape | Other

  class Tetris {
    var score: int
    var totalLines: int
    var level: Level
    var piece: Piece
    var lastTick: int
    var lastTetris: bool

    ghost predicate Valid()
      reads this, piece, piece.environment
    {
      piece.Valid() && score >= 0 && totalLines >= 0 && level == LevelFor(totalLines) &&
      FullCount(piece.environment.rows) == 0
    }

    /** The piece's shadow is up to date, as every piece operation leaves it. */
    ghost predicate Consistent()
      reads this, piece, piece.environment
      requires Valid()
    {
      piece.ShadowConsistent()
    }

    constructor (now: int, kindRoll: int, stateRoll: int)
      requires 0 <= stateRoll < 4
      ensures Valid() && Consistent()
      ensures score == 0 && totalLines == 0 && level == Level(1) && !lastTetris && lastTick == now
      ensures fresh(piece) && fresh(piece.environment)
      ensures piece.SpawnedOn(piece.environment, kindRoll, stateRoll)
      ensures forall r, c :: 0 <= r < Rows && 0 <= c < Cols ==> piece.environment.rows[r][c] == Blank
    {
      score := 0;
      totalLines := 0;
      level := Level(1);
      var grid := new Grid();
      piece := new Piece(grid, kindRoll, stateRoll);
      lastTick := now;
      lastTetris := false;
    }

    /** Locks the piece at its shadow into a copy of its grid, clears full
        rows and spawns the next piece on the result; returns the number of
        rows cleared. Presumes the shadow is collision-free, which the caller
        checks first. */
    method AssimilatePiece(kindRoll: int, stateRoll: int) returns (rowsRemoved: nat)
      requires Valid() && 0 <= stateRoll < 4
      requires !Collides(piece.environment.rows, piece.positions[piece.state],
                         piece.shadowPosition.1, piece.shadowPosition.0)
      modifies this`piece
      ensures fresh(piece) && fresh(piece.environment)
      ensures piece.SpawnedOn(piece.environment, kindRoll, stateRoll)
      ensures rowsRemoved == FullCount(old(piece.Locked())) && rowsRemoved <= 4
      ensures FullCount(piece.environment.rows) == 0
      ensures piece.environment.rows == Compacted(old(piece.Locked()))
      ensures unchanged(old(piece)) && unchanged(old(piece.environment))
    {
      var y, x := piece.shadowPosition.0, piece.shadowPosition.1;
      var offsets := piece.positions[piece.state];
      var grid := new Grid.Clone(piece.environment);
      ghost var before := piece.environment.rows;
      ghost var cells := Cells(piece.shadowPosition, offsets);
      FreePlacementCells(before, offsets, piece.shadowPosition);
      for i := 0 to 4
        modifies grid
        invariant grid.Valid()
        invariant grid.rows == Stamp(before, cells[..i], piece.tetrimono)
      {
        var j := y + offsets[i].0;
        var k := x + offsets[i].1;
        assert cells[..i + 1][..i] == cells[..i];
        grid.rows := grid.rows[j := grid.rows[j][k := piece.tetrimono]];
      }
      assert cells[..4] == cells;
      assert grid.rows == old(piece.Locked());
      StampFullCount(before, cells, piece.tetrimono);
      CompactedHasNoFullRow(grid.rows);
      rowsRemoved := grid.CleanRows();
      piece := new Piece(grid, kindRoll, stateRoll);
    }

    /** The bookkeeping after a lock that cleared rowsReduced rows: points
        at the level the lock happened on, the back-to-back flag, the line
        total and the level derived from it. A lock that cleared nothing
        leaves the score and the flag alone. */
    method AddClearedRows(rowsReduced: nat)
      requires totalLines >= 0 && score >= 0 && level == LevelFor(totalLines)
      modifies this`score, this`lastTetris, this`totalLines, this`level
      ensures score == old(score) + LineClearScore(rowsReduced, old(lastTetris), old(level.number))
      ensures lastTetris == TetrisFlagAfter(rowsReduced, old(lastTetris))
      ensures totalLines == old(totalLines) + rowsReduced
      ensures level == LevelFor(totalLines)
      ensures score >= old(score)
    {
      LevelSteps(totalLines);
      if rowsReduced > 0 {
        if rowsReduced == 4 && lastTetris {
          score := score + 1200 * level.number;
          lastTetris := true;
        } else if rowsReduced == 4 {
          score := score + 800 * level.number;
          lastTetris := true;
        } else {
          score := score + 100 * level.number * rowsReduced;
          lastTetris := false;
        }
      }
      totalLines := totalLines + rowsReduced;
      level := Level(totalLines / 10 + 1);
    }

    /** One call of the update hook at time now. */
    method Update(now: int, kindRoll: int, stateRoll: int) returns (outcome: Outcome)
      requires Valid() && 0 <= stateRoll < 4
      modifies this, piece
      ensures Valid()
      ensures outcome != Quit
      ensures score >= old(score)
      // Before the interval has elapsed nothing happens.
      ensures now - old(lastTick) < old(level).GetSpeed() ==>
                outcome == Running && unchanged(this) && unchanged(piece)
      // Falling: one gravity step.
      ensures now - old(lastTick) >= old(level).GetSpeed() &&
              old(piece.position != piece.shadowPosition) ==>
                outcome == Running && piece == old(piece) && piece.ShiftedBy((1, 0)) &&
                score == old(score) && totalLines == old(totalLines) && level == old(level) &&
                lastTetris == old(lastTetris) && lastTick == now
      // At rest on a blocked shadow: game over, nothing written.
      ensures now - old(lastTick) >= old(level).GetSpeed() &&
              old(piece.position == piece.shadowPosition) ==>
                (outcome == GameOver <==>
                 old(Collides(piece.environment.rows, piece.positions[piece.state],
                              piece.shadowPosition.1, piece.shadowPosition.0)))
      ensures outcome == GameOver ==> unchanged(this) && unchanged(piece)
      // At rest on a free shadow: lock, clear, score, spawn.
      ensures now - old(lastTick) >= old(level).GetSpeed() &&
              old(piece.position == piece.shadowPosition) && outcome == Running ==>
                var n := FullCount(old(piece.Locked()));
                n <= 4 && fresh(piece) && fresh(piece.environment) &&
                piece.SpawnedOn(piece.environment, kindRoll, stateRoll) &&
                piece.environment.rows == Compacted(old(piece.Locked())) &&
                score == old(score) + LineClearScore(n, old(lastTetris), old(level.number)) &&
                lastTetris == TetrisFlagAfter(n, old(lastTetris)) &&
                totalLines == old(totalLines) + n &&
                level == LevelFor(totalLines) && lastTick == now
      // A session whose shadow is up to date never reaches game over, and
      // keeps its shadow up to date.
      ensures old(Consistent()) ==> outcome != GameOver && Consistent()
    {
      outcome := Running;
      if now - lastTick >= level.GetSpeed() {
        if piece.position == piece.shadowPosition {
          var y, x := piece.shadowPosition.0, piece.shadowPosition.1;
          var c := piece.CollidesWithEnvironment(x, y, piece.state);
          if c {
            outcome := GameOver;
            return;
          }
          var rowsReduced := AssimilatePiece(kindRoll, stateRoll);
          AddClearedRows(rowsReduced);
        } else {
          piece.Shift((1, 0));
        }
        lastTick := now;
      }
    }

    /** The key dispatch: arrows move, rotate or drop the piece one step,
        Escape quits, any other key is ignored. */
    method KeyDownEvent(keycode: KeyCode) returns (outcome: Outcome)
      requires Valid()
      modifies piece
      ensures Valid() && unchanged(this)
      ensures outcome == Quit <==> keycode == Escape
      ensures outcome != GameOver
      ensures keycode == Left ==> piece.ShiftedBy((0, -1))
      ensures keycode == Right ==> piece.ShiftedBy((0, 1))
      ensures keycode == Up ==> piece.Rotated()
      ensures keycode == Down ==> piece.ShiftedBy((1, 0))
      ensures keycode == Escape || keycode == Other ==> unchanged(piece)
      ensures old(Consistent()) ==> Consistent()
    {
      outcome := Running;
      match keycode
      case Left => piece.Shift((0, -1));
      case Right => piece.Shift((0, 1));
      case Up => piece.Rotate();
      case Down => piece.Shift((1, 0));
      case Escape => outcome := Quit;
      case Other =>
    }
  }
}
