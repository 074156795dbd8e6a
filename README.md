# tetris.rs game engine, modelled in Dafny

This project models the engine of tetris.rs, a one-file falling-block game
written in Rust (`src/main.rs`). It covers:

- the tetromino catalog: seven kinds plus `BLANK`, each with four rotation
  states of four offsets, and a colour tag per kind;
- the falling piece: collision tests against a 20 x 10 grid, the shadow
  (where the piece would land if dropped now), rotation and shifting;
- row clearing;
- the level speed table;
- the game session's update tick: gravity, locking the piece into the grid,
  scoring, the line total and the level;
- the key dispatch.

The source's coordinates are `f32` values that only ever hold whole numbers.
Here they are `int`, and the `as usize` casts become plain indexing. Every
index is proved to be in bounds.

Modules follow the source's entities:

- `Catalog` (`catalog.dfy`): `Tetrimonos`, its integer conversion, the
  rotation tables and the colour tags.
- `Board` (`board.dfy`): the `Grid` class and `clean_rows`, with the value
  functions that specify it.
- `Pieces` (`piece.dfy`): the `Piece` class. Its fields are updated in place
  by `calculate_fall_position`, `rotate` and `shift`, like the source's
  struct.
- `Levels` (`level.dfy`): `Level::get_speed` and the scoring rules.
- `Game` (`game.dfy`): the `Tetris` class, with `assimilate_piece`, the
  `update` hook and `key_down_event`.

What comes from outside is passed in as parameters:

- the clock is the parameter `now`, in milliseconds, and the `lastTick`
  field keeps the time of the last tick;
- the two random draws of `Piece::new` are the parameters `kindRoll` and
  `stateRoll`;
- the two process exits become the outcomes `GameOver` and `Quit`.

Behaviour kept as written:

- A new piece gets the drawn rotation state, not state 0.
- A lock that clears no row leaves both the score and the back-to-back flag
  alone.
- The back-to-back flag is set by every four-row clear.
- Scoring uses the level from before the lock.
- A blocked spawn does not end the game. The comment at src/main.rs:415 and
  the `exit(0)` at src/main.rs:417-419 fire only when the piece rests on its
  shadow and that shadow collides. But when the spawn position already
  collides, `calculate_fall_position` never enters its loop and puts the
  shadow one row above the anchor (src/main.rs:202-205). The anchor and the
  shadow then differ, so the next tick takes the gravity branch
  (src/main.rs:439) and the exit is not reached. The model keeps this: the
  `GameOver` return of `Game.Tetris.Update` is reachable only from a state
  whose shadow is stale.

`Update` is proved never to return `GameOver` while the shadow is up to date
(`Consistent()`). Every piece operation keeps the shadow up to date. The
`GameOver` branch is modelled as written, and its precondition only asks
for the structural invariant.

Invariants the model proves the session keeps:

- the grid stays 20 x 10;
- the rotation state stays in 0..3;
- the level always equals total lines / 10 + 1;
- the grid never holds a full row between ticks, so one lock clears at most
  four rows.

## Model

| member | source | states |
|---|---|---|
| `Catalog.TryFrom` | src/main.rs:64-75 | The integer-to-kind conversion succeeds exactly for 0..7, and 7 is `BLANK` |
| `Catalog.SpawnKind` | src/main.rs:104-108 | The spawn kind is `BLANK` exactly when the roll is outside 0..6 (the fallback on conversion error) |
| `Catalog.SpawnCoversPlayable` | src/main.rs:104-108 | Each of the seven playable kinds is drawn by some roll in 0..6 |
| `Catalog.GeneratePositions` | src/main.rs:125-184 | Every kind has 4 states of 4 offsets, each offset in [-2,1] x [-2,1] |
| `Catalog.PlayableStatesDistinct` | src/main.rs:127-175 | For each playable kind and state 0..3, the four offsets are pairwise distinct |
| `Catalog.DegenerateTables` | src/main.rs:134-140 | `BLANK` is four (0,0) offsets in every state; `O` has the same table in all four states (also lines 176-182) |
| `Catalog.GenerateColor` | src/main.rs:78-89 | Each kind's colour tag; the background tag is given exactly to `BLANK` |
| `Catalog.ColorsDistinct` | src/main.rs:78-89 | Colour tags are injective over the eight kinds; only `BLANK` gets the background tag |
| `Board.NotFullRows` | src/main.rs:308-310 | The filter keeps only rows of the grid that contain a `BLANK`, and never lengthens the grid |
| `Board.FullCount` | src/main.rs:311 | The number of full rows never exceeds the number of rows |
| `Board.Compacted` | src/main.rs:307-317 | The grid a clear leaves: k blank rows on top of the surviving rows in order, where k is the full-row count; it has as many rows as the original |
| `Board.KeptPlusFull` | src/main.rs:308-311 | Kept rows plus full rows account for every row, so 20 minus the kept count is the full-row count |
| `Board.CompactedWellFormed` | src/main.rs:311-315 | Clearing a 20 x 10 grid leaves a 20 x 10 grid |
| `Board.NoFullRowUnchanged` | src/main.rs:307-317 | With no full row, clearing leaves the grid exactly as it was |
| `Board.CompactedHasNoFullRow` | src/main.rs:307-317 | After a clear no row is full, and clearing again changes nothing (idempotent) |
| `Board.CompactedFilled` | src/main.rs:307-317 | A clear of k rows removes exactly 10·k non-`BLANK` cells |
| `Board.UpdateRowFullCount` | src/main.rs:385 | Writing into one row can make at most one more row full |
| `Board.EmptyGridNoFullRow` | src/main.rs:274-278 | The all-`BLANK` grid has no full row |
| `Board.Grid.constructor` | src/main.rs:274-278 | `Grid::new` is 20 x 10, every cell `BLANK`, no full row |
| `Board.Grid.Clone` | src/main.rs:381 | The clone holds the same cells as the original |
| `Board.Grid.CleanRows` | src/main.rs:305-317 | Returns the number of full rows k; afterwards rows 0..k-1 are blank, followed by the original non-full rows in their original order, and the grid is 20 x 10 |
| `Pieces.FreePlacementCells` | src/main.rs:187-188 | A collision-free placement covers only in-bounds `BLANK` cells, the anchor plus each offset (`Cells`), so the lock's indexing is safe (used at src/main.rs:379-386) |
| `Pieces.RestsAt` | src/main.rs:199-207 | The shadow the downward walk defines: same column, at most one row above the anchor; every row from the anchor down to it is free and the next one collides, or it is one row above a colliding anchor |
| `Pieces.RestsAtUnique` | src/main.rs:199-207 | The shadow the downward walk defines is unique |
| `Pieces.ShadowOfFreeStart` | src/main.rs:199-207 | The shadow is at or below the anchor iff the anchor is collision-free, and then the shadow is collision-free |
| `Pieces.BelowFloorCollides` | src/main.rs:202-204 | Two rows below the floor every state collides, so the downward walk terminates |
| `Pieces.Piece.Locked` | src/main.rs:378-386 | The grid the lock writes: the environment with the piece's kind on the four shadow cells, still 20 x 10 |
| `Pieces.Piece.LockedCells` | src/main.rs:378-386 | In the locked grid each of the four shadow cells holds the piece's kind, and every other cell keeps the environment's value |
| `Pieces.Piece.constructor` | src/main.rs:103-123 | `Piece::new`: drawn kind, drawn rotation state, anchor (2,5), tables and colour of the kind, shadow computed on the given grid |
| `Pieces.Piece.CollidesWithEnvironment` | src/main.rs:186-197 | True iff some cell anchor+offset of the given state is off the 20 x 10 grid or non-`BLANK`; the bounds test guards the index |
| `Pieces.Piece.CalculateFallPosition` | src/main.rs:199-207 | Only the shadow changes. Same column; if the anchor collides, the shadow is one row above it; otherwise the shadow is at or below the anchor, every row from the anchor to the shadow is free, and the row below collides |
| `Pieces.Piece.Rotate` | src/main.rs:209-217 | If state (s+1)%4 collides at the anchor nothing changes; otherwise the state becomes (s+1)%4, the anchor, kind and grid stay, and the shadow is recomputed |
| `Pieces.Piece.Shift` | src/main.rs:219-225 | If anchor+dir collides nothing changes; otherwise the anchor becomes anchor+dir, the state, kind and grid stay, and the shadow is recomputed |
| `Pieces.Stamp` | src/main.rs:382-386 | Writing the lock's cells keeps the grid 20 x 10 |
| `Pieces.StampAt` | src/main.rs:382-386 | After the writes each written cell holds the piece's kind, and every other cell keeps its old value |
| `Pieces.StampFullCount` | src/main.rs:382-387 | Writing n cells makes at most n more rows full |
| `Levels.Level.GetSpeed` | src/main.rs:333-352 | The interval is between 20 and 750 ms, and 20 for any level below 1 |
| `Levels.SpeedNonIncreasing` | src/main.rs:333-352 | For levels a <= b, both at least 1, the interval at b is at most the interval at a |
| `Levels.LevelSteps` | src/main.rs:436-437 | The level is at least 1, is 1 exactly for 0..9 lines, and rises by one every ten lines |
| `Levels.LevelFor` | src/main.rs:437 | The level after n lines is n/10+1: at least 1 for n >= 0, and n lies in [10·(level-1), 10·level) |
| `Levels.LineClearScore` | src/main.rs:422-435 | Points are never negative at level >= 1, and zero when no row cleared |
| `Levels.TetrisFlagAfter` | src/main.rs:422-434 | The back-to-back flag after a lock: set by a four-row clear, cleared by one of 1..3 rows, kept when no row cleared |
| `Levels.BackToBack` | src/main.rs:422-435 | A four-row clear arms the flag, so a second one earns 1200·level (800 then 1200 at level 1); one row earns 100·level and disarms it |
| `Game.Tetris.constructor` | src/main.rs:366-376 | Score 0, 0 lines, level 1, flag off, timer at now, a piece spawned on an empty grid |
| `Game.Tetris.AssimilatePiece` | src/main.rs:378-390 | Writes the piece's kind into its four shadow cells of a copy of the grid, clears it and spawns the next piece on the result. Returns the cleared count (at most 4) and leaves the old piece and grid untouched |
| `Game.Tetris.AddClearedRows` | src/main.rs:422-437 | Score +1200·level (4 rows, flag set), +800·level (4 rows), +100·level·n (1..3 rows), unchanged for 0. Flag set after 4 rows, cleared after 1..3, kept for 0. Lines += n, then level = lines/10+1. Score never decreases |
| `Game.Tetris.Update` | src/main.rs:411-444 | Branches are exact. Interval not elapsed: nothing changes. Anchor above the shadow: one `shift((1,0))`. At the shadow and blocked: `GameOver` with nothing changed. Otherwise: lock, clear, score, spawn. Never `GameOver` while the shadow is up to date |
| `Game.Tetris.KeyDownEvent` | src/main.rs:456-471 | Left/Right/Down shift by (0,-1)/(0,1)/(1,0), Up rotates, Escape yields `Quit`, other keys change nothing; the score and grid are untouched |

## Left out

- Rendering: `Piece::draw`, `Grid::draw`, `Tetris::draw`, `draw_hud`, the RGB
  values of `Colors::get_color`, `Level.color`, `UNIT` and `FPS`. These are
  graphics calls into ggez; the model keeps only the colour tag of each kind.
- `main`, `ContextBuilder` and `event::run`: window and event-loop setup.
- The wall clock (`Instant::now`, `Duration`): the caller passes the current
  time in milliseconds as `now`, and `lastTick` stores it when a tick fires.
- The random generator: `kindRoll` and `stateRoll` stand for its two draws.
  `stateRoll` must be in 0..3, as the generator's range guarantees. Any
  `kindRoll` is accepted, and one outside 0..6 yields the `BLANK` fallback.
- `exit(0)`: returned as `GameOver` (on a blocked lock) or `Quit` (on Escape),
  with the state left as it was.
- The `_keymod` and `_repeat` arguments of `key_down_event`, which the source
  ignores too.
- `i32` overflow of the score and line total: both are unbounded integers.
  The line total is never negative, so Dafny's division agrees with Rust's
  truncating division in the level formula.
