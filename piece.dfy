/** The falling piece: its kind, rotation state, anchor and shadow (where it
    would land if dropped now), tested against the grid it was spawned on. */
module Pieces {
  import opened Catalog
  import opened Board

  /** A grid coordinate (row, column). */
  type Point = (int, int)

  /** True iff some offset, added to the anchor (row y, column x), lands off
      the grid or on a non-BLANK cell. */
  ghost predicate Collides(g: seq<Row>, offsets: seq<Offset>, x: int, y: int)
    requires WellFormed(g)
  {
    exists i :: 0 <= i < |offsets| && !Free(g, y + offsets[i].0, x + offsets[i].1)
  }

  /** The absolute cells a state's offsets cover when anchored at a. */
  function Cells(a: Point, offsets: seq<Offset>): (cells: seq<Point>)
    ensures |cells| == |offsets|
    ensures forall i :: 0 <= i < |offsets| ==>
              cells[i] == (a.0 + offsets[i].0, a.1 + offsets[i].1)
  {
    seq(|offsets|, i requires 0 <= i < |offsets| => (a.0 + offsets[i].0, a.1 + offsets[i].1))
  }

  /** A collision-free placement covers only free cells. */
  lemma FreePlacementCells(g: seq<Row>, offsets: seq<Offset>, a: Point)
    requires WellFormed(g) && !Collides(g, offsets, a.1, a.0)
    ensures forall i :: 0 <= i < |offsets| ==> Free(g, Cells(a, offsets)[i].0, Cells(a, offsets)[i].1)
  {
    forall i | 0 <= i < |offsets|
      ensures Free(g, Cells(a, offsets)[i].0, Cells(a, offsets)[i].1)
    {
      assert Cells(a, offsets)[i] == (a.0 + offsets[i].0, a.1 + offsets[i].1);
    }
  }

  /** shadow is where the downward walk from start stops: same column; if the
      start itself collides, one row above it; otherwise the last row of an
      unbroken collision-free run that begins at the start. */
  ghost predicate RestsAt(g: seq<Row>, offsets: seq<Offset>, start: Point, shadow: Point)
    requires WellFormed(g)
    ensures RestsAt(g, offsets, start, shadow) ==> shadow.1 == start.1 && shadow.0 >= start.0 - 1
  {
    shadow.1 == start.1 &&
    if Collides(g, offsets, start.1, start.0) then shadow.0 == start.0 - 1
    else
      start.0 <= shadow.0 &&
      (forall y :: start.0 <= y <= shadow.0 ==> !Collides(g, offsets, start.1, y)) &&
      Collides(g, offsets, start.1, shadow.0 + 1)
  }

  /** The resting place is unique. */
  lemma RestsAtUnique(g: seq<Row>, offsets: seq<Offset>, start: Point, s1: Point, s2: Point)
    requires WellFormed(g)
    requires RestsAt(g, offsets, start, s1) && RestsAt(g, offsets, start, s2)
    ensures s1 == s2
  {
  }

  /** From a free start the shadow is free and not above the start; only a
      colliding start puts the shadow one row above. */
  lemma ShadowOfFreeStart(g: seq<Row>, offsets: seq<Offset>, start: Point, shadow: Point)
    requires WellFormed(g) && RestsAt(g, offsets, start, shadow)
    ensures !Collides(g, offsets, start.1, start.0) <==> start.0 <= shadow.0
    ensures !Collides(g, offsets, start.1, start.0) ==> !Collides(g, offsets, shadow.1, shadow.0)
  {
  }

  /** Two rows below the floor, any non-empty state with row offsets of at
      least -2 collides. */
  lemma BelowFloorCollides(g: seq<Row>, offsets: seq<Offset>, x: int, y: int)
    requires WellFormed(g) && |offsets| > 0 && offsets[0].0 >= -2
    requires y >= Rows + 2
    ensures Collides(g, offsets, x, y)
  {
    assert !Free(g, y + offsets[0].0, x + offsets[0].1);
  }

  class Piece {
    const tetrimono: Kind
    const positions: seq<seq<Offset>>
    const color: Color
    const environment: Grid
    var position: Point
    var shadowPosition: Point
    var state: nat

    /** Structural invariant: the tables belong to the kind, the state indexes
        them and the grid is Rows x Cols. */
    ghost predicate Valid()
      reads this, environment
    {
      positions == GeneratePositions(tetrimono) &&
      color == GenerateColor(tetrimono) &&
      state < 4 &&
      environment.Valid()
    }

    /** The shadow is the resting place of the current state below the anchor. */
    ghost predicate ShadowConsistent()
      reads this, environment
      requires Valid()
    {
      RestsAt(environment.rows, positions[state], position, shadowPosition)
    }

    /** A fresh piece on grid: kind drawn from kindRoll, rotation state
        stateRoll, anchored at row 2 and the middle column, shadow computed. */
    ghost predicate SpawnedOn(grid: Grid, kindRoll: int, stateRoll: int)
      reads this, environment
    {
      Valid() && environment == grid &&
      tetrimono == SpawnKind(kindRoll) && state == stateRoll &&
      position == (2, Cols / 2) && ShadowConsistent()
    }

    /** What the anchor's cells become in the grid when the piece locks at its
        shadow; this presumes the shadow is collision-free. */
    ghost function Locked(): (g: seq<Row>)
      reads this, environment
      requires Valid()
      requires !Collides(environment.rows, positions[state], shadowPosition.1, shadowPosition.0)
      ensures WellFormed(g)
    {
      FreePlacementCells(environment.rows, positions[state], shadowPosition);
      Stamp(environment.rows, Cells(shadowPosition, positions[state]), tetrimono)
    }

    /** The locked grid holds the piece's kind on its four shadow cells and
        the environment's value everywhere else. */
    lemma LockedCells()
      requires Valid()
      requires !Collides(environment.rows, positions[state], shadowPosition.1, shadowPosition.0)
      ensures forall r, c :: 0 <= r < Rows && 0 <= c < Cols ==>
                Locked()[r][c] == if (r, c) in Cells(shadowPosition, positions[state])
                                  then tetrimono else environment.rows[r][c]
    {
      FreePlacementCells(environment.rows, positions[state], shadowPosition);
      StampEverywhere(environment.rows, Cells(shadowPosition, positions[state]), tetrimono);
    }

    /** The outcome of shift(dir): moved by dir with the shadow recomputed if
        that placement is collision-free, otherwise nothing changed. */
    twostate predicate ShiftedBy(dir: Point)
      reads this, environment
    {
      Valid() && environment.rows == old(environment.rows) && state == old(state) &&
      var target := (old(position).0 + dir.0, old(position).1 + dir.1);
      if Collides(environment.rows, positions[state], target.1, target.0)
      then position == old(position) && shadowPosition == old(shadowPosition)
      else position == target && ShadowConsistent()
    }

    /** The outcome of rotate(): the next state with the shadow recomputed if
        it is collision-free at the same anchor, otherwise nothing changed. */
    twostate predicate Rotated()
      reads this, environment
    {
      Valid() && environment.rows == old(environment.rows) && position == old(position) &&
      var next := (old(state) + 1) % 4;
      if Collides(environment.rows, positions[next], position.1, position.0)
      then state == old(state) && shadowPosition == old(shadowPosition)
      else state == next && ShadowConsistent()
    }

    constructor (grid: Grid, kindRoll: int, stateRoll: int)
      requires grid.Valid() && 0 <= stateRoll < 4
      ensures SpawnedOn(grid, kindRoll, stateRoll)
    {
      var t := SpawnKind(kindRoll);
      positions := GeneratePositions(t);
      position := (2, Cols / 2);
      shadowPosition := (0, 0);
      state := stateRoll;
      color := GenerateColor(t);
      tetrimono := t;
      environment := grid;
      new;
      CalculateFallPosition();
    }

    /** The collision test of state at anchor (row y, column x). */
    method CollidesWithEnvironment(x: int, y: int, s: nat) returns (c: bool)
      requires Valid() && s < 4
      ensures c == Collides(environment.rows, positions[s], x, y)
    {
      var offsets := positions[s];
      for n := 0 to 4
        invariant forall m :: 0 <= m < n ==> Free(environment.rows, y + offsets[m].0, x + offsets[m].1)
      {
        var i, j := offsets[n].0 + y, offsets[n].1 + x;
        if i < 0 || i >= Rows || j < 0 || j >= Cols || environment.rows[i][j] != Blank {
          return true;
        }
      }
      return false;
    }

    /** Walks down from the anchor until the piece collides and stores the
        row above as the shadow. */
    method CalculateFallPosition()
      requires Valid()
      modifies this`shadowPosition
      ensures Valid() && ShadowConsistent()
    {
      var y0, x := position.0, position.1;
      var y := y0;
      var c := CollidesWithEnvironment(x, y, state);
      while !c
        invariant y0 <= y
        invariant c == Collides(environment.rows, positions[state], x, y)
        invariant forall y' :: y0 <= y' < y ==> !Collides(environment.rows, positions[state], x, y')
        decreases Rows + 2 - y
      {
        if y >= Rows + 2 {
          BelowFloorCollides(environment.rows, positions[state], x, y);
        }
        y := y + 1;
        c := CollidesWithEnvironment(x, y, state);
      }
      y := y - 1;
      shadowPosition := (y, x);
    }

    method Rotate()
      requires Valid()
      modifies this
      ensures Rotated()
    {
      var prospectiveState := (state + 1) % 4;
      var c := CollidesWithEnvironment(position.1, position.0, prospectiveState);
      if !c {
        state := prospectiveState;
        CalculateFallPosition();
      }
    }

    method Shift(dir: Point)
      requires Valid()
      modifies this
      ensures ShiftedBy(dir)
    {
      var y, x := position.0, position.1;
      var c := CollidesWithEnvironment(x + dir.1, y + dir.0, state);
      if !c {
        position := (y + dir.0, x + dir.1);
        CalculateFallPosition();
        assert position == (old(position).0 + dir.0, old(position).1 + dir.1);
      }
    }
  }

  /** g with every cell of cells set to t, in order. */
  function Stamp(g: seq<Row>, cells: seq<Point>, t: Kind): (h: seq<Row>)
    requires WellFormed(g)
    requires forall i :: 0 <= i < |cells| ==> 0 <= cells[i].0 < Rows && 0 <= cells[i].1 < Cols
    ensures WellFormed(h)
    decreases |cells|
  {
    if cells == [] then g
    else
      var prev := Stamp(g, cells[..|cells| - 1], t);
      var (r, c) := cells[|cells| - 1];
      prev[r := prev[r][c := t]]
  }

  /** Stamping writes t into exactly the listed cells and leaves every other
      cell as it was. */
  lemma {:induction false} StampAt(g: seq<Row>, cells: seq<Point>, t: Kind, r: int, c: int)
    requires WellFormed(g)
    requires forall i :: 0 <= i < |cells| ==> 0 <= cells[i].0 < Rows && 0 <= cells[i].1 < Cols
    requires 0 <= r < Rows && 0 <= c < Cols
    ensures Stamp(g, cells, t)[r][c] == if (r, c) in cells then t else g[r][c]
    decreases |cells|
  {
    if cells != [] {
      var init := cells[..|cells| - 1];
      StampAt(g, init, t, r, c);
      assert cells == init + [cells[|cells| - 1]];
      assert (r, c) in cells <==> (r, c) in init || (r, c) == cells[|cells| - 1];
    }
  }

  /** StampAt for every cell at once. */
  lemma StampEverywhere(g: seq<Row>, cells: seq<Point>, t: Kind)
    requires WellFormed(g)
    requires forall i :: 0 <= i < |cells| ==> 0 <= cells[i].0 < Rows && 0 <= cells[i].1 < Cols
    ensures forall r, c :: 0 <= r < Rows && 0 <= c < Cols ==>
              Stamp(g, cells, t)[r][c] == if (r, c) in cells then t else g[r][c]
  {
    forall r, c | 0 <= r < Rows && 0 <= c < Cols
      ensures Stamp(g, cells, t)[r][c] == if (r, c) in cells then t else g[r][c]
    {
      StampAt(g, cells, t, r, c);
    }
  }

  /** Each stamped cell can complete at most one row. */
  lemma {:induction false} StampFullCount(g: seq<Row>, cells: seq<Point>, t: Kind)
    requires WellFormed(g)
    requires forall i :: 0 <= i < |cells| ==> 0 <= cells[i].0 < Rows && 0 <= cells[i].1 < Cols
    ensures FullCount(Stamp(g, cells, t)) <= FullCount(g) + |cells|
    decreases |cells|
  {
    if cells != [] {
      var init := cells[..|cells| - 1];
      StampFullCount(g, init, t);
      var prev := Stamp(g, init, t);
      var (r, c) := cells[|cells| - 1];
      UpdateRowFullCount(prev, r, prev[r][c := t]);
    }
  }
}
