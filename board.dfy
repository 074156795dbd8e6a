/** The playing field: a 20 x 10 grid of kinds, BLANK marking an empty cell,
    and the row clearing that runs after every lock. */
module Board {
  import opened Catalog

  const Rows: nat := 20
  const Cols: nat := 10

  type Row = seq<Kind>

  /** Exactly Rows rows of exactly Cols cells each. */
  ghost predicate WellFormed(g: seq<Row>)
  {
    |g| == Rows && forall r :: 0 <= r < |g| ==> |g[r]| == Cols
  }

  /** The cell (r, c) is on the grid and empty. */
  ghost predicate Free(g: seq<Row>, r: int, c: int)
    requires WellFormed(g)
  {
    0 <= r < Rows && 0 <= c < Cols && g[r][c] == Blank
  }

  /** The filter test: a row survives a clear iff it holds a BLANK cell. */
  predicate HasBlank(row: Row)
  {
    exists c :: 0 <= c < |row| && row[c] == Blank
  }

  function BlankRow(): (row: Row)
    ensures |row| == Cols && forall c :: 0 <= c < Cols ==> row[c] == Blank
  {
    seq(Cols, _ => Blank)
  }

  function BlankRows(n: nat): (g: seq<Row>)
    ensures |g| == n && forall r :: 0 <= r < n ==> g[r] == BlankRow()
  {
    seq(n, _ => BlankRow())
  }

  /** The rows that still hold a BLANK cell, in their original order. */
  function NotFullRows(g: seq<Row>): (kept: seq<Row>)
    ensures |kept| <= |g|
    ensures forall i :: 0 <= i < |kept| ==> kept[i] in g && HasBlank(kept[i])
  {
    if g == [] then []
    else if HasBlank(g[0]) then [g[0]] + NotFullRows(g[1..])
    else NotFullRows(g[1..])
  }

  /** The number of rows with no BLANK cell. */
  function FullCount(g: seq<Row>): (n: nat)
    ensures n <= |g|
  {
    if g == [] then 0
    else (if HasBlank(g[0]) then 0 else 1) + FullCount(g[1..])
  }

  /** The grid a clear leaves: as many blank rows as there were full rows,
      on top of the surviving rows. */
  ghost function Compacted(g: seq<Row>): (c: seq<Row>)
    ensures |c| == |g|
  {
    KeptPlusFull(g);
    BlankRows(FullCount(g)) + NotFullRows(g)
  }

  /** The number of non-BLANK cells of a row and of a grid. */
  function RowFilled(row: Row): (n: nat)
    ensures n <= |row|
  {
    if row == [] then 0
    else (if row[0] == Blank then 0 else 1) + RowFilled(row[1..])
  }

  function Filled(g: seq<Row>): (n: nat)
  {
    if g == [] then 0 else RowFilled(g[0]) + Filled(g[1..])
  }

  /** Every row is either kept or counted as full. */
  lemma {:induction false} KeptPlusFull(g: seq<Row>)
    ensures |NotFullRows(g)| + FullCount(g) == |g|
  {
    if g != [] {
      KeptPlusFull(g[1..]);
    }
  }

  lemma {:induction false} NotFullRowsAppend(a: seq<Row>, b: seq<Row>)
    ensures NotFullRows(a + b) == NotFullRows(a) + NotFullRows(b)
    ensures FullCount(a + b) == FullCount(a) + FullCount(b)
    ensures Filled(a + b) == Filled(a) + Filled(b)
  {
    if a != [] {
      assert (a + b)[0] == a[0];
      assert (a + b)[1..] == a[1..] + b;
      NotFullRowsAppend(a[1..], b);
    } else {
      assert a + b == b;
    }
  }

  /** A grid whose every row holds a BLANK loses nothing to the filter. */
  lemma {:induction false} AllBlankKept(g: seq<Row>)
    requires forall r :: 0 <= r < |g| ==> HasBlank(g[r])
    ensures NotFullRows(g) == g && FullCount(g) == 0
  {
    if g != [] {
      assert HasBlank(g[0]);
      AllBlankKept(g[1..]);
    }
  }

  lemma {:induction false} FullCountZero(g: seq<Row>)
    requires FullCount(g) == 0
    ensures forall r :: 0 <= r < |g| ==> HasBlank(g[r])
  {
    if g != [] {
      FullCountZero(g[1..]);
      forall r | 0 <= r < |g| ensures HasBlank(g[r]) {
        if r > 0 { assert g[r] == g[1..][r - 1]; }
      }
    }
  }

  lemma BlankRowsHaveBlank(n: nat)
    ensures forall r :: 0 <= r < n ==> HasBlank(BlankRows(n)[r])
  {
    forall r | 0 <= r < n ensures HasBlank(BlankRows(n)[r]) {
      assert BlankRows(n)[r][0] == Blank;
    }
  }

  /** A clear keeps the grid Rows x Cols. */
  lemma CompactedWellFormed(g: seq<Row>)
    requires WellFormed(g)
    ensures WellFormed(Compacted(g))
  {
    KeptPlusFull(g);
    var kept := NotFullRows(g);
    var c := Compacted(g);
    forall r | 0 <= r < |c| ensures |c[r]| == Cols {
      if r >= FullCount(g) {
        assert c[r] == kept[r - FullCount(g)];
        assert c[r] in g;
      }
    }
  }

  /** With no full row a clear changes nothing. */
  lemma NoFullRowUnchanged(g: seq<Row>)
    requires FullCount(g) == 0
    ensures Compacted(g) == g
  {
    FullCountZero(g);
    AllBlankKept(g);
  }

  /** After a clear no full row is left, so a second clear removes nothing
      and leaves the grid as it is. */
  lemma CompactedHasNoFullRow(g: seq<Row>)
    ensures FullCount(Compacted(g)) == 0
    ensures Compacted(Compacted(g)) == Compacted(g)
  {
    var blanks := BlankRows(FullCount(g));
    var kept := NotFullRows(g);
    BlankRowsHaveBlank(FullCount(g));
    AllBlankKept(blanks);
    AllBlankKept(kept);
    NotFullRowsAppend(blanks, kept);
    NoFullRowUnchanged(Compacted(g));
  }

  lemma {:induction false} FullRowFilled(row: Row)
    requires !HasBlank(row)
    ensures RowFilled(row) == |row|
  {
    if row != [] {
      assert row[0] != Blank;
      assert !HasBlank(row[1..]) by {
        forall c | 0 <= c < |row[1..]| ensures row[1..][c] != Blank {
          assert row[1..][c] == row[c + 1];
        }
      }
      FullRowFilled(row[1..]);
    }
  }

  lemma {:induction false} BlankRowsEmpty(n: nat)
    ensures Filled(BlankRows(n)) == 0
  {
    if n > 0 {
      var row := BlankRow();
      assert forall k :: 0 <= k <= Cols ==> RowFilled(row[k..]) == 0 by {
        forall k | 0 <= k <= Cols ensures RowFilled(row[k..]) == 0 {
          BlankSuffixEmpty(row, k);
        }
      }
      assert row[0..] == row;
      assert BlankRows(n)[1..] == BlankRows(n - 1);
      BlankRowsEmpty(n - 1);
    }
  }

  lemma {:induction false} BlankSuffixEmpty(row: Row, k: nat)
    requires k <= |row|
    requires forall c :: 0 <= c < |row| ==> row[c] == Blank
    ensures RowFilled(row[k..]) == 0
    decreases |row| - k
  {
    if k < |row| {
      assert row[k..][1..] == row[k + 1..];
      BlankSuffixEmpty(row, k + 1);
    }
  }

  /** The filter drops exactly Cols filled cells per full row. */
  lemma {:induction false} FilledSplit(g: seq<Row>)
    requires forall r :: 0 <= r < |g| ==> |g[r]| == Cols
    ensures Filled(g) == Filled(NotFullRows(g)) + Cols * FullCount(g)
  {
    if g != [] {
      FilledSplit(g[1..]);
      if HasBlank(g[0]) {
        assert ([g[0]] + NotFullRows(g[1..]))[1..] == NotFullRows(g[1..]);
      } else {
        FullRowFilled(g[0]);
      }
    }
  }

  /** A clear of k rows removes exactly Cols * k filled cells. */
  lemma CompactedFilled(g: seq<Row>)
    requires WellFormed(g)
    ensures Filled(Compacted(g)) == Filled(g) - Cols * FullCount(g)
  {
    NotFullRowsAppend(BlankRows(FullCount(g)), NotFullRows(g));
    BlankRowsEmpty(FullCount(g));
    FilledSplit(g);
  }

  /** Rewriting one row turns at most one more row full. */
  lemma {:induction false} UpdateRowFullCount(g: seq<Row>, r: nat, row: Row)
    requires r < |g|
    ensures FullCount(g[r := row]) <= FullCount(g) + 1
  {
    if r == 0 {
      assert g[r := row][1..] == g[1..];
    } else {
      assert g[r := row][1..] == g[1..][r - 1 := row];
      UpdateRowFullCount(g[1..], r - 1, row);
    }
  }

  /** The empty grid has no full row. */
  lemma EmptyGridNoFullRow()
    ensures FullCount(BlankRows(Rows)) == 0
  {
    BlankRowsHaveBlank(Rows);
    AllBlankKept(BlankRows(Rows));
  }

  /** The grid object a piece looks at and a lock writes into. */
  class Grid {
    var rows: seq<Row>

    ghost predicate Valid()
      reads this
    {
      WellFormed(rows)
    }

    /** An all-BLANK grid. */
    constructor ()
      ensures Valid()
      ensures forall r, c :: 0 <= r < Rows && 0 <= c < Cols ==> rows[r][c] == Blank
      ensures FullCount(rows) == 0
    {
      rows := BlankRows(Rows);
      EmptyGridNoFullRow();
    }

    /** A copy of another grid's cells. */
    constructor Clone(other: Grid)
      requires other.Valid()
      ensures Valid() && rows == other.rows
    {
      rows := other.rows;
    }

    /** Removes every row without a BLANK cell at once and prepends as many
        blank rows; returns the number removed. */
    method CleanRows() returns (numRemoved: nat)
      requires Valid()
      modifies this
      ensures Valid()
      ensures numRemoved == FullCount(old(rows))
      ensures forall r :: 0 <= r < numRemoved ==> rows[r] == BlankRow()
      ensures rows[numRemoved..] == NotFullRows(old(rows))
      ensures rows == Compacted(old(rows))
    {
      var newGrid := NotFullRows(rows);
      KeptPlusFull(rows);
      CompactedWellFormed(rows);
      numRemoved := Rows - |newGrid|;
      var i := 0;
      while i < numRemoved
        invariant 0 <= i <= numRemoved
        invariant newGrid == BlankRows(i) + NotFullRows(old(rows))
      {
        assert [BlankRow()] + BlankRows(i) == BlankRows(i + 1);
        newGrid := [BlankRow()] + newGrid;
        i := i + 1;
      }
      rows := newGrid;
    }
  }
}
