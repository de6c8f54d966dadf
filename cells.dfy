/** Cells, columns and the read-only column queries of the cat-stacking puzzle.
    The board is ROWS x COLS; in the proofs it is viewed as a sequence of
    columns, each read from the top (row 0) down to the floor (row ROWS - 1). */
module Cells {

  datatype Option<T> = None | Some(value: T)

  /** The four cat colours, in the order the bag is filled. */
  datatype Color = White | Black | Brown | Gray

  /** A board cell: empty (`null` in the game) or a cat of one colour. */
  datatype Cell = Empty | Cat(color: Color)

  const ROWS: nat := 5
  const COLS: nat := 6
  const CATS_PER_COLUMN: nat := 5
  /** Columns dealt at the start; the last two stay empty. */
  const INITIAL_COLUMNS: nat := COLS - 2
  const CAT_COLORS: seq<Color> := [White, Black, Brown, Gray]

  /** One column, top cell first. */
  type Column = seq<Cell>

  predicate WellFormed(cols: seq<Column>) {
    |cols| == COLS && forall c :: 0 <= c < |cols| ==> |cols[c]| == ROWS
  }

  /** Two boards are equal when they agree cell by cell. */
  lemma SameBoard(a: seq<Column>, b: seq<Column>)
    requires WellFormed(a) && WellFormed(b)
    requires forall c, r :: 0 <= c < COLS && 0 <= r < ROWS ==> a[c][r] == b[c][r]
    ensures a == b
  {
    forall c | 0 <= c < COLS ensures a[c] == b[c] {
    }
  }

  /** A column of n empty cells. */
  function EmptyCells(n: nat): (col: Column)
    ensures |col| == n && forall r :: 0 <= r < n ==> col[r] == Empty
  {
    if n == 0 then [] else EmptyCells(n - 1) + [Empty]
  }

  /** The occupied cells of a column are contiguous and rest on the floor. */
  predicate Settled(col: Column) {
    forall i, j :: 0 <= i < j < |col| && col[i] != Empty ==> col[j] != Empty
  }

  predicate AllSettled(cols: seq<Column>) {
    forall c :: 0 <= c < |cols| ==> Settled(cols[c])
  }

  predicate AllEmpty(cols: seq<Column>) {
    forall c, r :: 0 <= c < |cols| && 0 <= r < |cols[c]| ==> cols[c][r] == Empty
  }

  /** The scan of `findTopCatRow` from row `i` downwards. */
  function TopRowFrom(col: Column, i: nat): (r: int)
    requires i <= |col|
    ensures r == -1 <==> forall k :: i <= k < |col| ==> col[k] == Empty
    ensures r != -1 ==> i <= r < |col| && col[r] != Empty
    ensures r != -1 ==> forall k :: i <= k < r ==> col[k] == Empty
    decreases |col| - i
  {
    if i == |col| then -1
    else if col[i] != Empty then i
    else TopRowFrom(col, i + 1)
  }

  /** `findTopCatRow`: the smallest occupied row, or -1 for an empty column. */
  function TopRow(col: Column): (r: int)
    ensures -1 <= r < |col|
    ensures r == -1 <==> forall k :: 0 <= k < |col| ==> col[k] == Empty
    ensures r != -1 ==> col[r] != Empty && forall k :: 0 <= k < r ==> col[k] == Empty
  {
    TopRowFrom(col, 0)
  }

  /** `findLandingRow`: the row a cat dropped on the column would occupy,
      or -1 when the column's top cat sits in row 0. */
  function LandingRow(col: Column): (r: int)
    ensures -1 <= r < |col|
    ensures r == -1 <==> |col| == 0 || col[0] != Empty
    ensures r != -1 ==> forall k :: 0 <= k <= r ==> col[k] == Empty
    ensures r != -1 && r + 1 < |col| ==> col[r + 1] != Empty
  {
    var top := TopRow(col);
    if top == 0 then -1
    else if top == -1 then |col| - 1
    else top - 1
  }

  /** On a settled column the landing row is the lowest empty cell, and there
      is none exactly when every cell is occupied. */
  lemma SettledLanding(col: Column)
    requires Settled(col)
    ensures LandingRow(col) == -1 <==> forall k :: 0 <= k < |col| ==> col[k] != Empty
    ensures LandingRow(col) != -1 ==> forall k :: LandingRow(col) < k < |col| ==> col[k] != Empty
  {
    var r := LandingRow(col);
    if r != -1 && r + 1 < |col| {
      forall k | r < k < |col| ensures col[k] != Empty {
        if k > r + 1 { assert col[r + 1] != Empty; }
      }
    }
  }

  // ---- colour counts -----------------------------------------------------

  /** Cats of colour y in one cell. */
  function CellCount(x: Cell, y: Color): nat {
    if x == Cat(y) then 1 else 0
  }

  /** Cats of colour y in rows 0 .. n - 1 of a column. */
  function CountUpTo(col: Column, y: Color, n: nat): nat
    requires n <= |col|
  {
    if n == 0 then 0 else CountUpTo(col, y, n - 1) + CellCount(col[n - 1], y)
  }

  /** Cats of colour y in a column. */
  function Count(col: Column, y: Color): nat {
    CountUpTo(col, y, |col|)
  }

  /** Cats of colour y in columns 0 .. n - 1. */
  function TallyUpTo(cols: seq<Column>, y: Color, n: nat): nat
    requires n <= |cols|
  {
    if n == 0 then 0 else TallyUpTo(cols, y, n - 1) + Count(cols[n - 1], y)
  }

  /** Cats of colour y on the whole board. */
  function Tally(cols: seq<Column>, y: Color): nat {
    TallyUpTo(cols, y, |cols|)
  }

  lemma {:induction false} CountUpToUpdate(col: Column, i: nat, x: Cell, y: Color, n: nat)
    requires i < |col| && n <= |col|
    ensures CountUpTo(col[i := x], y, n) + (if i < n then CellCount(col[i], y) else 0)
         == CountUpTo(col, y, n) + (if i < n then CellCount(x, y) else 0)
  {
    if n > 0 {
      CountUpToUpdate(col, i, x, y, n - 1);
    }
  }

  /** Replacing one cell changes a column's count by exactly the difference. */
  lemma CountUpdate(col: Column, i: nat, x: Cell, y: Color)
    requires i < |col|
    ensures Count(col[i := x], y) + CellCount(col[i], y) == Count(col, y) + CellCount(x, y)
  {
    CountUpToUpdate(col, i, x, y, |col|);
  }

  lemma {:induction false} TallyUpToUpdate(cols: seq<Column>, i: nat, x: Column, y: Color, n: nat)
    requires i < |cols| && n <= |cols|
    ensures TallyUpTo(cols[i := x], y, n) + (if i < n then Count(cols[i], y) else 0)
         == TallyUpTo(cols, y, n) + (if i < n then Count(x, y) else 0)
  {
    if n > 0 {
      TallyUpToUpdate(cols, i, x, y, n - 1);
    }
  }

  /** Replacing one column changes the board's count by exactly the difference. */
  lemma TallyUpdate(cols: seq<Column>, i: nat, x: Column, y: Color)
    requires i < |cols|
    ensures Tally(cols[i := x], y) + Count(cols[i], y) == Tally(cols, y) + Count(x, y)
  {
    TallyUpToUpdate(cols, i, x, y, |cols|);
  }

  lemma {:induction false} CountUpToEmpty(col: Column, y: Color, n: nat)
    requires n <= |col|
    requires forall k :: 0 <= k < n ==> col[k] == Empty
    ensures CountUpTo(col, y, n) == 0
  {
    if n > 0 {
      CountUpToEmpty(col, y, n - 1);
    }
  }

  lemma {:induction false} TallyUpToEmpty(cols: seq<Column>, y: Color, n: nat)
    requires n <= |cols| && AllEmpty(cols)
    ensures TallyUpTo(cols, y, n) == 0
  {
    if n > 0 {
      TallyUpToEmpty(cols, y, n - 1);
      CountUpToEmpty(cols[n - 1], y, |cols[n - 1]|);
    }
  }

  lemma {:induction false} CountUpToOccupied(col: Column, n: nat, r: nat)
    requires r < n <= |col| && col[r] != Empty
    ensures CountUpTo(col, col[r].color, n) > 0
  {
    if r < n - 1 {
      CountUpToOccupied(col, n - 1, r);
    }
  }

  lemma {:induction false} TallyUpToOccupied(cols: seq<Column>, n: nat, c: nat, r: nat)
    requires c < n <= |cols| && r < |cols[c]| && cols[c][r] != Empty
    ensures TallyUpTo(cols, cols[c][r].color, n) > 0
  {
    if c < n - 1 {
      TallyUpToOccupied(cols, n - 1, c, r);
    } else {
      CountUpToOccupied(cols[c], |cols[c]|, r);
    }
  }

  /** A board holds no cat exactly when every colour's count is zero. */
  lemma EmptyIffNoCats(cols: seq<Column>)
    ensures AllEmpty(cols) <==> forall y :: Tally(cols, y) == 0
  {
    if AllEmpty(cols) {
      forall y ensures Tally(cols, y) == 0 {
        TallyUpToEmpty(cols, y, |cols|);
      }
    } else {
      var c, r :| 0 <= c < |cols| && 0 <= r < |cols[c]| && cols[c][r] != Empty;
      TallyUpToOccupied(cols, |cols|, c, r);
      assert Tally(cols, cols[c][r].color) != 0;
    }
  }
}
