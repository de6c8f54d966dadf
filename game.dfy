/** The game object of the puzzle: the ROWS x COLS board (`board[r][c]`,
    `null` for an empty cell) and the one-slot selection `selectedCol`,
    with the loops of `initGame`, `findTopCatRow`, `findLandingRow`,
    `checkWin`, `checkGameClear` and the board's click handler. Each method is
    proved against the pure definitions of modules Generator and Moves. */
module Game {
  import opened Cells
  import opened Generator
  import opened Moves

  /** The random source of every attempt of `initGame`: `rolls(a)(i)` is the
      `j` that `Math.random` yields at shuffle step `i` of attempt number `a`
      (the first attempt is number 1). */
  ghost predicate FairRolls(rolls: nat -> nat -> nat) {
    forall a: nat :: FairPicks(rolls(a))
  }

  /** The board attempt number `a` of `initGame` deals. */
  ghost function Attempt(rolls: nat -> nat -> nat, a: nat): (cols: seq<Column>)
    requires FairRolls(rolls)
    ensures |cols| == COLS
  {
    Dealt(ShuffledBag(rolls(a)))
  }

  /** Every attempt deals a settled board with CATS_PER_COLUMN cats of each
      colour, in the first COLS - 2 columns. */
  lemma AttemptBoard(rolls: nat -> nat -> nat, a: nat)
    requires FairRolls(rolls)
    ensures WellFormed(Attempt(rolls, a)) && AllSettled(Attempt(rolls, a))
    ensures forall y :: Tally(Attempt(rolls, a), y) == CATS_PER_COLUMN
    ensures forall c, r :: 0 <= c < INITIAL_COLUMNS && 0 <= r < ROWS ==> Attempt(rolls, a)[c][r] != Empty
    ensures forall c, r :: INITIAL_COLUMNS <= c < COLS && 0 <= r < ROWS ==> Attempt(rolls, a)[c][r] == Empty
  {
    GeneratedBoard(rolls(a));
    DealtShape(ShuffledBag(rolls(a)));
  }

  /** Attempts 1 .. n - 1 all dealt a board with a run of three equal cats. */
  ghost predicate RejectedBefore(rolls: nat -> nat -> nat, n: nat)
    requires FairRolls(rolls)
  {
    forall k :: 0 < k < n ==> !NoLongRuns(Attempt(rolls, k))
  }

  lemma RejectedStep(rolls: nat -> nat -> nat, n: nat)
    requires FairRolls(rolls) && RejectedBefore(rolls, n)
    requires 0 < n ==> !NoLongRuns(Attempt(rolls, n))
    ensures RejectedBefore(rolls, n + 1)
  {
  }

  /** Rows 0 .. n - 1 of column c of an array. */
  ghost function ColumnOf(b: array2<Cell>, c: nat, n: nat): (col: Column)
    requires c < b.Length1 && n <= b.Length0
    reads b
    ensures |col| == n && forall r :: 0 <= r < n ==> col[r] == b[r, c]
  {
    if n == 0 then [] else ColumnOf(b, c, n - 1) + [b[n - 1, c]]
  }

  /** Columns 0 .. n - 1 of a ROWS-row array. */
  ghost function ColumnsUpTo(b: array2<Cell>, n: nat): (cols: seq<Column>)
    requires b.Length0 == ROWS && n <= b.Length1
    reads b
    ensures |cols| == n && forall c :: 0 <= c < n ==> cols[c] == ColumnOf(b, c, ROWS)
  {
    if n == 0 then [] else ColumnsUpTo(b, n - 1) + [ColumnOf(b, n - 1, ROWS)]
  }

  /** The cells of a ROWS x COLS array as columns, each read from row 0 down. */
  ghost function ColumnsOf(b: array2<Cell>): (cols: seq<Column>)
    requires b.Length0 == ROWS && b.Length1 == COLS
    reads b
    ensures WellFormed(cols)
    ensures forall c, r :: 0 <= c < COLS && 0 <= r < ROWS ==> cols[c][r] == b[r, c]
  {
    ColumnsUpTo(b, COLS)
  }

  /** `Array.from({ length: ROWS }, () => Array(COLS).fill(null))`. */
  method EmptyBoard() returns (b: array2<Cell>)
    ensures fresh(b) && b.Length0 == ROWS && b.Length1 == COLS
    ensures forall r, c :: 0 <= r < ROWS && 0 <= c < COLS ==> b[r, c] == Empty
  {
    b := new Cell[ROWS, COLS]((r, c) => Empty);
  }

  /** The shuffle loop of `initGame`, in place on the bag. */
  method Shuffle(catBag: array<Color>, pick: nat -> nat)
    requires FairPicks(pick)
    modifies catBag
    ensures catBag[..] == Shuffled(old(catBag[..]), pick)
    ensures multiset(catBag[..]) == multiset(old(catBag[..]))
  {
    ShuffledPermutes(catBag[..], pick);
    var i := catBag.Length - 1;
    while i > 0
      invariant -1 <= i < catBag.Length
      invariant ShuffleFrom(catBag[..], i, pick) == Shuffled(old(catBag[..]), pick)
      decreases i
    {
      var j := pick(i);
      ghost var before := catBag[..];
      var t := catBag[i];
      catBag[i] := catBag[j];
      catBag[j] := t;
      assert catBag[..] == Swap(before, i, j);
      i := i - 1;
    }
  }

  class Puzzle {
    var board: array2<Cell>
    var selectedCol: Option<nat>

    /** The board has ROWS rows of COLS cells. */
    ghost predicate Shaped()
      reads this`board
    {
      board.Length0 == ROWS && board.Length1 == COLS
    }

    ghost predicate Valid()
      reads this
    {
      Shaped() && (selectedCol.Some? ==> selectedCol.value < COLS)
    }

    /** The board as columns, each read from row 0 down. */
    ghost function Columns(): (cols: seq<Column>)
      requires Shaped()
      reads this`board, board
      ensures WellFormed(cols)
      ensures forall c, r :: 0 <= c < COLS && 0 <= r < ROWS ==> cols[c][r] == board[r, c]
    {
      ColumnsOf(board)
    }

    /** The state the click handler sees. */
    ghost function Snapshot(): (s: State)
      requires Valid()
      reads this, board
      ensures ValidState(s) && s.cols == Columns() && s.selected == selectedCol
    {
      State(Columns(), selectedCol)
    }

    /** Page load: `board = []`, `selectedCol = null`, then `initGame()`. */
    constructor (rolls: nat -> nat -> nat)
      requires FairRolls(rolls)
      ensures Valid() && fresh(board) && selectedCol == None
      ensures AllSettled(Columns())
      ensures exists a: nat ::
        && 0 < a <= MAX_ATTEMPTS && Columns() == Attempt(rolls, a) && RejectedBefore(rolls, a)
        && (a < MAX_ATTEMPTS ==> NoLongRuns(Columns()))
    {
      var empty := EmptyBoard();
      board := empty;
      selectedCol := None;
      new;
      var validBoard, attempts := InitGame(rolls);
      assert Columns() == Attempt(rolls, attempts);
      AttemptBoard(rolls, attempts);
    }

    /** `initGame`: deal boards until one has no run of three equal cats or
        100 attempts are used up; `attempts` counts them, so the board kept is
        attempt number `attempts`. `validBoard` is false when that board was
        kept although it has such a run. `selectedCol` is not touched. */
    method InitGame(rolls: nat -> nat -> nat) returns (validBoard: bool, attempts: nat)
      requires FairRolls(rolls)
      modifies this`board
      ensures Shaped() && fresh(board)
      ensures 1 <= attempts <= MAX_ATTEMPTS
      ensures Columns() == Attempt(rolls, attempts)
      ensures validBoard <==> NoLongRuns(Columns())
      ensures !validBoard ==> attempts == MAX_ATTEMPTS
      ensures RejectedBefore(rolls, attempts)
    {
      board := EmptyBoard();
      attempts := 0;
      validBoard := false;
      ghost var dealt: seq<Column> := [];
      while !validBoard && attempts < MAX_ATTEMPTS
        invariant Shaped() && fresh(board)
        invariant attempts <= MAX_ATTEMPTS
        invariant 0 < attempts ==> Columns() == dealt && dealt == Attempt(rolls, attempts)
        invariant validBoard <==> 0 < attempts && NoLongRuns(dealt)
        invariant RejectedBefore(rolls, attempts)
        decreases MAX_ATTEMPTS - attempts
      {
        RejectedStep(rolls, attempts);
        validBoard, dealt := DealAttempt(rolls, attempts + 1);
        attempts := attempts + 1;
      }
    }

    /** One pass of the retry loop of `initGame`, attempt number `a`: a fresh
        empty board, a fresh bag, the shuffle, the deal and the run-length
        scan. */
    method DealAttempt(rolls: nat -> nat -> nat, a: nat) returns (validBoard: bool, ghost dealt: seq<Column>)
      requires FairRolls(rolls)
      modifies this`board
      ensures Shaped() && fresh(board)
      ensures Columns() == dealt && dealt == Attempt(rolls, a)
      ensures validBoard <==> NoLongRuns(dealt)
    {
      board := EmptyBoard();
      var catBag := NewCatBag(rolls(a));
      Deal(catBag);
      validBoard := ValidateBoard();
      dealt := Columns();
    }

    /** The bag of one attempt: every colour CATS_PER_COLUMN times, then
        shuffled in place. */
    method NewCatBag(pick: nat -> nat) returns (catBag: array<Color>)
      requires FairPicks(pick)
      ensures fresh(catBag) && catBag[..] == ShuffledBag(pick)
    {
      var bag := Bag();
      catBag := new Color[|bag|](i requires 0 <= i < |bag| => bag[i]);
      assert catBag[..] == bag;
      Shuffle(catBag, pick);
    }

    /** The deal loop: column by column, row 0 first, each cell takes the
        cat popped from the end of the bag. */
    method Deal(catBag: array<Color>)
      requires Shaped() && catBag.Length == Popped(INITIAL_COLUMNS)
      requires forall c, r :: 0 <= c < COLS && 0 <= r < ROWS ==> board[r, c] == Empty
      modifies board
      ensures Columns() == Dealt(catBag[..])
    {
      ghost var bag := catBag[..];
      var top := catBag.Length;
      for c := 0 to INITIAL_COLUMNS
        invariant top == |bag| - Popped(c)
        invariant forall c', r :: 0 <= c' < COLS && 0 <= r < ROWS ==>
          board[r, c'] == if c' < c then DealtColumn(bag, c')[r] else Empty
      {
        PoppedMonotone(c + 1, INITIAL_COLUMNS);
        for r := 0 to ROWS
          invariant top == |bag| - (Popped(c) + r)
          invariant forall c', r' :: 0 <= c' < COLS && 0 <= r' < ROWS ==>
            board[r', c'] == if c' < c || (c' == c && r' < r) then DealtColumn(bag, c')[r'] else Empty
        {
          top := top - 1;
          board[r, c] := Cat(catBag[top]);
        }
      }
      SameBoard(Columns(), Dealt(bag));
    }

    /** The run-length scan of `initGame`: every column from the floor up,
        counting equal neighbours, false at the first count above 2. */
    method ValidateBoard() returns (validBoard: bool)
      requires Shaped()
      ensures validBoard <==> NoLongRuns(Columns())
    {
      validBoard := true;
      for c := 0 to COLS
        invariant validBoard
        invariant forall c' :: 0 <= c' < c ==> !HasLongRun(Columns()[c'])
      {
        ghost var col := Columns()[c];
        var consecutiveCount: nat := 0;
        var lastColor := Empty;
        var r: int := ROWS - 1;
        while r >= 0
          invariant -1 <= r < ROWS && validBoard
          invariant r + 1 < ROWS ==> consecutiveCount == RunBelow(col, r + 1) && lastColor == col[r + 1]
          invariant r + 1 == ROWS ==> consecutiveCount == 0 && lastColor == Empty
          invariant forall k: nat :: r < k && k + 2 < ROWS ==> !Triple(col, k)
        {
          var currentColor := board[r, c];
          if currentColor != Empty {
            if currentColor == lastColor {
              consecutiveCount := consecutiveCount + 1;
              if consecutiveCount > 2 {
                validBoard := false;
                RunTriple(col, r);
                assert Triple(col, r);
                break;
              }
            } else {
              consecutiveCount := 1;
              lastColor := currentColor;
            }
          } else {
            consecutiveCount := 0;
            lastColor := Empty;
          }
          RunTriple(col, r);
          r := r - 1;
        }
        if !validBoard {
          return;
        }
      }
    }

    /** `findTopCatRow`. */
    method FindTopCatRow(col: nat) returns (row: int)
      requires Shaped() && col < COLS
      ensures row == TopRow(Columns()[col])
    {
      for r := 0 to ROWS
        invariant forall k :: 0 <= k < r ==> board[k, col] == Empty
      {
        if board[r, col] != Empty {
          return r;
        }
      }
      return -1;
    }

    /** `findLandingRow`. */
    method FindLandingRow(col: nat) returns (row: int)
      requires Shaped() && col < COLS
      ensures row == LandingRow(Columns()[col])
    {
      var topCatRow := FindTopCatRow(col);
      if topCatRow == 0 {
        return -1;
      }
      if topCatRow == -1 {
        return ROWS - 1;
      }
      return topCatRow - 1;
    }

    /** `board.every(row => row[c] === firstCat)`. */
    method ColumnIsAll(c: nat, firstCat: Cell) returns (all: bool)
      requires Shaped() && c < COLS
      ensures all <==> forall r :: 0 <= r < ROWS ==> board[r, c] == firstCat
    {
      for r := 0 to ROWS
        invariant forall k :: 0 <= k < r ==> board[k, c] == firstCat
      {
        if board[r, c] != firstCat {
          return false;
        }
      }
      return true;
    }

    /** `checkWin`, with the delayed clear done at once: every column whose
        cells all hold the cat of row 0 is emptied. `cleared` tells whether
        any was. */
    method CheckWin() returns (cleared: bool)
      requires Shaped()
      modifies board
      ensures Columns() == ClearCompleted(old(Columns()))
      ensures cleared <==> AnyComplete(old(Columns()))
    {
      ghost var before := Columns();
      cleared := false;
      for c := 0 to COLS
        invariant forall c', r :: 0 <= c' < COLS && 0 <= r < ROWS ==>
          board[r, c'] == if c' < c && Complete(before[c']) then Empty else before[c'][r]
        invariant cleared <==> exists c' :: 0 <= c' < c && Complete(before[c'])
      {
        var firstCat := board[0, c];
        if firstCat != Empty {
          var complete := ColumnIsAll(c, firstCat);
          if complete {
            assert Complete(before[c]);
            for r := 0 to ROWS
              invariant forall c', r' :: 0 <= c' < COLS && 0 <= r' < ROWS ==>
                board[r', c'] == if (c' < c && Complete(before[c'])) || (c' == c && r' < r) then Empty else before[c'][r']
            {
              board[r, c] := Empty;
            }
            cleared := true;
          }
        }
      }
      SameBoard(Columns(), ClearCompleted(before));
    }

    /** `checkGameClear`: true when no cell holds a cat. */
    method CheckGameClear() returns (clear: bool)
      requires Shaped()
      ensures clear <==> AllEmpty(Columns())
    {
      for r := 0 to ROWS
        invariant forall r', c :: 0 <= r' < r && 0 <= c < COLS ==> board[r', c] == Empty
      {
        for c := 0 to COLS
          invariant forall r', c' :: 0 <= c' < COLS && (r' < r || (r' == r && c' < c)) && 0 <= r' ==> board[r', c'] == Empty
        {
          if board[r, c] != Empty {
            return false;
          }
        }
      }
      return true;
    }

    /** The board's click handler for a click on column `col`. On a second
        click on another column while the selected column holds no cat the
        handler reads `board[-1]` and stops: `Fault`, nothing changes. */
    method Click(col: nat) returns (outcome: Outcome)
      requires Valid() && col < COLS
      modifies this`selectedCol, board
      ensures Valid()
      ensures Snapshot() == Step(old(Snapshot()), col).next
      ensures outcome == Step(old(Snapshot()), col).outcome
      ensures old(AllSettled(Columns())) ==> AllSettled(Columns())
    {
      if AllSettled(Columns()) {
        StepPreservesSettled(Snapshot(), col);
      }
      if selectedCol.None? {
        outcome := SelectColumn(col);
      } else {
        outcome := MoveSelected(col);
      }
    }

    /** The first click: the column becomes the selection when it holds a cat. */
    method SelectColumn(col: nat) returns (outcome: Outcome)
      requires Valid() && col < COLS && selectedCol.None?
      modifies this`selectedCol
      ensures Valid()
      ensures Snapshot() == Step(old(Snapshot()), col).next
      ensures outcome == Step(old(Snapshot()), col).outcome
    {
      var topRow := FindTopCatRow(col);
      if topRow != -1 {
        selectedCol := Some(col);
        outcome := Selected;
      } else {
        outcome := Ignored;
      }
    }

    /** The second click: move the selected column's top cat onto column `col`
        when the move rule allows it, and clear the selection. */
    method MoveSelected(col: nat) returns (outcome: Outcome)
      requires Valid() && col < COLS && selectedCol.Some?
      modifies this`selectedCol, board
      ensures Valid()
      ensures Snapshot() == Step(old(Snapshot()), col).next
      ensures outcome == Step(old(Snapshot()), col).outcome
    {
      ghost var s := Snapshot();
      var fromCol := selectedCol.value;
      var toCol := col;
      var topFromRow := FindTopCatRow(fromCol);
      if fromCol != toCol && topFromRow == -1 {
        return Fault;
      }
      // The handler empties the selection as its last step; nothing after
      // this point reads it, so it is emptied here.
      selectedCol := None;
      SameBoard(Columns(), s.cols);
      outcome := Deselected;
      if fromCol != toCol {
        var catColor := board[topFromRow, fromCol];
        var landingRow := FindLandingRow(toCol);
        var topToRow := FindTopCatRow(toCol);
        if landingRow != -1 && (topToRow == -1 || board[topToRow, toCol] == catColor) {
          assert CanMove(s.cols, fromCol, toCol);
          var gameClear := MoveCat(fromCol, topFromRow, toCol, landingRow);
          outcome := Moved(gameClear);
        } else {
          assert !CanMove(s.cols, fromCol, toCol);
          outcome := Rejected;
        }
      }
    }

    /** The move of the click handler followed by `checkWin` and, when a
        column was cleared, `checkGameClear`. */
    method MoveCat(fromCol: nat, topFromRow: nat, toCol: nat, landingRow: nat) returns (gameClear: bool)
      requires Shaped() && fromCol < COLS && toCol < COLS && CanMove(Columns(), fromCol, toCol)
      requires topFromRow == TopRow(Columns()[fromCol]) && landingRow == LandingRow(Columns()[toCol])
      modifies board
      ensures Columns() == ClearCompleted(ApplyMove(old(Columns()), fromCol, toCol))
      ensures gameClear <==> AnyComplete(ApplyMove(old(Columns()), fromCol, toCol)) && AllEmpty(Columns())
    {
      ghost var moved := ApplyMove(Columns(), fromCol, toCol);
      var catColor := board[topFromRow, fromCol];
      board[topFromRow, fromCol] := Empty;
      board[landingRow, toCol] := catColor;
      SameBoard(Columns(), moved);
      var cleared := CheckWin();
      gameClear := false;
      if cleared {
        gameClear := CheckGameClear();
      }
    }

    /** The shuffle button with the selection reset, as a new game needs:
        the selection can then never name a column without a cat. */
    method Reshuffle(rolls: nat -> nat -> nat)
      requires Valid() && FairRolls(rolls)
      modifies this
      ensures Valid() && selectedCol == None && LiveSelection(Snapshot())
      ensures AllSettled(Columns())
      ensures exists a: nat ::
        && 0 < a <= MAX_ATTEMPTS && Columns() == Attempt(rolls, a) && RejectedBefore(rolls, a)
        && (a < MAX_ATTEMPTS ==> NoLongRuns(Columns()))
    {
      var validBoard, attempts := InitGame(rolls);
      selectedCol := None;
      assert Columns() == Attempt(rolls, attempts);
      AttemptBoard(rolls, attempts);
    }
  }

  /** On a freshly dealt board, clicks on columns 0, 4 and 4 move a cat
      from column 0 onto the empty column 4 and then select column 4. */
  lemma SelectMovedCat(cols: seq<Column>)
    requires WellFormed(cols)
    requires forall r :: 0 <= r < ROWS ==> cols[0][r] != Empty
    requires forall r :: 0 <= r < ROWS ==> cols[4][r] == Empty
    ensures Step(Step(Step(State(cols, None), 0).next, 4).next, 4).next.selected == Some(4)
  {
    assert TopRow(cols[0]) == 0;
    var s1 := Step(State(cols, None), 0).next;
    assert s1 == State(cols, Some(0));
    assert TopRow(cols[4]) == -1;
    assert CanMove(cols, 0, 4);
    var moved := ApplyMove(cols, 0, 4);
    assert moved[4][0] == Empty && moved[4][ROWS - 1] != Empty;
    var after := ClearCompleted(moved);
    assert after[4] == moved[4];
    var s2 := Step(s1, 4).next;
    assert s2 == State(after, None);
    assert TopRow(after[4]) != -1;
  }

  /** Every board `initGame` keeps has a full column 0 and an empty column 4. */
  lemma KeptBoardCorners(rolls: nat -> nat -> nat, cols: seq<Column>)
    requires FairRolls(rolls)
    requires exists a: nat :: 0 < a <= MAX_ATTEMPTS && cols == Attempt(rolls, a)
    ensures WellFormed(cols)
    ensures forall r :: 0 <= r < ROWS ==> cols[0][r] != Empty
    ensures forall r :: 0 <= r < ROWS ==> cols[4][r] == Empty
  {
    var a: nat :| 0 < a <= MAX_ATTEMPTS && cols == Attempt(rolls, a);
    AttemptBoard(rolls, a);
  }

  /** The clicks of `SelectMovedCat` on a puzzle. */
  method SelectMovedCatClicks(p: Puzzle)
    requires p.Valid() && p.selectedCol == None
    requires forall r :: 0 <= r < ROWS ==> p.board[r, 0] != Empty
    requires forall r :: 0 <= r < ROWS ==> p.board[r, 4] == Empty
    modifies p, p.board
    ensures p.Valid() && p.selectedCol == Some(4)
  {
    SelectMovedCat(p.Columns());
    var first := p.Click(0);
    var second := p.Click(4);
    var third := p.Click(4);
  }

  /** The shuffle button as wired (`initGame` alone) while column 4 is
      selected, then a click on column 0: the handler stops. */
  method ClickAfterReshuffle(p: Puzzle, rolls: nat -> nat -> nat) returns (outcome: Outcome)
    requires FairRolls(rolls) && p.Valid() && p.selectedCol == Some(4)
    modifies p
    ensures outcome == Fault
  {
    var validBoard, attempts := p.InitGame(rolls);
    KeptBoardCorners(rolls, p.Columns());
    assert TopRow(p.Columns()[4]) == -1;
    outcome := p.Click(0);
  }

  /** The shuffle button as wired after column 4 was selected: from page load,
      the clicks of `SelectMovedCat`, the shuffle button and one more click
      stop the handler, whatever random sources page load and the shuffle
      draw from. */
  method ReshuffleWhileSelected(load: nat -> nat -> nat, shuffle: nat -> nat -> nat) returns (outcome: Outcome)
    requires FairRolls(load) && FairRolls(shuffle)
    ensures outcome == Fault
  {
    var p := new Puzzle(load);
    KeptBoardCorners(load, p.Columns());
    SelectMovedCatClicks(p);
    outcome := ClickAfterReshuffle(p, shuffle);
  }
}
