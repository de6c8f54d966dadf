/** The move engine of the click handler as a pure state machine: the
    selection slot, move legality, the move itself, `checkWin`'s column clear
    and `checkGameClear`. `Game.Puzzle.Click` is proved to compute `Step`. */
module Moves {
  import opened Cells

  /** A column whose cells all hold the cat of its top row (`checkWin`). */
  predicate Complete(col: Column) {
    |col| > 0 && col[0] != Empty && forall r :: 0 <= r < |col| ==> col[r] == col[0]
  }

  /** A column is complete exactly when it is non-empty and every one of its
      cells holds a cat of one colour. */
  lemma CompleteIffOneColour(col: Column)
    ensures Complete(col) <==> |col| > 0 && exists y :: Count(col, y) == |col|
  {
    if |col| > 0 {
      if Complete(col) {
        CountFull(col, col[0].color, |col|);
        assert Count(col, col[0].color) == |col|;
      } else {
        forall y | Count(col, y) == |col| ensures false {
          CountFull(col, y, |col|);
        }
      }
    }
  }

  /** Cats of colour y in rows 0 .. n - 1 number n exactly when all those
      rows hold that colour. */
  lemma {:induction false} CountFull(col: Column, y: Color, n: nat)
    requires n <= |col|
    ensures CountUpTo(col, y, n) <= n
    ensures CountUpTo(col, y, n) == n <==> forall r :: 0 <= r < n ==> col[r] == Cat(y)
  {
    if n > 0 {
      CountFull(col, y, n - 1);
    }
  }

  predicate AnyComplete(cols: seq<Column>) {
    exists c :: 0 <= c < |cols| && Complete(cols[c])
  }

  /** `checkWin` on columns 0 .. n - 1: every complete one is emptied, the
      others are kept. */
  function ClearUpTo(cols: seq<Column>, n: nat): (after: seq<Column>)
    requires n <= |cols|
    ensures |after| == n
    ensures forall c :: 0 <= c < n ==> |after[c]| == |cols[c]|
    ensures forall c, r :: 0 <= c < n && Complete(cols[c]) && 0 <= r < |cols[c]| ==> after[c][r] == Empty
    ensures forall c :: 0 <= c < n && !Complete(cols[c]) ==> after[c] == cols[c]
  {
    if n == 0 then []
    else
      var col := cols[n - 1];
      ClearUpTo(cols, n - 1) + [if Complete(col) then EmptyCells(|col|) else col]
  }

  /** `checkWin`: every complete column is emptied, the others are kept. */
  function ClearCompleted(cols: seq<Column>): (after: seq<Column>)
    ensures |after| == |cols|
    ensures forall c :: 0 <= c < |cols| ==> |after[c]| == |cols[c]|
    ensures forall c, r :: 0 <= c < |cols| && Complete(cols[c]) && 0 <= r < |cols[c]| ==> after[c][r] == Empty
    ensures forall c :: 0 <= c < |cols| && !Complete(cols[c]) ==> after[c] == cols[c]
  {
    ClearUpTo(cols, |cols|)
  }

  /** Cats of colour y the clear takes out of one column. */
  function ClearedCount(col: Column, y: Color): nat {
    if Complete(col) then Count(col, y) else 0
  }

  /** Cats of colour y the clear takes out of columns 0 .. n - 1. */
  function RemovedUpTo(cols: seq<Column>, y: Color, n: nat): nat
    requires n <= |cols|
  {
    if n == 0 then 0 else RemovedUpTo(cols, y, n - 1) + ClearedCount(cols[n - 1], y)
  }

  /** Cats of colour y that `ClearCompleted` takes off the board. */
  function Removed(cols: seq<Column>, y: Color): nat {
    RemovedUpTo(cols, y, |cols|)
  }

  /** The move rule: the source column has a top cat, the target has room,
      and the target is empty or its top cat has the same colour. */
  predicate CanMove(cols: seq<Column>, from: nat, to: nat)
    requires WellFormed(cols) && from < COLS && to < COLS
  {
    var top := TopRow(cols[to]);
    && from != to
    && TopRow(cols[from]) != -1
    && LandingRow(cols[to]) != -1
    && (top == -1 || cols[to][top] == cols[from][TopRow(cols[from])])
  }

  /** On a settled target, the cat the move rule compares with sits right
      below the landing cell: a cat may move exactly when the source column
      has one, the target is not full, and the target is empty or the cat
      under the landing cell has the moving cat's colour. */
  lemma CanMoveIff(cols: seq<Column>, from: nat, to: nat)
    requires WellFormed(cols) && from < COLS && to < COLS && Settled(cols[to])
    ensures CanMove(cols, from, to) <==>
      && from != to
      && (exists r :: 0 <= r < ROWS && cols[from][r] != Empty)
      && cols[to][0] == Empty
      && (cols[to][ROWS - 1] == Empty ||
          cols[to][LandingRow(cols[to]) + 1] == cols[from][TopRow(cols[from])])
  {
    var col := cols[to];
    if col[0] == Empty && col[ROWS - 1] != Empty {
      var land := LandingRow(col);
      assert 0 <= land < ROWS - 1 && col[land + 1] != Empty;
      assert TopRow(col) == land + 1;
    } else if col[0] == Empty {
      assert forall r :: 0 <= r < ROWS ==> col[r] == Empty;
    }
  }

  /** The source's top cat leaves its cell and lands on the target column. */
  function ApplyMove(cols: seq<Column>, from: nat, to: nat): (moved: seq<Column>)
    requires WellFormed(cols) && from < COLS && to < COLS && CanMove(cols, from, to)
    ensures WellFormed(moved)
    ensures var top, land := TopRow(cols[from]), LandingRow(cols[to]);
      && moved[from][top] == Empty
      && moved[to][land] == cols[from][top]
      && forall c, r :: 0 <= c < COLS && 0 <= r < ROWS && (c, r) != (from, top) && (c, r) != (to, land)
           ==> moved[c][r] == cols[c][r]
  {
    var top, land := TopRow(cols[from]), LandingRow(cols[to]);
    cols[from := cols[from][top := Empty]][to := cols[to][land := cols[from][top]]]
  }

  /** The game state the click handler works on: the board and `selectedCol`. */
  datatype State = State(cols: seq<Column>, selected: Option<nat>)

  predicate ValidState(s: State) {
    WellFormed(s.cols) && (s.selected.Some? ==> s.selected.value < COLS)
  }

  /** What one click did. `Fault` is the handler stopping with an exception
      because the selected column has no cat to read. */
  datatype Outcome =
    | Selected
    | Ignored
    | Deselected
    | Rejected
    | Moved(gameClear: bool)
    | Fault

  datatype Transition = Transition(next: State, outcome: Outcome)

  /** One click on column `col`. */
  function Step(s: State, col: nat): (t: Transition)
    requires ValidState(s) && col < COLS
    ensures ValidState(t.next)
  {
    match s.selected
    case None =>
      if TopRow(s.cols[col]) != -1 then Transition(State(s.cols, Some(col)), Selected)
      else Transition(s, Ignored)
    case Some(from) =>
      if from == col then Transition(State(s.cols, None), Deselected)
      else if TopRow(s.cols[from]) == -1 then Transition(s, Fault)
      else if CanMove(s.cols, from, col) then
        var moved := ApplyMove(s.cols, from, col);
        var after := ClearCompleted(moved);
        Transition(State(after, None), Moved(AnyComplete(moved) && AllEmpty(after)))
      else Transition(State(s.cols, None), Rejected)
  }

  // ---- properties of one move and one clear -------------------------------

  /** A legal move keeps every column settled. */
  lemma MovePreservesSettled(cols: seq<Column>, from: nat, to: nat)
    requires WellFormed(cols) && from < COLS && to < COLS && CanMove(cols, from, to)
    requires AllSettled(cols)
    ensures AllSettled(ApplyMove(cols, from, to))
  {
    var moved := ApplyMove(cols, from, to);
    var top, land := TopRow(cols[from]), LandingRow(cols[to]);
    assert Settled(moved[from]) by {
      forall i, j | 0 <= i < j < ROWS && moved[from][i] != Empty ensures moved[from][j] != Empty {
        assert i != top && top < i;
      }
    }
    assert Settled(moved[to]) by {
      SettledLanding(cols[to]);
    }
    forall c | 0 <= c < COLS ensures Settled(moved[c]) {
      if c != from && c != to {
        assert moved[c] == cols[c];
      }
    }
  }

  /** A move neither creates nor destroys a cat. */
  lemma MoveConservesTally(cols: seq<Column>, from: nat, to: nat)
    requires WellFormed(cols) && from < COLS && to < COLS && CanMove(cols, from, to)
    ensures forall y :: Tally(ApplyMove(cols, from, to), y) == Tally(cols, y)
  {
    var top, land := TopRow(cols[from]), LandingRow(cols[to]);
    var cat := cols[from][top];
    var src := cols[from][top := Empty];
    var dst := cols[to][land := cat];
    var mid := cols[from := src];
    assert mid[to] == cols[to];
    forall y ensures Tally(mid[to := dst], y) == Tally(cols, y) {
      CountUpdate(cols[from], top, Empty, y);
      CountUpdate(cols[to], land, cat, y);
      TallyUpdate(cols, from, src, y);
      TallyUpdate(mid, to, dst, y);
    }
  }

  lemma ClearedColumnSplit(cols: seq<Column>, c: nat, y: Color)
    requires c < |cols|
    ensures Count(ClearCompleted(cols)[c], y) + ClearedCount(cols[c], y) == Count(cols[c], y)
  {
    var col := cols[c];
    if Complete(col) {
      CountUpToEmpty(ClearCompleted(cols)[c], y, |col|);
    }
  }

  /** Summed over a prefix, the cats left and the cats taken make up the
      cats before, given that they do so column by column. */
  lemma {:induction false} RemovedPrefix(after: seq<Column>, cols: seq<Column>, y: Color, n: nat)
    requires n <= |cols| == |after|
    requires forall c :: 0 <= c < |cols| ==> Count(after[c], y) + ClearedCount(cols[c], y) == Count(cols[c], y)
    ensures TallyUpTo(after, y, n) + RemovedUpTo(cols, y, n) == TallyUpTo(cols, y, n)
  {
    if n > 0 {
      RemovedPrefix(after, cols, y, n - 1);
    }
  }

  /** The clear removes exactly the cats of the complete columns. */
  lemma ClearRemovesCompleted(cols: seq<Column>)
    ensures forall y :: Tally(ClearCompleted(cols), y) + Removed(cols, y) == Tally(cols, y)
  {
    var after := ClearCompleted(cols);
    forall y ensures Tally(after, y) + Removed(cols, y) == Tally(cols, y) {
      forall c | 0 <= c < |cols| ensures Count(after[c], y) + ClearedCount(cols[c], y) == Count(cols[c], y) {
        ClearedColumnSplit(cols, c, y);
      }
      RemovedPrefix(after, cols, y, |cols|);
    }
  }

  /** The clear keeps every column settled. */
  lemma ClearPreservesSettled(cols: seq<Column>)
    requires AllSettled(cols)
    ensures AllSettled(ClearCompleted(cols))
  {
    var after := ClearCompleted(cols);
    forall c | 0 <= c < |cols| ensures Settled(after[c]) {
      if Complete(cols[c]) {
        assert forall r :: 0 <= r < |after[c]| ==> after[c][r] == Empty;
      }
    }
  }

  // ---- properties of a click ----------------------------------------------

  /** The first click selects the column exactly when it holds a cat; the
      second click always empties the selection unless the handler faults. */
  lemma StepSelection(s: State, col: nat)
    requires ValidState(s) && col < COLS
    ensures s.selected.None? ==>
      Step(s, col).next.selected == (if TopRow(s.cols[col]) != -1 then Some(col) else None)
    ensures s.selected.Some? && Step(s, col).outcome != Fault ==> Step(s, col).next.selected == None
  {
  }

  /** Only a move changes the board: a first click, a click on the selected
      column, an illegal move and a fault all leave every cell as it was. */
  lemma StepFrame(s: State, col: nat)
    requires ValidState(s) && col < COLS
    ensures !Step(s, col).outcome.Moved? ==> Step(s, col).next.cols == s.cols
  {
  }

  /** The second click moves exactly when the move rule holds. */
  lemma StepMovesIff(s: State, col: nat)
    requires ValidState(s) && col < COLS
    ensures Step(s, col).outcome.Moved? <==>
      s.selected.Some? && CanMove(s.cols, s.selected.value, col)
    ensures Step(s, col).outcome.Moved? ==>
      Step(s, col).next.cols == ClearCompleted(ApplyMove(s.cols, s.selected.value, col))
  {
  }

  /** The handler faults exactly on a second click on another column while
      the selected column has no cat. */
  lemma StepFaultIff(s: State, col: nat)
    requires ValidState(s) && col < COLS
    ensures Step(s, col).outcome == Fault <==>
      s.selected.Some? && s.selected.value != col && TopRow(s.cols[s.selected.value]) == -1
    ensures Step(s, col).outcome == Fault ==> Step(s, col).next == s
  {
  }

  /** Once a click has faulted, the selection is stuck on the empty column:
      the state is unchanged, so every later click on another column faults
      again, and only a click on the selected column itself clears it. */
  lemma FaultIsStuck(s: State, col: nat, later: nat)
    requires ValidState(s) && col < COLS && later < COLS
    requires Step(s, col).outcome == Fault
    ensures var t := Step(s, col).next;
      && t.selected == s.selected
      && (later != s.selected.value ==> Step(t, later).outcome == Fault && Step(t, later).next == t)
      && (later == s.selected.value ==> Step(t, later).outcome == Deselected && Step(t, later).next.selected == None)
  {
  }

  /** Every click keeps all columns settled. */
  lemma StepPreservesSettled(s: State, col: nat)
    requires ValidState(s) && col < COLS && AllSettled(s.cols)
    ensures AllSettled(Step(s, col).next.cols)
  {
    if Step(s, col).outcome.Moved? {
      var from := s.selected.value;
      MovePreservesSettled(s.cols, from, col);
      ClearPreservesSettled(ApplyMove(s.cols, from, col));
    }
  }

  /** A click keeps every cat on the board except those of cleared columns. */
  lemma StepConservesCats(s: State, col: nat)
    requires ValidState(s) && col < COLS
    ensures Step(s, col).outcome.Moved? ==> forall y ::
      Tally(Step(s, col).next.cols, y) + Removed(ApplyMove(s.cols, s.selected.value, col), y) == Tally(s.cols, y)
  {
    if Step(s, col).outcome.Moved? {
      var from := s.selected.value;
      MoveConservesTally(s.cols, from, col);
      ClearRemovesCompleted(ApplyMove(s.cols, from, col));
    }
  }

  /** "Game Clear" is reported exactly when the move and its clears leave
      every cell empty. */
  lemma GameClearIffEmpty(s: State, col: nat)
    requires ValidState(s) && col < COLS
    requires Step(s, col).outcome.Moved?
    ensures Step(s, col).outcome.gameClear <==> AllEmpty(Step(s, col).next.cols)
  {
    var from := s.selected.value;
    var moved := ApplyMove(s.cols, from, col);
    var after := ClearCompleted(moved);
    if AllEmpty(after) {
      var land := LandingRow(s.cols[col]);
      assert moved[col][land] != Empty;
      assert Complete(moved[col]);
    }
  }

  /** The selection is live when it names a column that holds a cat. */
  predicate LiveSelection(s: State)
    requires ValidState(s)
  {
    s.selected.Some? ==> TopRow(s.cols[s.selected.value]) != -1
  }

  /** From a live selection a click never faults and leaves it live. */
  lemma LiveStepNeverFaults(s: State, col: nat)
    requires ValidState(s) && col < COLS && LiveSelection(s)
    ensures Step(s, col).outcome != Fault
    ensures LiveSelection(Step(s, col).next)
  {
  }
}
