/** The board generator of `initGame`: the bag of cats, the Durstenfeld
    shuffle, the deal into the first COLS - 2 columns and the run-length rule
    that a generated board must satisfy. The in-place loops themselves are
    methods of `Game.Puzzle`; this module holds the values they compute. */
module Generator {
  import opened Cells

  const MAX_ATTEMPTS: nat := 100

  function Repeat(x: Color, n: nat): (s: seq<Color>)
    ensures |s| == n && forall i :: 0 <= i < n ==> s[i] == x
  {
    if n == 0 then [] else Repeat(x, n - 1) + [x]
  }

  lemma {:induction false} RepeatCount(x: Color, n: nat, y: Color)
    ensures multiset(Repeat(x, n))[y] == if y == x then n else 0
  {
    if n > 0 {
      RepeatCount(x, n - 1, y);
    }
  }

  lemma MulSucc(a: nat, n: nat)
    ensures (a + 1) * n == n + a * n
  {
  }

  /** `colors.flatMap(color => Array(n).fill(color))`. */
  function FillBag(colors: seq<Color>, n: nat): (bag: seq<Color>)
    ensures |bag| == |colors| * n
  {
    if colors == [] then []
    else
      MulSucc(|colors| - 1, n);
      Repeat(colors[0], n) + FillBag(colors[1..], n)
  }

  /** Filling repeats every colour of the palette CATS_PER_COLUMN times. */
  lemma {:induction false} FillBagCount(colors: seq<Color>, y: Color)
    ensures multiset(FillBag(colors, CATS_PER_COLUMN))[y] == multiset(colors)[y] * CATS_PER_COLUMN
  {
    if colors != [] {
      FillBagCount(colors[1..], y);
      RepeatCount(colors[0], CATS_PER_COLUMN, y);
      assert colors == [colors[0]] + colors[1..];
    }
  }

  /** Every colour occurs once in the palette. */
  lemma PaletteOnce()
    ensures |CAT_COLORS| == 4
    ensures forall y :: multiset(CAT_COLORS)[y] == 1
  {
    var m := multiset(CAT_COLORS);
    assert m == multiset{White} + multiset{Black} + multiset{Brown} + multiset{Gray};
    forall y ensures m[y] == 1 {
      match y
      case White =>
      case Black =>
      case Brown =>
      case Gray =>
    }
  }

  lemma {:induction false} FillBagIndex(colors: seq<Color>, i: nat)
    requires i < |colors| * CATS_PER_COLUMN
    ensures FillBag(colors, CATS_PER_COLUMN)[i] == colors[i / CATS_PER_COLUMN]
  {
    if i >= CATS_PER_COLUMN {
      FillBagIndex(colors[1..], i - CATS_PER_COLUMN);
      assert (i - CATS_PER_COLUMN) / CATS_PER_COLUMN == i / CATS_PER_COLUMN - 1;
    }
  }

  /** The bag of one game, `CAT_COLORS.flatMap(...)` read position by
      position: exactly as many cats as the COLS - 2 dealt columns hold. */
  function Bag(): (bag: seq<Color>)
    ensures |bag| == Popped(INITIAL_COLUMNS)
  {
    var n := Popped(INITIAL_COLUMNS);
    PaletteOnce();
    assert n == |CAT_COLORS| * CATS_PER_COLUMN;
    seq(n, i requires 0 <= i < n => CAT_COLORS[i / CATS_PER_COLUMN])
  }

  /** The bag is the colour palette with every colour repeated. */
  lemma BagIsFilled()
    ensures Bag() == FillBag(CAT_COLORS, CATS_PER_COLUMN)
  {
    var bag := Bag();
    forall i | 0 <= i < |bag| ensures bag[i] == FillBag(CAT_COLORS, CATS_PER_COLUMN)[i] {
      FillBagIndex(CAT_COLORS, i);
    }
  }

  /** The bag holds CATS_PER_COLUMN cats of every colour. */
  lemma BagCounts()
    ensures forall y :: multiset(Bag())[y] == CATS_PER_COLUMN
  {
    BagIsFilled();
    PaletteOnce();
    forall y ensures multiset(Bag())[y] == CATS_PER_COLUMN {
      FillBagCount(CAT_COLORS, y);
    }
  }

  // ---- shuffle -----------------------------------------------------------

  /** The random source: for step `i` of the shuffle an index in [0, i]. */
  ghost predicate FairPicks(pick: nat -> nat) {
    forall i: nat :: 0 < i ==> pick(i) <= i
  }

  /** `[catBag[i], catBag[j]] = [catBag[j], catBag[i]]`: the two cats trade
      places, nothing else moves, and the bag keeps its cats. */
  function Swap(s: seq<Color>, i: nat, j: nat): (r: seq<Color>)
    requires i < |s| && j < |s|
    ensures |r| == |s| && r[i] == s[j] && r[j] == s[i]
    ensures multiset(r) == multiset(s)
  {
    s[i := s[j]][j := s[i]]
  }

  /** The swap moves no cat other than the two it trades. */
  lemma SwapKeepsOthers(s: seq<Color>, i: nat, j: nat)
    requires i < |s| && j < |s|
    ensures forall k :: 0 <= k < |s| && k != i && k != j ==> Swap(s, i, j)[k] == s[k]
  {
  }

  /** The swaps of the shuffle loop for indices i, i - 1, ..., 1. */
  function ShuffleFrom(s: seq<Color>, i: int, pick: nat -> nat): (r: seq<Color>)
    requires -1 <= i < |s| && FairPicks(pick)
    ensures |r| == |s|
    decreases i + 1
  {
    if i <= 0 then s else ShuffleFrom(Swap(s, i, pick(i)), i - 1, pick)
  }

  /** The bag after the shuffle loop, `for i := |s| - 1 downto 1`. */
  function Shuffled(s: seq<Color>, pick: nat -> nat): (r: seq<Color>)
    requires FairPicks(pick)
    ensures |r| == |s|
  {
    ShuffleFrom(s, |s| - 1, pick)
  }

  lemma {:induction false} ShuffleFromPermutes(s: seq<Color>, i: int, pick: nat -> nat)
    requires -1 <= i < |s| && FairPicks(pick)
    ensures multiset(ShuffleFrom(s, i, pick)) == multiset(s)
    decreases i + 1
  {
    if i > 0 {
      ShuffleFromPermutes(Swap(s, i, pick(i)), i - 1, pick);
    }
  }

  /** The shuffle only reorders the bag. */
  lemma ShuffledPermutes(s: seq<Color>, pick: nat -> nat)
    requires FairPicks(pick)
    ensures multiset(Shuffled(s, pick)) == multiset(s)
  {
    ShuffleFromPermutes(s, |s| - 1, pick);
  }

  // ---- deal --------------------------------------------------------------

  /** How many cats the deal has popped before it starts column `c`:
      `c * ROWS`, written so that the proofs stay linear. */
  function Popped(c: nat): nat {
    if c == 0 then 0 else Popped(c - 1) + ROWS
  }

  lemma {:induction false} PoppedMonotone(c: nat, d: nat)
    requires c <= d
    ensures Popped(c) <= Popped(d)
    decreases d - c
  {
    if c < d {
      PoppedMonotone(c, d - 1);
    }
  }

  /** Rows 0 .. n - 1 of a column dealt by popping `bag[..hi]`: row r takes
      the cat at position hi - 1 - r. */
  function PoppedCells(bag: seq<Color>, hi: nat, n: nat): (col: Column)
    requires n <= hi <= |bag|
    ensures |col| == n && forall r :: 0 <= r < n ==> col[r] == Cat(bag[hi - 1 - r])
  {
    if n == 0 then [] else PoppedCells(bag, hi, n - 1) + [Cat(bag[hi - n])]
  }

  /** Column `c` after the deal: for c < COLS - 2, filled by popping the bag
      for rows 0, 1, ..., ROWS - 1; otherwise left empty. */
  function DealtColumn(bag: seq<Color>, c: nat): (col: Column)
    requires |bag| == Popped(INITIAL_COLUMNS) && c < COLS
    ensures |col| == ROWS
    ensures c < INITIAL_COLUMNS ==> Popped(c + 1) <= |bag|
    ensures c < INITIAL_COLUMNS ==>
      forall r :: 0 <= r < ROWS ==> col[r] == Cat(bag[|bag| - 1 - (Popped(c) + r)])
    ensures INITIAL_COLUMNS <= c ==> forall r :: 0 <= r < ROWS ==> col[r] == Empty
  {
    if c < INITIAL_COLUMNS then
      PoppedMonotone(c + 1, INITIAL_COLUMNS);
      PoppedCells(bag, |bag| - Popped(c), ROWS)
    else
      EmptyCells(ROWS)
  }

  /** Columns 0 .. n - 1 after the deal. */
  function DealtUpTo(bag: seq<Color>, n: nat): (cols: seq<Column>)
    requires |bag| == Popped(INITIAL_COLUMNS) && n <= COLS
    ensures |cols| == n && forall c :: 0 <= c < n ==> cols[c] == DealtColumn(bag, c)
  {
    if n == 0 then [] else DealtUpTo(bag, n - 1) + [DealtColumn(bag, n - 1)]
  }

  /** The board after the deal: the first COLS - 2 columns completely filled
      from the bag, the last two empty. */
  function Dealt(bag: seq<Color>): (cols: seq<Column>)
    requires |bag| == Popped(INITIAL_COLUMNS)
    ensures WellFormed(cols) && forall c :: 0 <= c < COLS ==> cols[c] == DealtColumn(bag, c)
  {
    DealtUpTo(bag, COLS)
  }

  /** The dealt board is settled: the first COLS - 2 columns are full and
      the last two are empty. */
  lemma DealtShape(bag: seq<Color>)
    requires |bag| == Popped(INITIAL_COLUMNS)
    ensures AllSettled(Dealt(bag))
    ensures forall c, r :: 0 <= c < INITIAL_COLUMNS && 0 <= r < ROWS ==> Dealt(bag)[c][r] != Empty
    ensures forall c, r :: INITIAL_COLUMNS <= c < COLS && 0 <= r < ROWS ==> Dealt(bag)[c][r] == Empty
  {
    var cols := Dealt(bag);
    forall c | 0 <= c < COLS ensures Settled(cols[c]) {
      assert cols[c] == DealtColumn(bag, c);
    }
  }

  /** Cats of colour y in `bag[lo..hi]`, counted from the low end. */
  function Span(bag: seq<Color>, y: Color, lo: nat, hi: nat): nat
    requires lo <= hi <= |bag|
    decreases hi - lo
  {
    if lo == hi then 0 else (if bag[lo] == y then 1 else 0) + Span(bag, y, lo + 1, hi)
  }

  lemma {:induction false} SpanSplit(bag: seq<Color>, y: Color, lo: nat, mid: nat, hi: nat)
    requires lo <= mid <= hi <= |bag|
    ensures Span(bag, y, lo, hi) == Span(bag, y, lo, mid) + Span(bag, y, mid, hi)
    decreases mid - lo
  {
    if lo < mid {
      SpanSplit(bag, y, lo + 1, mid, hi);
    }
  }

  lemma {:induction false} SpanAll(bag: seq<Color>, y: Color, lo: nat)
    requires lo <= |bag|
    ensures Span(bag, y, lo, |bag|) == multiset(bag[lo..])[y]
    decreases |bag| - lo
  {
    if lo < |bag| {
      SpanAll(bag, y, lo + 1);
      assert bag[lo..] == [bag[lo]] + bag[lo + 1..];
    }
  }

  /** A column whose rows 0..n-1 were popped from `bag[..hi]` holds exactly
      the cats of the last n positions of that prefix. */
  lemma {:induction false} CountOfPopped(col: Column, bag: seq<Color>, y: Color, hi: nat, n: nat)
    requires n <= |col| && n <= hi <= |bag|
    requires forall r :: 0 <= r < n ==> col[r] == Cat(bag[hi - 1 - r])
    ensures CountUpTo(col, y, n) == Span(bag, y, hi - n, hi)
  {
    if n > 0 {
      CountOfPopped(col, bag, y, hi, n - 1);
    }
  }

  /** Column n - 1 of the deal holds the cats popped for it. */
  lemma DealtColumnCount(bag: seq<Color>, y: Color, n: nat)
    requires |bag| == Popped(INITIAL_COLUMNS) && 0 < n <= INITIAL_COLUMNS
    requires Popped(n) <= |bag|
    ensures Count(Dealt(bag)[n - 1], y) == Span(bag, y, |bag| - Popped(n), |bag| - Popped(n - 1))
  {
    CountOfPopped(Dealt(bag)[n - 1], bag, y, |bag| - Popped(n - 1), ROWS);
  }

  /** The first n dealt columns hold the last Popped(n) cats of the bag. */
  lemma {:induction false} TallyOfDealtPrefix(bag: seq<Color>, y: Color, n: nat)
    requires |bag| == Popped(INITIAL_COLUMNS) && n <= INITIAL_COLUMNS
    ensures Popped(n) <= |bag|
    ensures TallyUpTo(Dealt(bag), y, n) == Span(bag, y, |bag| - Popped(n), |bag|)
  {
    PoppedMonotone(n, INITIAL_COLUMNS);
    if n > 0 {
      var lo, mid := |bag| - Popped(n), |bag| - Popped(n - 1);
      TallyOfDealtPrefix(bag, y, n - 1);
      DealtColumnCount(bag, y, n);
      SpanSplit(bag, y, lo, mid, |bag|);
    }
  }

  /** Dealing moves every cat of the bag onto the board and no other. */
  lemma DealtTally(bag: seq<Color>)
    requires |bag| == Popped(INITIAL_COLUMNS)
    ensures forall y :: Tally(Dealt(bag), y) == multiset(bag)[y]
  {
    var cols := Dealt(bag);
    DealtShape(bag);
    forall y ensures Tally(cols, y) == multiset(bag)[y] {
      CountUpToEmpty(cols[INITIAL_COLUMNS], y, ROWS);
      CountUpToEmpty(cols[INITIAL_COLUMNS + 1], y, ROWS);
      assert TallyUpTo(cols, y, INITIAL_COLUMNS + 1) == TallyUpTo(cols, y, INITIAL_COLUMNS);
      assert Tally(cols, y) == TallyUpTo(cols, y, INITIAL_COLUMNS + 1);
      TallyOfDealtPrefix(bag, y, INITIAL_COLUMNS);
      SpanAll(bag, y, 0);
      assert bag[0..] == bag;
    }
  }

  // ---- run-length rule ---------------------------------------------------

  /** Three equal cats in rows k, k + 1, k + 2. */
  predicate Triple(col: Column, k: nat)
    requires k + 2 < |col|
  {
    col[k] != Empty && col[k] == col[k + 1] && col[k + 1] == col[k + 2]
  }

  /** Some run of 3 or more equal cats in the column. */
  predicate HasLongRun(col: Column) {
    exists k: nat :: k + 2 < |col| && Triple(col, k)
  }

  /** The condition `initGame` accepts a board under. */
  predicate NoLongRuns(cols: seq<Column>) {
    forall c :: 0 <= c < |cols| ==> !HasLongRun(cols[c])
  }

  /** The length of the run of equal cats that starts at row `k` and extends
      towards the floor: the scan's `consecutiveCount` after reading row k. */
  function RunBelow(col: Column, k: nat): (n: nat)
    requires k < |col|
    ensures col[k] == Empty <==> n == 0
    decreases |col| - k
  {
    if col[k] == Empty then 0
    else if k + 1 < |col| && col[k + 1] == col[k] then 1 + RunBelow(col, k + 1)
    else 1
  }

  /** The scan's count passes 2 exactly where three equal cats start. */
  lemma RunTriple(col: Column, k: nat)
    requires k < |col|
    ensures RunBelow(col, k) > 2 <==> k + 2 < |col| && Triple(col, k)
  {
    if k + 2 < |col| && Triple(col, k) {
      assert RunBelow(col, k + 1) == 1 + RunBelow(col, k + 2);
    }
  }

  /** The bag after the shuffle. */
  function ShuffledBag(pick: nat -> nat): (bag: seq<Color>)
    requires FairPicks(pick)
    ensures |bag| == Popped(INITIAL_COLUMNS)
  {
    Shuffled(Bag(), pick)
  }

  /** The shuffled bag still holds CATS_PER_COLUMN cats of every colour. */
  lemma ShuffledBagCounts(pick: nat -> nat)
    requires FairPicks(pick)
    ensures forall y :: multiset(ShuffledBag(pick))[y] == CATS_PER_COLUMN
  {
    ShuffledPermutes(Bag(), pick);
    BagCounts();
  }

  /** A generated board holds CATS_PER_COLUMN cats of every colour. */
  lemma GeneratedBoard(pick: nat -> nat)
    requires FairPicks(pick)
    ensures forall y :: Tally(Dealt(ShuffledBag(pick)), y) == CATS_PER_COLUMN
  {
    DealtTally(ShuffledBag(pick));
    ShuffledBagCounts(pick);
  }
}
