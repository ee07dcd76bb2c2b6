/** The Minesweeper board annotator: a grid of 0/1 cells is sanitised
    (mines `1` become `9`), then every non-mine cell is replaced by the number
    of mines among its up to eight neighbours. */
module Minesweeper {

  type Board = seq<seq<int>>

  /** The sanitised mine marker. */
  const Mine: int := 9

  /** `ValueError` and `IndexError`. */
  datatype BoardError = InvalidBoard | OutOfBounds

  datatype Result<T> = Ok(value: T) | Err(error: BoardError)

  predicate SameShape(a: Board, b: Board) {
    |a| == |b| && forall r :: 0 <= r < |a| ==> |a[r]| == |b[r]|
  }

  predicate IsBinary(board: Board) {
    forall r, c :: 0 <= r < |board| && 0 <= c < |board[r]| ==> board[r][c] == 0 || board[r][c] == 1
  }

  /** Every row as long as the first. */
  predicate Rectangular(board: Board) {
    forall r :: 0 <= r < |board| ==> |board[r]| == |board[0]|
  }

  // ---------------------------------------------------------------------
  // create_sanitize_board
  // ---------------------------------------------------------------------

  /** Rejects a board holding anything but 0 and 1; otherwise maps 1 to the
      mine marker and keeps 0. Row lengths are not compared. */
  function Sanitize(board: Board): (r: Result<Board>)
    ensures r.Err? <==> !IsBinary(board)
    ensures r.Err? ==> r.error == InvalidBoard
    ensures r.Ok? ==> SameShape(r.value, board)
    ensures r.Ok? ==> forall i, j :: 0 <= i < |board| && 0 <= j < |board[i]| ==>
      (board[i][j] == 1 ==> r.value[i][j] == Mine) && (board[i][j] == 0 ==> r.value[i][j] == 0)
    ensures r.Ok? ==> forall i, j :: 0 <= i < |r.value| && 0 <= j < |r.value[i]| ==>
      r.value[i][j] == 0 || r.value[i][j] == Mine
  {
    if IsBinary(board) then
      Ok(seq(|board|, i requires 0 <= i < |board| =>
        seq(|board[i]|, j requires 0 <= j < |board[i]| =>
          if board[i][j] == 1 then Mine else board[i][j])))
    else
      Err(InvalidBoard)
  }

  /** The positions holding `v`. */
  function CellsWith(board: Board, v: int): set<(int, int)> {
    set r, c | 0 <= r < |board| && 0 <= c < |board[r]| && board[r][c] == v :: (r, c)
  }

  /** Sanitising moves no mine: the mines of the result are exactly the 1s of
      the input, and the empty cells exactly its 0s. */
  lemma SanitizeKeepsMinePositions(board: Board)
    requires Sanitize(board).Ok?
    ensures CellsWith(Sanitize(board).value, Mine) == CellsWith(board, 1)
    ensures CellsWith(Sanitize(board).value, 0) == CellsWith(board, 0)
  {
    var s := Sanitize(board).value;
    forall p | p in CellsWith(s, Mine) ensures p in CellsWith(board, 1) {
      assert board[p.0][p.1] == 1;
    }
    forall p | p in CellsWith(s, 0) ensures p in CellsWith(board, 0) {
      assert board[p.0][p.1] == 0;
    }
  }

  /** Ragged boards of 0s and 1s pass sanitising and stay ragged. */
  lemma SanitizeAcceptsRagged()
    ensures Sanitize([[1], [0, 1, 0]]) == Ok([[Mine], [0, Mine, 0]])
    ensures !Rectangular([[Mine], [0, Mine, 0]])
  {
    var b: Board := [[1], [0, 1, 0]];
    assert IsBinary(b);
    var s := Sanitize(b).value;
    assert s[0] == [Mine] && s[1] == [0, Mine, 0];
    assert s == [[Mine], [0, Mine, 0]];
    var t: Board := [[Mine], [0, Mine, 0]];
    assert |t[1]| != |t[0]|;
  }

  // ---------------------------------------------------------------------
  // count_mines
  // ---------------------------------------------------------------------

  /** The eight neighbour offsets, in the order the source lists them. */
  const Offsets: seq<(int, int)> := [(-1, -1), (-1, 0), (-1, 1), (0, -1), (0, 1), (1, -1), (1, 0), (1, 1)]

  /** The bounds test: rows from `len(board)`, columns from `len(board[0])`. */
  predicate InGrid(board: Board, r: int, c: int) {
    0 <= r < |board| && 0 <= c < |board[0]|
  }

  /** A cell the bounds test admits is read as `board[r][c]`, which raises
      when row `r` is shorter than the first row. */
  predicate Readable(board: Board, r: int, c: int) {
    InGrid(board, r, c) ==> c < |board[r]|
  }

  predicate NeighboursReadable(board: Board, i: int, j: int) {
    forall k :: 0 <= k < |Offsets| ==> Readable(board, i + Offsets[k].0, j + Offsets[k].1)
  }

  predicate MineAt(board: Board, r: int, c: int) {
    InGrid(board, r, c) && c < |board[r]| && board[r][c] == Mine
  }

  /** The sum over offsets `k..` of "in bounds and a mine". */
  function CountFrom(board: Board, i: int, j: int, k: nat): (n: nat)
    requires k <= |Offsets|
    ensures n <= |Offsets| - k
    decreases |Offsets| - k
  {
    if k == |Offsets| then 0
    else (if MineAt(board, i + Offsets[k].0, j + Offsets[k].1) then 1 else 0) + CountFrom(board, i, j, k + 1)
  }

  /** `count_mines`: an index error for an empty board, for a position outside
      `[0, rows) x [0, len(board[0]))`, and for a neighbour the bounds test
      admits in a row too short to hold it; otherwise at most eight. */
  function CountMines(board: Board, i: int, j: int): (r: Result<nat>)
    ensures r.Ok? <==> InGrid(board, i, j) && NeighboursReadable(board, i, j)
    ensures |board| == 0 ==> r.Err?
    ensures r.Err? ==> r.error == OutOfBounds
    ensures r.Ok? ==> r.value <= 8
  {
    if |board| == 0 || !InGrid(board, i, j) || !NeighboursReadable(board, i, j) then Err(OutOfBounds)
    else Ok(CountFrom(board, i, j, 0))
  }

  /** The reference neighbourhood: the mines among the in-bounds cells at
      distance one in each direction, the cell itself excluded. */
  function NeighbourMines(board: Board, i: int, j: int): set<(int, int)> {
    set r, c | i - 1 <= r <= i + 1 && j - 1 <= c <= j + 1 && (r, c) != (i, j) && MineAt(board, r, c) :: (r, c)
  }

  /** The cell offset `k` reaches from `(i, j)`. */
  function Neighbour(i: int, j: int, k: nat): (int, int)
    requires k < |Offsets|
  {
    (i + Offsets[k].0, j + Offsets[k].1)
  }

  /** The mines reached by offsets `k..`, one offset at a time. */
  function OffsetMines(board: Board, i: int, j: int, k: nat): set<(int, int)>
    requires k <= |Offsets|
    decreases |Offsets| - k
  {
    if k == |Offsets| then {}
    else
      var here := Neighbour(i, j, k);
      (if MineAt(board, here.0, here.1) then {here} else {}) + OffsetMines(board, i, j, k + 1)
  }

  lemma {:induction false} OffsetMinesSound(board: Board, i: int, j: int, k: nat, q: (int, int))
    requires k <= |Offsets| && q in OffsetMines(board, i, j, k)
    ensures MineAt(board, q.0, q.1)
    ensures exists m :: k <= m < |Offsets| && q == Neighbour(i, j, m)
    decreases |Offsets| - k
  {
    if k < |Offsets| {
      if q in OffsetMines(board, i, j, k + 1) {
        OffsetMinesSound(board, i, j, k + 1, q);
      } else {
        assert q == Neighbour(i, j, k);
      }
    }
  }

  lemma {:induction false} OffsetMinesComplete(board: Board, i: int, j: int, k: nat, m: nat)
    requires k <= m < |Offsets| && MineAt(board, Neighbour(i, j, m).0, Neighbour(i, j, m).1)
    ensures Neighbour(i, j, m) in OffsetMines(board, i, j, k)
    decreases m - k
  {
    if k < m {
      OffsetMinesComplete(board, i, j, k + 1, m);
    }
  }

  lemma OffsetsDistinct(k: nat, m: nat)
    requires k < m < |Offsets|
    ensures Offsets[k] != Offsets[m]
  {
  }

  lemma OffsetsAreNeighbourly(d: (int, int))
    requires d in Offsets
    ensures -1 <= d.0 <= 1 && -1 <= d.1 <= 1 && d != (0, 0)
  {
  }

  lemma {:induction false} CountFromIsCardinality(board: Board, i: int, j: int, k: nat)
    requires k <= |Offsets|
    ensures CountFrom(board, i, j, k) == |OffsetMines(board, i, j, k)|
    decreases |Offsets| - k
  {
    if k < |Offsets| {
      CountFromIsCardinality(board, i, j, k + 1);
      OffsetMinesStep(board, i, j, k);
    }
  }

  /** Offset `k` adds its cell when that cell is a mine, and the cell is new. */
  lemma OffsetMinesStep(board: Board, i: int, j: int, k: nat)
    requires k < |Offsets|
    ensures |OffsetMines(board, i, j, k)| ==
      (if MineAt(board, i + Offsets[k].0, j + Offsets[k].1) then 1 else 0) + |OffsetMines(board, i, j, k + 1)|
  {
    var here := Neighbour(i, j, k);
    NeighbourNotLater(board, i, j, k);
    AddFreshCard(here, OffsetMines(board, i, j, k + 1), MineAt(board, here.0, here.1));
  }

  lemma AddFreshCard(x: (int, int), s: set<(int, int)>, add: bool)
    requires x !in s
    ensures |(if add then {x} else {}) + s| == (if add then 1 else 0) + |s|
  {
    if !add {
      assert {} + s == s;
    }
  }

  lemma NeighbourNotLater(board: Board, i: int, j: int, k: nat)
    requires k < |Offsets|
    ensures Neighbour(i, j, k) !in OffsetMines(board, i, j, k + 1)
  {
    if Neighbour(i, j, k) in OffsetMines(board, i, j, k + 1) {
      OffsetMinesSound(board, i, j, k + 1, Neighbour(i, j, k));
      var m :| k + 1 <= m < |Offsets| && Neighbour(i, j, k) == Neighbour(i, j, m);
      OffsetsDistinct(k, m);
    }
  }

  /** Where offset `(dr, dc)` sits in `Offsets`. */
  function OffsetIndex(dr: int, dc: int): (k: nat)
    requires -1 <= dr <= 1 && -1 <= dc <= 1 && (dr, dc) != (0, 0)
    ensures k < |Offsets| && Offsets[k] == (dr, dc)
  {
    var cell := (dr + 1) * 3 + (dc + 1);
    if cell > 4 then cell - 1 else cell
  }

  lemma OffsetMinesAreNeighbourMines(board: Board, i: int, j: int)
    ensures OffsetMines(board, i, j, 0) == NeighbourMines(board, i, j)
  {
    forall p | p in NeighbourMines(board, i, j)
      ensures p in OffsetMines(board, i, j, 0)
    {
      NeighbourIsOffsetMine(board, i, j, p);
    }
    forall p | p in OffsetMines(board, i, j, 0)
      ensures p in NeighbourMines(board, i, j)
    {
      OffsetMineIsNeighbour(board, i, j, p);
    }
  }

  lemma NeighbourIsOffsetMine(board: Board, i: int, j: int, p: (int, int))
    requires p in NeighbourMines(board, i, j)
    ensures p in OffsetMines(board, i, j, 0)
  {
    var m := OffsetIndex(p.0 - i, p.1 - j);
    assert Neighbour(i, j, m) == p;
    OffsetMinesComplete(board, i, j, 0, m);
  }

  lemma OffsetMineIsNeighbour(board: Board, i: int, j: int, p: (int, int))
    requires p in OffsetMines(board, i, j, 0)
    ensures p in NeighbourMines(board, i, j)
  {
    OffsetMinesSound(board, i, j, 0, p);
    var m :| 0 <= m < |Offsets| && p == Neighbour(i, j, m);
    OffsetsAreNeighbourly(Offsets[m]);
  }

  /** `count_mines` counts exactly the mines adjacent to the cell. */
  lemma CountMinesIsNeighbourMines(board: Board, i: int, j: int)
    requires CountMines(board, i, j).Ok?
    ensures CountMines(board, i, j).value == |NeighbourMines(board, i, j)|
    ensures (i, j) !in NeighbourMines(board, i, j)
  {
    CountFromIsCardinality(board, i, j, 0);
    OffsetMinesAreNeighbourMines(board, i, j);
  }

  /** On a rectangular board every neighbour that passes the bounds test can
      be read, so `count_mines` fails only outside the grid. */
  lemma RectangularIsReadable(board: Board, i: int, j: int)
    requires Rectangular(board)
    ensures NeighboursReadable(board, i, j)
  {
  }

  predicate Adjacent(i: int, j: int, r: int, c: int) {
    (i, j) != (r, c) && -1 <= r - i <= 1 && -1 <= c - j <= 1
  }

  /** With a single mine on the board, its neighbours count one and every
      other non-mine cell counts zero. */
  lemma SingleMine(board: Board, mr: int, mc: int, i: int, j: int)
    requires Rectangular(board) && InGrid(board, i, j)
    requires forall r, c :: 0 <= r < |board| && 0 <= c < |board[r]| ==> (board[r][c] == Mine <==> (r, c) == (mr, mc))
    requires InGrid(board, mr, mc)
    ensures CountMines(board, i, j) == Ok(if Adjacent(i, j, mr, mc) then 1 else 0)
  {
    RectangularIsReadable(board, i, j);
    CountMinesIsNeighbourMines(board, i, j);
    if Adjacent(i, j, mr, mc) {
      assert NeighbourMines(board, i, j) == {(mr, mc)};
    } else {
      assert NeighbourMines(board, i, j) == {};
    }
  }

  // ---------------------------------------------------------------------
  // create_counted_board
  // ---------------------------------------------------------------------

  /** Rejects boards whose rows differ in length (an empty board passes);
      otherwise keeps every mine and replaces every other cell by its
      `count_mines`. Cell values are not otherwise checked. */
  function Annotate(board: Board): (r: Result<Board>)
    ensures r.Err? <==> !Rectangular(board)
    ensures r.Err? ==> r.error == InvalidBoard
    ensures r.Ok? ==> SameShape(r.value, board)
    ensures r.Ok? ==> forall i, j :: 0 <= i < |board| && 0 <= j < |board[i]| ==>
      if board[i][j] == Mine then r.value[i][j] == Mine else CountMines(board, i, j) == Ok(r.value[i][j])
    ensures r.Ok? ==> forall i, j :: 0 <= i < |board| && 0 <= j < |board[i]| ==>
      (r.value[i][j] == Mine <==> board[i][j] == Mine) && 0 <= r.value[i][j] <= Mine
  {
    if !Rectangular(board) then Err(InvalidBoard) else Ok(CountedCells(board))
  }

  /** The nested comprehension: mines kept, every other cell counted. */
  function CountedCells(board: Board): Board {
    seq(|board|, i requires 0 <= i < |board| =>
      seq(|board[i]|, j requires 0 <= j < |board[i]| =>
        if board[i][j] == Mine then Mine else CountFrom(board, i, j, 0)))
  }

  /** A board with no mines annotates to all zeros. */
  lemma AnnotateAllZero(board: Board)
    requires Rectangular(board)
    requires forall r, c :: 0 <= r < |board| && 0 <= c < |board[r]| ==> board[r][c] == 0
    ensures Annotate(board) == Ok(board)
  {
    var a := Annotate(board).value;
    forall i, j | 0 <= i < |board| && 0 <= j < |board[i]|
      ensures a[i][j] == 0
    {
      CountMinesIsNeighbourMines(board, i, j);
      assert NeighbourMines(board, i, j) == {};
    }
    assert forall i :: 0 <= i < |board| ==> a[i] == board[i];
    assert a == board;
  }

  /** The driver's pipeline on a rectangular board of 0s and 1s: both stages
      succeed, and the mines of the result are exactly the input's 1s. */
  lemma PipelineKeepsMines(board: Board)
    requires IsBinary(board) && Rectangular(board)
    ensures Sanitize(board).Ok? && Annotate(Sanitize(board).value).Ok?
    ensures CellsWith(Annotate(Sanitize(board).value).value, Mine) == CellsWith(board, 1)
  {
    var s := Sanitize(board).value;
    assert Rectangular(s);
    var a := Annotate(s).value;
    SanitizeKeepsMinePositions(board);
    forall p | p in CellsWith(a, Mine) ensures p in CellsWith(s, Mine) {
      assert s[p.0][p.1] == Mine;
    }
    forall p | p in CellsWith(s, Mine) ensures p in CellsWith(a, Mine) {
      assert a[p.0][p.1] == Mine;
    }
  }

  /** The board the driver annotates, and what each stage yields for it. */
  const ExampleBoard: Board := [[0, 1, 0, 0], [0, 0, 1, 0], [0, 1, 0, 1], [1, 1, 0, 0]]
  const ExampleSanitized: Board := [[0, 9, 0, 0], [0, 0, 9, 0], [0, 9, 0, 9], [9, 9, 0, 0]]
  const ExampleCounted: Board := [[1, 9, 2, 1], [2, 3, 9, 2], [3, 9, 4, 9], [9, 9, 3, 1]]

  lemma ExampleSanitizes()
    ensures Sanitize(ExampleBoard) == Ok(ExampleSanitized)
  {
    assert IsBinary(ExampleBoard);
    var s := Sanitize(ExampleBoard).value;
    assert s[0] == ExampleSanitized[0] && s[1] == ExampleSanitized[1];
    assert s[2] == ExampleSanitized[2] && s[3] == ExampleSanitized[3];
    assert s == ExampleSanitized;
  }

  // One lemma per cell, and one per row, keep each unfolding of the counts small.
  lemma ExampleCount00() ensures CountFrom(ExampleSanitized, 0, 0, 0) == 1 { }
  lemma ExampleCount02() ensures CountFrom(ExampleSanitized, 0, 2, 0) == 2 { }
  lemma ExampleCount03() ensures CountFrom(ExampleSanitized, 0, 3, 0) == 1 { }
  lemma ExampleCount10() ensures CountFrom(ExampleSanitized, 1, 0, 0) == 2 { }
  lemma ExampleCount11() ensures CountFrom(ExampleSanitized, 1, 1, 0) == 3 { }
  lemma ExampleCount13() ensures CountFrom(ExampleSanitized, 1, 3, 0) == 2 { }
  lemma ExampleCount20() ensures CountFrom(ExampleSanitized, 2, 0, 0) == 3 { }
  lemma ExampleCount22() ensures CountFrom(ExampleSanitized, 2, 2, 0) == 4 { }
  lemma ExampleCount32() ensures CountFrom(ExampleSanitized, 3, 2, 0) == 3 { }
  lemma ExampleCount33() ensures CountFrom(ExampleSanitized, 3, 3, 0) == 1 { }

  lemma ExampleRow0()
    ensures CountedCells(ExampleSanitized)[0] == ExampleCounted[0]
  {
    forall j | 0 <= j < 4
      ensures CountedCells(ExampleSanitized)[0][j] == ExampleCounted[0][j]
    {
      if j == 0 { ExampleCount00(); }
      else if j == 1 { }
      else if j == 2 { ExampleCount02(); }
      else { ExampleCount03(); }
    }
  }

  lemma ExampleRow1()
    ensures CountedCells(ExampleSanitized)[1] == ExampleCounted[1]
  {
    forall j | 0 <= j < 4
      ensures CountedCells(ExampleSanitized)[1][j] == ExampleCounted[1][j]
    {
      if j == 0 { ExampleCount10(); }
      else if j == 1 { ExampleCount11(); }
      else if j == 2 { }
      else { ExampleCount13(); }
    }
  }

  lemma ExampleRow2()
    ensures CountedCells(ExampleSanitized)[2] == ExampleCounted[2]
  {
    forall j | 0 <= j < 4
      ensures CountedCells(ExampleSanitized)[2][j] == ExampleCounted[2][j]
    {
      if j == 0 { ExampleCount20(); }
      else if j == 1 { }
      else if j == 2 { ExampleCount22(); }
      else { }
    }
  }

  lemma ExampleRow3()
    ensures CountedCells(ExampleSanitized)[3] == ExampleCounted[3]
  {
    forall j | 0 <= j < 4
      ensures CountedCells(ExampleSanitized)[3][j] == ExampleCounted[3][j]
    {
      if j == 0 { }
      else if j == 1 { }
      else if j == 2 { ExampleCount32(); }
      else { ExampleCount33(); }
    }
  }

  lemma ExampleCounts()
    ensures Annotate(ExampleSanitized) == Ok(ExampleCounted)
  {
    assert Rectangular(ExampleSanitized);
    var c := CountedCells(ExampleSanitized);
    ExampleRow0();
    ExampleRow1();
    ExampleRow2();
    ExampleRow3();
    assert c == ExampleCounted;
  }

  /** Annotating rejects the ragged boards sanitising lets through. */
  lemma AnnotateRejectsRagged()
    ensures Annotate([[Mine], [0, Mine, 0]]) == Err(InvalidBoard)
  {
    var t: Board := [[Mine], [0, Mine, 0]];
    assert |t[1]| != |t[0]|;
  }
}
