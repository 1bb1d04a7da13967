/** What one auto-completion pass deduces on the board: for the row and
    the column of a cell just revealed, a line whose filled cells are all
    revealed has its remaining hidden cells revealed, and those are all
    empty. This module states that pass on values; the game's method that
    performs it is proved equal to it. */
module Lines {
  import opened Board

  /** A cell of the board, by row and column. */
  datatype Cell = Cell(row: nat, col: nat)

  /** A row or a column of the board, by index. */
  datatype Line = Row(r: nat) | Column(c: nat)

  /** Cell `k` of a line: left to right along a row, top to bottom down a column. */
  function At(line: Line, k: nat): (cell: Cell)
    ensures line.Row? ==> cell.row == line.r && cell.col == k
    ensures line.Column? ==> cell.row == k && cell.col == line.c
  {
    match line
    case Row(r) => Cell(r, k)
    case Column(c) => Cell(k, c)
  }

  /** The first `n` cells of a line. */
  function LineCells(line: Line, n: nat): (cells: set<Cell>)
    ensures forall k :: 0 <= k < n ==> At(line, k) in cells
  {
    set k | 0 <= k < n :: At(line, k)
  }

  /** Whether the solution fills a cell; a cell off the board is not filled. */
  predicate Filled(f: Field, cell: Cell) {
    cell.row < |f| && cell.col < |f[cell.row]| && f[cell.row][cell.col]
  }

  /** Filled cells among the first `k` cells of a line: the count the source
      keeps as the line's "checked amount". */
  function FilledIn(f: Field, line: Line, k: nat): (m: nat)
    ensures m <= k
  {
    if k == 0 then 0
    else FilledIn(f, line, k - 1) + (if Filled(f, At(line, k - 1)) then 1 else 0)
  }

  /** Filled cells among the first `k` cells of a line that are already
      revealed: the count the source keeps as the line's "user checked amount". */
  function RevealedIn(f: Field, revealed: set<Cell>, line: Line, k: nat): (m: nat)
    ensures m <= k
  {
    if k == 0 then 0
    else RevealedIn(f, revealed, line, k - 1) + (if Filled(f, At(line, k - 1)) && At(line, k - 1) in revealed then 1 else 0)
  }

  /** The source's test for completing a line: as many revealed filled cells
      as filled cells, and at least one filled cell. */
  predicate Done(f: Field, n: nat, revealed: set<Cell>, line: Line) {
    FilledIn(f, line, n) == RevealedIn(f, revealed, line, n) && FilledIn(f, line, n) != 0
  }

  /** The cells a pass over `line` reveals: none unless the line is done,
      and then its hidden cells. */
  function Pass(f: Field, n: nat, revealed: set<Cell>, line: Line): (cells: set<Cell>)
    ensures cells <= LineCells(line, n) && cells !! revealed
  {
    if Done(f, n, revealed, line) then LineCells(line, n) - revealed else {}
  }

  /** The cells one completion pass at (`row`, `col`) reveals. Both tests
      are made on the board as it was before the pass, as the source counts
      both lines before it reveals either. */
  function Deduce(f: Field, n: nat, revealed: set<Cell>, row: nat, col: nat): (cells: set<Cell>)
  {
    Pass(f, n, revealed, Row(row)) + Pass(f, n, revealed, Column(col))
  }

  // ---------------------------------------------------------------------------
  // What the counts mean.

  /** The two counts agree exactly when every filled cell counted is
      revealed, and the first is non-zero exactly when one of them is filled. */
  lemma {:induction false} CountsMean(f: Field, revealed: set<Cell>, line: Line, k: nat)
    ensures RevealedIn(f, revealed, line, k) <= FilledIn(f, line, k)
    ensures RevealedIn(f, revealed, line, k) == FilledIn(f, line, k)
        <==> forall i :: 0 <= i < k && Filled(f, At(line, i)) ==> At(line, i) in revealed
    ensures FilledIn(f, line, k) != 0 <==> exists i :: 0 <= i < k && Filled(f, At(line, i))
  {
    if k > 0 {
      CountsMean(f, revealed, line, k - 1);
    }
  }

  /** The source's completion test, read as a statement about the line: it
      has a filled cell, and all its filled cells are revealed. */
  lemma DoneMeans(f: Field, n: nat, revealed: set<Cell>, line: Line)
    ensures Done(f, n, revealed, line) <==>
      && (exists i :: 0 <= i < n && Filled(f, At(line, i)))
      && (forall i :: 0 <= i < n && Filled(f, At(line, i)) ==> At(line, i) in revealed)
  {
    CountsMean(f, revealed, line, n);
  }

  /** The revealed count of a line ignores revealed cells that are empty. */
  lemma {:induction false} RevealedInEmpty(f: Field, revealed: set<Cell>, extra: set<Cell>, line: Line, k: nat)
    requires forall c :: c in extra ==> !Filled(f, c)
    ensures RevealedIn(f, revealed + extra, line, k) == RevealedIn(f, revealed, line, k)
  {
    if k > 0 {
      RevealedInEmpty(f, revealed, extra, line, k - 1);
    }
  }

  // ---------------------------------------------------------------------------
  // What a pass reveals.

  lemma InLine(line: Line, n: nat, cell: Cell)
    requires cell in LineCells(line, n)
    ensures exists k :: 0 <= k < n && cell == At(line, k)
  {
  }

  /** Every cell a pass reveals is empty in the solution. */
  lemma DeducedAreEmpty(f: Field, n: nat, revealed: set<Cell>, row: nat, col: nat)
    ensures forall c :: c in Deduce(f, n, revealed, row, col) ==> !Filled(f, c)
  {
    DoneMeans(f, n, revealed, Row(row));
    DoneMeans(f, n, revealed, Column(col));
    forall c | c in Deduce(f, n, revealed, row, col)
      ensures !Filled(f, c)
    {
      if c in Pass(f, n, revealed, Row(row)) {
        InLine(Row(row), n, c);
      } else {
        InLine(Column(col), n, c);
      }
    }
  }

  /** A pass reveals only cells that were hidden, and only in the given row
      and column. */
  lemma DeducedWithinLines(f: Field, n: nat, revealed: set<Cell>, row: nat, col: nat)
    ensures Deduce(f, n, revealed, row, col) !! revealed
    ensures Deduce(f, n, revealed, row, col) <= LineCells(Row(row), n) + LineCells(Column(col), n)
  {
  }

  /** A line without a filled cell is never completed. */
  lemma EmptyLineNeverCompleted(f: Field, n: nat, revealed: set<Cell>, line: Line)
    requires forall i :: 0 <= i < n ==> !Filled(f, At(line, i))
    ensures Pass(f, n, revealed, line) == {}
  {
    DoneMeans(f, n, revealed, line);
  }

  /** After a pass, a line it completed has no hidden cell left. */
  lemma CompletedLineRevealed(f: Field, n: nat, revealed: set<Cell>, line: Line)
    requires Done(f, n, revealed, line)
    ensures LineCells(line, n) <= revealed + Pass(f, n, revealed, line)
  {
  }

  /** A pass on the board a first pass left behind reveals nothing: the
      source's repeat-until-unchanged loop stops at its second pass. */
  lemma DeduceIdempotent(f: Field, n: nat, revealed: set<Cell>, row: nat, col: nat)
    ensures Deduce(f, n, revealed + Deduce(f, n, revealed, row, col), row, col) == {}
  {
    var extra := Deduce(f, n, revealed, row, col);
    DeducedAreEmpty(f, n, revealed, row, col);
    RevealedInEmpty(f, revealed, extra, Row(row), n);
    RevealedInEmpty(f, revealed, extra, Column(col), n);
  }

  // ---------------------------------------------------------------------------
  // The cells of a board and their number.

  /** All cells of an `n` by `n` board. */
  function Cells(n: nat): (cells: set<Cell>) {
    set i, j | 0 <= i < n && 0 <= j < n :: Cell(i, j)
  }

  /** The cells of row `r` left of column `k`. */
  function RowPrefix(r: nat, k: nat): (s: set<Cell>)
    ensures |s| == k
    ensures forall c :: c in s <==> c.row == r && c.col < k
  {
    if k == 0 then {} else RowPrefix(r, k - 1) + {Cell(r, k - 1)}
  }

  /** The cells of the first `k` rows of an `n`-wide board. */
  function TopRows(n: nat, k: nat): (s: set<Cell>)
    ensures |s| == k * n
    ensures forall c :: c in s <==> c.row < k && c.col < n
  {
    if k == 0 then {}
    else
      var top, row := TopRows(n, k - 1), RowPrefix(k - 1, n);
      assert top !! row;
      top + row
  }

  /** A board of `n` rows and columns has `n * n` cells. */
  lemma CellsCount(n: nat)
    ensures |Cells(n)| == n * n
  {
    assert Cells(n) == TopRows(n, n);
  }

  /** A pass keeps the revealed cells on the board. */
  lemma DeducedOnBoard(f: Field, n: nat, revealed: set<Cell>, row: nat, col: nat)
    requires row < n && col < n
    ensures Deduce(f, n, revealed, row, col) <= Cells(n)
  {
    forall c | c in Deduce(f, n, revealed, row, col)
      ensures c in Cells(n)
    {
      if c in Pass(f, n, revealed, Row(row)) {
        InLine(Row(row), n, c);
      } else {
        InLine(Column(col), n, c);
      }
    }
  }

  /** A set of cells within the first `n` rows and columns lies on the board. */
  lemma OnBoard(revealed: set<Cell>, n: nat)
    requires forall c :: c in revealed ==> c.row < n && c.col < n
    ensures revealed <= Cells(n)
  {
    forall c | c in revealed
      ensures c in Cells(n)
    {
      assert c == Cell(c.row, c.col);
    }
  }

  /** A set of cells on the board has as many cells as the board exactly
      when it is the whole board. */
  lemma FullBoard(revealed: set<Cell>, n: nat)
    requires revealed <= Cells(n)
    ensures |revealed| == n * n <==> revealed == Cells(n)
  {
    CellsCount(n);
    if |revealed| == n * n {
      var rest := Cells(n) - revealed;
      assert Cells(n) == revealed + rest;
      assert |rest| == 0;
    }
  }
}
