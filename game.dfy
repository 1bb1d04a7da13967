/** The state of one game: its status, the board the player uncovers, the
    counters of shown cells and mistakes, the clock, and the reactions that
    tie them together: reaching the board's cell count completes the game,
    exceeding the mistake limit ends it, and each change of status starts,
    stops or resets the rest. */
module Nonogram {
  import opened Board
  import opened Lines
  import opened Timing

  datatype Status = Start | Playing | Complete | GameOver

  /** The number of cells of a board `n` cells wide and `n` high. */
  function Area(n: nat): (cells: nat) {
    n * n
  }

  /** The statuses in which the game has ended. */
  predicate Terminal(s: Status) {
    s == Complete || s == GameOver
  }

  /** The status after the shown counter has risen one step at a time from
      `from` to `to` on a board of `total` cells: the counter's reaction
      completes the game when it passes through `total`. */
  function CountUp(s: Status, from: nat, to: nat, total: nat): (t: Status)
    ensures t == s || t == Complete
  {
    if from < total <= to then Complete else s
  }

  /** The status after a wrong choice raised the mistake counter to `m`
      against the limit `max`. */
  function AfterMistake(s: Status, wrongChoice: bool, m: nat, max: nat): (t: Status)
    ensures t == s || t == GameOver
  {
    if wrongChoice && m > max then GameOver else s
  }

  /** Two stretches of counting up make one. */
  lemma CountUpChain(s: Status, a: nat, b: nat, c: nat, total: nat)
    requires a <= b <= c
    ensures CountUp(CountUp(s, a, b, total), b, c, total) == CountUp(s, a, c, total)
  {
  }

  /** The first `k + 1` cells of a line are its first `k` and cell `k`. */
  lemma LineCellsNext(line: Line, k: nat)
    ensures LineCells(line, k + 1) == LineCells(line, k) + {At(line, k)}
  {
  }

  /** Adding one cell to a set that grows from `base` adds at most that cell
      to the growth. */
  lemma NewCells(base: set<Cell>, before: set<Cell>, cell: Cell)
    requires base <= before
    ensures |(before + {cell}) - base| == |before - base| + |(before + {cell}) - before|
  {
    if cell in before {
      assert (before + {cell}) - base == before - base;
    } else {
      assert (before + {cell}) - base == (before - base) + {cell};
    }
  }

  /** The counters after a loop that uncovers cells one at a time has
      visited the first `k` cells of `line`, starting from the uncovered
      cells `r0`, the shown counter `s0` and the status `st0`. */
  predicate Visited(line: Line, k: nat, any: bool, r0: set<Cell>, s0: nat, st0: Status,
                    revealed: set<Cell>, shown: nat, status: Status, total: nat)
  {
    && (any <==> revealed != r0)
    && revealed == r0 + LineCells(line, k)
    && shown == s0 + |revealed - r0|
    && status == CountUp(st0, s0, shown, total)
  }

  /** Before the loop has visited any cell, nothing has changed. */
  lemma VisitedNone(line: Line, r0: set<Cell>, s0: nat, st0: Status, total: nat)
    ensures Visited(line, 0, false, r0, s0, st0, r0, s0, st0, total)
  {
    assert LineCells(line, 0) == {};
    assert r0 - r0 == {};
  }

  /** Visiting cell `k` of `line` keeps `Visited`. */
  lemma VisitedNext(line: Line, k: nat, any: bool, r0: set<Cell>, s0: nat, st0: Status,
                    r: set<Cell>, sh: nat, st: Status, uncovered: bool,
                    r': set<Cell>, sh': nat, st': Status, total: nat)
    requires Visited(line, k, any, r0, s0, st0, r, sh, st, total)
    requires uncovered <==> At(line, k) !in r
    requires r' == r + {At(line, k)}
    requires sh' == sh + |r' - r|
    requires st' == CountUp(st, sh, sh', total)
    ensures Visited(line, k + 1, any || uncovered, r0, s0, st0, r', sh', st', total)
  {
    LineCellsNext(line, k);
    NewCells(r0, r, At(line, k));
    CountUpChain(st0, s0, sh, sh', total);
  }

  /** The state after one completion pass at (`row`, `col`) that started
      from the uncovered cells `r0`, the shown counter `s0` and the status
      `st0`: the pass's deduction is uncovered, the counter has risen by the
      number of cells uncovered, and `updated` says whether there were any. */
  predicate Completed(f: Field, n: nat, row: nat, col: nat, updated: bool, r0: set<Cell>, s0: nat, st0: Status,
                      revealed: set<Cell>, shown: nat, status: Status)
  {
    && revealed == r0 + Deduce(f, n, r0, row, col)
    && (updated <==> revealed != r0)
    && shown == s0 + |revealed - r0|
    && status == CountUp(st0, s0, shown, Area(n))
  }

  /** A completion pass made of a reveal loop over the row, run when the row
      is done, then one over the column, run when the column was done before
      the pass, uncovers exactly the pass's deduction. */
  lemma PassOutcome(f: Field, n: nat, row: nat, col: nat, r0: set<Cell>, s0: nat, st0: Status,
                    rowDone: bool, any1: bool, r1: set<Cell>, s1: nat, st1: Status,
                    colDone: bool, any2: bool, r2: set<Cell>, s2: nat, st2: Status)
    requires rowDone == Done(f, n, r0, Row(row)) && colDone == Done(f, n, r0, Column(col))
    requires if rowDone then Visited(Row(row), n, any1, r0, s0, st0, r1, s1, st1, Area(n))
             else !any1 && r1 == r0 && s1 == s0 && st1 == st0
    requires if colDone then Visited(Column(col), n, any2, r1, s1, st1, r2, s2, st2, Area(n))
             else !any2 && r2 == r1 && s2 == s1 && st2 == st1
    ensures Completed(f, n, row, col, any1 || any2, r0, s0, st0, r2, s2, st2)
  {
    TwoLoops(r0, LineCells(Row(row), n), LineCells(Column(col), n), rowDone, colDone, any1, r1, any2, r2);
    Grows(r0, r1, r2);
    CountUpChain(st0, s0, s1, s2, Area(n));
  }

  /** The set algebra of a pass: adding line `a` when `doneA`, then line
      `b` when `doneB`, adds what each line has beyond `r0`; and something
      was added exactly when one of the two steps added something. */
  lemma TwoLoops(r0: set<Cell>, a: set<Cell>, b: set<Cell>, doneA: bool, doneB: bool,
                 any1: bool, r1: set<Cell>, any2: bool, r2: set<Cell>)
    requires r1 == if doneA then r0 + a else r0
    requires any1 <==> r1 != r0
    requires r2 == if doneB then r1 + b else r1
    requires any2 <==> r2 != r1
    ensures r0 <= r1 <= r2
    ensures r2 == r0 + ((if doneA then a - r0 else {}) + (if doneB then b - r0 else {}))
    ensures any1 || any2 <==> r2 != r0
  {
  }

  /** A set that has not changed has not grown. */
  lemma NoGrowth(r0: set<Cell>)
    ensures |r0 - r0| == 0
  {
    assert r0 - r0 == {};
  }

  /** The growth of a growing set adds up. */
  lemma Grows(r0: set<Cell>, r1: set<Cell>, r2: set<Cell>)
    requires r0 <= r1 <= r2
    ensures |r2 - r0| == |r1 - r0| + |r2 - r1|
  {
    assert r2 - r0 == (r1 - r0) + (r2 - r1);
  }

  /** One turn of the cascade: after at most one pass that uncovered
      something, the next pass either uncovers nothing and leaves the board
      closed under a pass, or it is the first pass. */
  lemma CascadeStep(f: Field, n: nat, row: nat, col: nat, r0: set<Cell>, passes: nat, r: set<Cell>, r': set<Cell>)
    requires passes <= 1
    requires passes == 0 ==> r == r0
    requires passes == 1 ==> r == r0 + Deduce(f, n, r0, row, col)
    requires r' == r + Deduce(f, n, r, row, col)
    ensures r' == r ==> r' == r0 + Deduce(f, n, r0, row, col) && Deduce(f, n, r', row, col) == {}
    ensures r' != r ==> passes == 0 && r' == r0 + Deduce(f, n, r0, row, col)
  {
    DeduceIdempotent(f, n, r0, row, col);
    DeducedWithinLines(f, n, r, row, col);
  }

  /** The state after a click on the covered cell (`row`, `col`), whose
      choice was a miss or not, starting from the uncovered cells `r0`, the
      shown counter `s0`, `m0` mistakes and the status `st0`: the cell and
      the cascade's deduction are uncovered, the board is closed under a
      pass, the counters have risen, and the status is the one the two
      counters' reactions leave, in the order they run. */
  predicate Clicked(f: Field, n: nat, row: nat, col: nat, miss: bool, max: nat,
                    r0: set<Cell>, s0: nat, m0: nat, st0: Status,
                    revealed: set<Cell>, shown: nat, mistakes: nat, status: Status)
  {
    var marked := r0 + {Cell(row, col)};
    && revealed == marked + Deduce(f, n, marked, row, col)
    && Deduce(f, n, revealed, row, col) == {}
    && mistakes == m0 + (if miss then 1 else 0)
    && shown == s0 + |revealed - r0|
    && status == CountUp(AfterMistake(CountUp(st0, s0, s0 + 1, Area(n)), miss, m0 + 1, max), s0 + 1, shown, Area(n))
  }

  /** Uncovering the cell and then running the cascade gives `Clicked`. */
  lemma ClickOutcome(f: Field, n: nat, row: nat, col: nat, miss: bool, max: nat,
                     r0: set<Cell>, s0: nat, m0: nat, st0: Status,
                     r1: set<Cell>, s1: nat, st1: Status,
                     r2: set<Cell>, s2: nat, m2: nat, st2: Status)
    requires Cell(row, col) !in r0
    requires r1 == r0 + {Cell(row, col)} && s1 == s0 + 1
    requires m2 == m0 + (if miss then 1 else 0)
    requires st1 == AfterMistake(CountUp(st0, s0, s0 + 1, Area(n)), miss, m0 + 1, max)
    requires r2 == r1 + Deduce(f, n, r1, row, col) && Deduce(f, n, r2, row, col) == {}
    requires s2 == s1 + |r2 - r1|
    requires st2 == CountUp(st1, s1, s2, Area(n))
    ensures Clicked(f, n, row, col, miss, max, r0, s0, m0, st0, r2, s2, m2, st2)
  {
    assert r1 - r0 == {Cell(row, col)};
    Grows(r0, r1, r2);
  }

  /** A click keeps the shown counter equal to the number of uncovered
      cells when it was before. */
  lemma ClickKeepsCount(f: Field, n: nat, row: nat, col: nat, miss: bool, max: nat,
                        r0: set<Cell>, s0: nat, m0: nat, st0: Status,
                        revealed: set<Cell>, shown: nat, mistakes: nat, status: Status)
    requires Clicked(f, n, row, col, miss, max, r0, s0, m0, st0, revealed, shown, mistakes, status)
    requires s0 == |r0|
    ensures shown == |revealed|
  {
    assert revealed == r0 + (revealed - r0);
  }

  /** Besides the clicked cell, a click uncovers only empty cells, and only
      in the clicked cell's row and column. */
  lemma ClickUncoversEmpty(f: Field, n: nat, row: nat, col: nat, miss: bool, max: nat,
                           r0: set<Cell>, s0: nat, m0: nat, st0: Status,
                           revealed: set<Cell>, shown: nat, mistakes: nat, status: Status)
    requires Clicked(f, n, row, col, miss, max, r0, s0, m0, st0, revealed, shown, mistakes, status)
    ensures Cell(row, col) in revealed
    ensures forall c :: c in revealed - r0 - {Cell(row, col)} ==>
      !Filled(f, c) && c in LineCells(Row(row), n) + LineCells(Column(col), n)
  {
    var marked := r0 + {Cell(row, col)};
    DeducedAreEmpty(f, n, marked, row, col);
    DeducedWithinLines(f, n, marked, row, col);
  }

  /** The status after a click during play, when the counters agree with
      the board: the game stays in play while cells remain covered and the
      mistakes are within the limit; uncovering the last cell completes it
      unless that click was also the mistake past the limit; otherwise a
      mistake past the limit ends it. When a click that is the mistake past
      the limit leaves no cell covered, the order of the reactions decides:
      the game is over if the clicked cell itself was the last covered one,
      since the shown counter reacts before the mistake counter, and it is
      complete if a completion pass uncovered the last cells afterwards. */
  lemma ClickStatus(f: Field, n: nat, row: nat, col: nat, miss: bool, max: nat,
                    r0: set<Cell>, s0: nat, m0: nat,
                    revealed: set<Cell>, shown: nat, mistakes: nat, status: Status)
    requires Clicked(f, n, row, col, miss, max, r0, s0, m0, Playing, revealed, shown, mistakes, status)
    requires row < n && col < n && r0 <= Cells(n) && Cell(row, col) !in r0 && s0 == |r0|
    ensures status != Start
    ensures status == Playing <==> revealed != Cells(n) && !(miss && mistakes > max)
    ensures revealed == Cells(n) && !(miss && mistakes > max) ==> status == Complete
    ensures revealed != Cells(n) && miss && mistakes > max ==> status == GameOver
    ensures revealed == Cells(n) && miss && mistakes > max ==>
      (status == GameOver <==> r0 + {Cell(row, col)} == Cells(n))
    ensures revealed == Cells(n) && miss && mistakes > max ==>
      (status == Complete <==> r0 + {Cell(row, col)} != Cells(n))
  {
    var marked := r0 + {Cell(row, col)};
    OnBoard(marked, n);
    FullBoard(marked, n);
    assert |marked| == s0 + 1;
    ClickKeepsCount(f, n, row, col, miss, max, r0, s0, m0, Playing, revealed, shown, mistakes, status);
    DeducedOnBoard(f, n, marked, row, col);
    assert revealed <= Cells(n);
    FullBoard(revealed, n);
    CellsCount(n);
    Smaller(r0, Cells(n), Cell(row, col));
    Smaller(revealed, Cells(n), Cell(row, col));
    ClickCounters(s0, shown, Area(n), miss, m0 + 1, max, status);
  }

  /** While the shown counter agrees with the uncovered cells of a board,
      it does not exceed the board's cell count. */
  lemma ShownBound(revealed: set<Cell>, shown: nat, n: nat)
    requires revealed <= Cells(n) && shown == |revealed|
    ensures shown <= Area(n)
  {
    CellsCount(n);
    Smaller(revealed, Cells(n), Cell(0, 0));
  }

  /** A subset of a set has at most its elements, and fewer when it misses one. */
  lemma Smaller(a: set<Cell>, b: set<Cell>, x: Cell)
    requires a <= b
    ensures |a| <= |b|
    ensures x in b && x !in a ==> |a| < |b|
  {
    assert b == a + (b - a);
    if x in b && x !in a {
      assert x in b - a;
    }
  }

  /** The status arithmetic of a click during play: `shown` rose from `s0`
      by at least one and at most to the cell count `total`. */
  lemma ClickCounters(s0: nat, shown: nat, total: nat, miss: bool, m: nat, max: nat, status: Status)
    requires s0 < total && s0 + 1 <= shown <= total
    requires status == CountUp(AfterMistake(CountUp(Playing, s0, s0 + 1, total), miss, m, max), s0 + 1, shown, total)
    ensures status != Start
    ensures status == Playing <==> shown != total && !(miss && m > max)
    ensures shown == total && !(miss && m > max) ==> status == Complete
    ensures shown != total && miss && m > max ==> status == GameOver
    ensures shown == total && miss && m > max ==> (status == GameOver <==> s0 + 1 == total)
    ensures shown == total && miss && m > max ==> (status == Complete <==> s0 + 1 < total)
  {
  }

  class Game {
    var status: Status
    /** Cells per side for the next board drawn. */
    var size: nat
    /** Mistakes the player may make; one more ends the game. */
    const maxMistakes: nat := 3
    var mistakes: nat
    /** Cells uncovered so far, as counted by the game. */
    var shown: nat
    const timer: Timer
    /** The solution, once one has been drawn. */
    var field: Option<Field>
    /** Per cell of the solution: still covered. */
    var hidden: array2<bool>
    /** Per cell of the solution: uncovered by a choice that did not match it. */
    var wrong: array2<bool>
    /** The uncovered cells, as a set. */
    ghost var revealed: set<Cell>

    /** Cells per side of the current solution. */
    function N(): nat
      reads this
    {
      if field.Some? then |field.value| else 0
    }

    /** The per-cell state matches the solution's cells, `revealed` is
        exactly the uncovered cells, and only uncovered cells are marked wrong. */
    ghost predicate BoardValid()
      reads this, hidden, wrong
    {
      && hidden != wrong
      && (field.Some? ==> Square(field.value, |field.value|))
      && hidden.Length0 == N() && hidden.Length1 == N()
      && wrong.Length0 == N() && wrong.Length1 == N()
      && (forall c :: c in revealed ==> c.row < N() && c.col < N())
      && (forall i, j :: 0 <= i < N() && 0 <= j < N() ==> (hidden[i, j] <==> Cell(i, j) !in revealed))
      && (forall i, j :: 0 <= i < N() && 0 <= j < N() && wrong[i, j] ==> !hidden[i, j])
    }

    /** Once the game has ended, its clock's interval is cleared. */
    predicate Clocked()
      reads this, timer
    {
      Terminal(status) ==> !timer.live
    }

    ghost predicate Valid()
      reads this, hidden, wrong, timer
    {
      BoardValid() && Clocked()
    }

    /** A new game: at the start, five cells per side, no solution yet, all
        counters and the clock at zero. */
    constructor()
      ensures Valid()
      ensures status == Start && size == 5 && mistakes == 0 && shown == 0
      ensures field.None? && revealed == {}
      ensures fresh(timer) && timer.elapsed == 0 && !timer.live && timer.leaked == 0
    {
      status, size, mistakes, shown, field := Start, 5, 0, 0, None;
      timer := new Timer();
      hidden := new bool[0, 0];
      wrong := new bool[0, 0];
      revealed := {};
    }

    /** The player picks the board size. The size is read again by the clues,
        the shown counter's reaction and the completion pass, so every
        operation that reads it requires the current board to have that many
        rows and columns. */
    method SetFieldSize(n: nat)
      modifies this`size
      ensures size == n
    {
      size := n;
    }

    /** A write of an ending status, with the status reaction: the clock is
        stopped when the status changes. The counters' reactions write the
        status this way, and so do the ending arms of `ChangeStatus`. */
    method Finish(s: Status)
      requires Terminal(s)
      modifies this`status, timer
      ensures status == s
      ensures timer.live == (old(timer.live) && old(status) == s)
      ensures timer.elapsed == old(timer.elapsed) && timer.leaked == old(timer.leaked)
    {
      if s != status {
        status := s;
        timer.Stop();
      }
    }

    /** A write of the shown counter, with its reaction: a change that lands
        on the board's cell count completes the game. */
    method SetShown(v: nat)
      requires Clocked()
      modifies this`shown, this`status, timer
      ensures shown == v
      ensures status == (if v != old(shown) && v == Area(size) then Complete else old(status))
      ensures timer.live == (old(timer.live) && !Terminal(status))
      ensures timer.elapsed == old(timer.elapsed) && timer.leaked == old(timer.leaked)
    {
      if v != shown {
        shown := v;
        if v == Area(size) {
          Finish(Complete);
        }
      }
    }

    /** A write of the mistake counter, with its reaction: a change that
        goes past the limit ends the game. */
    method SetMistakes(v: nat)
      requires Clocked()
      modifies this`mistakes, this`status, timer
      ensures mistakes == v
      ensures status == (if v != old(mistakes) && v > maxMistakes then GameOver else old(status))
      ensures timer.live == (old(timer.live) && !Terminal(status))
      ensures timer.elapsed == old(timer.elapsed) && timer.leaked == old(timer.leaked)
    {
      if v != mistakes {
        mistakes := v;
        if v > maxMistakes {
          Finish(GameOver);
        }
      }
    }

    /** Draws a new solution of the current size from one draw per cell;
        every cell of the new board is covered and none is wrong. */
    method CreateField(draws: seq<seq<real>>)
      requires Square(draws, size)
      modifies this`field, this`hidden, this`wrong, this`revealed
      ensures field == Some(Generate(size, draws)) && N() == size
      ensures fresh(hidden) && fresh(wrong)
      ensures revealed == {}
      ensures BoardValid()
      ensures forall i, j :: 0 <= i < size && 0 <= j < size ==> hidden[i, j] && !wrong[i, j]
    {
      field := Some(Generate(size, draws));
      hidden := new bool[size, size]((i, j) => true);
      wrong := new bool[size, size]((i, j) => false);
      revealed := {};
    }

    /** A write of the status (the player's Play and Restart buttons, or a
        reaction), with the status reaction when it changes. Restarting puts
        the clock and both counters back to zero, in that order, but keeps the
        board and the clock's interval; playing draws a new board and starts
        the clock; an ending stops the clock. */
    method ChangeStatus(s: Status, draws: seq<seq<real>>)
      requires Valid()
      requires s == Playing ==> Square(draws, size)
      modifies this, timer
      ensures Valid()
      ensures size == old(size)
      ensures old(status) == s ==> unchanged(this) && unchanged(timer)
      ensures old(status) != s && s == Start ==>
        && status == (if old(shown) != 0 && size == 0 then Complete else Start)
        && mistakes == 0 && shown == 0 && timer.elapsed == 0
        && timer.live == (old(timer.live) && status == Start) && timer.leaked == old(timer.leaked)
        && field == old(field) && hidden == old(hidden) && wrong == old(wrong) && revealed == old(revealed)
      ensures old(status) != s && s == Playing ==>
        && status == Playing
        && field == Some(Generate(size, draws)) && revealed == {}
        && fresh(hidden) && fresh(wrong)
        && mistakes == old(mistakes) && shown == old(shown)
        && timer.live && timer.leaked == old(timer.leaked) + (if old(timer.live) then 1 else 0)
        && timer.elapsed == old(timer.elapsed)
      ensures old(status) != s && Terminal(s) ==>
        && status == s && !timer.live
        && timer.leaked == old(timer.leaked) && timer.elapsed == old(timer.elapsed)
        && field == old(field) && hidden == old(hidden) && wrong == old(wrong) && revealed == old(revealed)
        && mistakes == old(mistakes) && shown == old(shown)
    {
      if s == status {
        return;
      }
      match s
      case Start =>
        status := s;
        timer.Reset();
        SetMistakes(0);
        SetShown(0);
      case Playing =>
        status := s;
        CreateField(draws);
        timer.Start();
      case Complete =>
        Finish(s);
      case GameOver =>
        Finish(s);
    }

    /** The counting loop of a completion pass: for the cell's row and its
        column at once, the filled cells of the solution and how many of them
        are uncovered. */
    method CountLines(row: nat, col: nat) returns (rowFilled: nat, rowRevealed: nat, colFilled: nat, colRevealed: nat)
      requires BoardValid() && field.Some? && N() == size && row < size && col < size
      ensures rowFilled == FilledIn(field.value, Row(row), size)
      ensures rowRevealed == RevealedIn(field.value, revealed, Row(row), size)
      ensures colFilled == FilledIn(field.value, Column(col), size)
      ensures colRevealed == RevealedIn(field.value, revealed, Column(col), size)
    {
      var f := field.value;
      rowFilled, rowRevealed, colFilled, colRevealed := 0, 0, 0, 0;
      for k := 0 to size
        invariant rowFilled == FilledIn(f, Row(row), k)
        invariant rowRevealed == RevealedIn(f, revealed, Row(row), k)
        invariant colFilled == FilledIn(f, Column(col), k)
        invariant colRevealed == RevealedIn(f, revealed, Column(col), k)
      {
        if f[row][k] {
          rowFilled := rowFilled + 1;
          if !hidden[row, k] {
            rowRevealed := rowRevealed + 1;
          }
        }
        if f[k][col] {
          colFilled := colFilled + 1;
          if !hidden[k, col] {
            colRevealed := colRevealed + 1;
          }
        }
      }
    }

    /** One cell of a completion pass: a covered cell is uncovered and
        counted as shown; an uncovered one is left alone. */
    method RevealCell(cell: Cell) returns (uncovered: bool)
      requires Valid() && field.Some? && N() == size && cell.row < size && cell.col < size
      modifies hidden, this`revealed, this`shown, this`status, timer
      ensures Valid()
      ensures uncovered <==> cell !in old(revealed)
      ensures revealed == old(revealed) + {cell}
      ensures shown == old(shown) + |revealed - old(revealed)|
      ensures status == CountUp(old(status), old(shown), shown, Area(size))
      ensures timer.live == (old(timer.live) && !Terminal(status))
      ensures timer.elapsed == old(timer.elapsed) && timer.leaked == old(timer.leaked)
    {
      uncovered := hidden[cell.row, cell.col];
      if uncovered {
        hidden[cell.row, cell.col] := false;
        revealed := revealed + {cell};
        assert revealed - old(revealed) == {cell};
        SetShown(shown + 1);
      } else {
        assert revealed - old(revealed) == {};
      }
    }

    /** The reveal loop of a completion pass over one line (the source
        writes it once for the row and once for the column): every covered
        cell of the line is uncovered, one at a time. */
    method RevealLine(line: Line) returns (any: bool)
      requires Valid() && field.Some? && N() == size
      requires line.Row? ==> line.r < size
      requires line.Column? ==> line.c < size
      modifies hidden, this`revealed, this`shown, this`status, timer
      ensures Valid()
      ensures Visited(line, size, any, old(revealed), old(shown), old(status), revealed, shown, status, Area(size))
      ensures timer.live == (old(timer.live) && !Terminal(status))
      ensures timer.elapsed == old(timer.elapsed) && timer.leaked == old(timer.leaked)
    {
      ghost var r0, s0, st0 := revealed, shown, status;
      ghost var live0, e0, l0 := timer.live, timer.elapsed, timer.leaked;
      any := false;
      VisitedNone(line, r0, s0, st0, Area(size));
      for k := 0 to size
        invariant Valid()
        invariant LineSoFar(line, k, any, r0, s0, st0, live0, e0, l0)
      {
        any := RevealStep(line, k, any, r0, s0, st0, live0, e0, l0);
      }
    }

    /** The state after the reveal loop over `line` has visited its first
        `k` cells, starting from `r0`, `s0`, `st0` and the clock's `live0`,
        `e0` and `l0`. */
    ghost predicate LineSoFar(line: Line, k: nat, any: bool, r0: set<Cell>, s0: nat, st0: Status, live0: bool, e0: nat, l0: nat)
      reads this, timer
    {
      && Visited(line, k, any, r0, s0, st0, revealed, shown, status, Area(size))
      && timer.live == (live0 && !Terminal(status))
      && timer.elapsed == e0 && timer.leaked == l0
    }

    /** One turn of the reveal loop over `line`: cell `k`. */
    method RevealStep(line: Line, k: nat, any: bool, ghost r0: set<Cell>, ghost s0: nat, ghost st0: Status, ghost live0: bool, ghost e0: nat, ghost l0: nat)
      returns (any': bool)
      requires Valid() && field.Some? && N() == size && k < size
      requires line.Row? ==> line.r < size
      requires line.Column? ==> line.c < size
      requires LineSoFar(line, k, any, r0, s0, st0, live0, e0, l0)
      modifies hidden, this`revealed, this`shown, this`status, timer
      ensures Valid()
      ensures LineSoFar(line, k + 1, any', r0, s0, st0, live0, e0, l0)
    {
      ghost var before, count, st := revealed, shown, status;
      var cell := At(line, k);
      var uncovered := RevealCell(cell);
      any' := any || uncovered;
      VisitedNext(line, k, any, r0, s0, st0, before, count, st, uncovered, revealed, shown, status, Area(size));
    }

    /** One completion pass at (`row`, `col`): both lines are counted
        first, then a completed row and a completed column have their covered
        cells uncovered. Without a board, nothing happens. The result says
        whether any cell was uncovered. */
    method CompleteField(row: nat, col: nat) returns (updated: bool)
      requires Valid() && (field.Some? ==> N() == size && row < size && col < size)
      modifies hidden, this`revealed, this`shown, this`status, timer
      ensures Valid()
      ensures field.None? ==> !updated && revealed == old(revealed) && shown == old(shown) && status == old(status)
      ensures field.Some? ==> Completed(field.value, size, row, col, updated, old(revealed), old(shown), old(status), revealed, shown, status)
      ensures timer.live == (old(timer.live) && !Terminal(status))
      ensures timer.elapsed == old(timer.elapsed) && timer.leaked == old(timer.leaked)
    {
      if field.None? {
        return false;
      }
      var rowFilled, rowRevealed, colFilled, colRevealed := CountLines(row, col);
      var rowDone := rowFilled == rowRevealed && rowFilled != 0;
      var colDone := colFilled == colRevealed && colFilled != 0;
      ghost var f, r0, s0, st0 := field.value, revealed, shown, status;
      updated := false;
      if rowDone {
        updated := RevealLine(Row(row));
      }
      ghost var r1, s1, st1, u1 := revealed, shown, status, updated;
      var more := false;
      if colDone {
        more := RevealLine(Column(col));
      }
      updated := updated || more;
      PassOutcome(f, size, row, col, r0, s0, st0, rowDone, u1, r1, s1, st1, colDone, more, revealed, shown, status);
    }

    /** The repeat-until-unchanged loop after a cell is uncovered: completion
        passes at the cell until one uncovers nothing. The second pass never
        uncovers anything, and the board left behind is closed under a pass. */
    method Cascade(row: nat, col: nat) returns (ghost passes: nat)
      requires Valid() && field.Some? && N() == size && row < size && col < size
      modifies hidden, this`revealed, this`shown, this`status, timer
      ensures Valid()
      ensures revealed == old(revealed) + Deduce(field.value, size, old(revealed), row, col)
      ensures Deduce(field.value, size, revealed, row, col) == {}
      ensures 1 <= passes <= 2
      ensures shown == old(shown) + |revealed - old(revealed)|
      ensures status == CountUp(old(status), old(shown), shown, Area(size))
      ensures timer.live == (old(timer.live) && !Terminal(status))
      ensures timer.elapsed == old(timer.elapsed) && timer.leaked == old(timer.leaked)
    {
      ghost var r0, s0, st0 := revealed, shown, status;
      passes := 0;
      NoGrowth(r0);
      while true
        invariant Valid()
        invariant passes <= 1
        invariant passes == 0 ==> revealed == r0
        invariant passes == 1 ==> revealed == r0 + Deduce(field.value, size, r0, row, col)
        invariant shown == s0 + |revealed - r0|
        invariant status == CountUp(st0, s0, shown, Area(size))
        invariant timer.live == (old(timer.live) && !Terminal(status))
        invariant timer.elapsed == old(timer.elapsed) && timer.leaked == old(timer.leaked)
        decreases Cells(size) - revealed
      {
        ghost var r, s, st := revealed, shown, status;
        var updated := CompleteField(row, col);
        CascadeStep(field.value, size, row, col, r0, passes, r, revealed);
        Grows(r0, r, revealed);
        CountUpChain(st0, s0, s, shown, Area(size));
        OnBoard(revealed, size);
        passes := passes + 1;
        if !updated {
          break;
        }
      }
    }

    /** Of the wrong marks, only the one of (`row`, `col`) has changed, and
        it now says `miss`. */
    twostate predicate MarkedOnly(row: nat, col: nat, miss: bool)
      reads this, wrong
    {
      && row < wrong.Length0 && col < wrong.Length1 && wrong == old(wrong)
      && wrong[row, col] == miss
      && forall i, j :: 0 <= i < wrong.Length0 && 0 <= j < wrong.Length1 && (i != row || j != col) ==> wrong[i, j] == old(wrong[i, j])
    }

    /** A click with the player's `choice` (fill or mark empty) on the cell
        at (`row`, `col`). A covered cell is uncovered and counted as shown,
        marked wrong when the choice does not match the solution, counted as
        a mistake then, and followed by the completion cascade. The shown
        counter's reaction runs before the mistake counter is written. An
        uncovered cell ignores the click. */
    method Reveal(row: nat, col: nat, choice: bool) returns (ghost passes: nat)
      requires Valid() && field.Some? && N() == size && row < size && col < size
      modifies hidden, wrong, this`revealed, this`shown, this`mistakes, this`status, timer
      ensures Valid()
      ensures Cell(row, col) in old(revealed) ==>
        && revealed == old(revealed) && shown == old(shown) && mistakes == old(mistakes) && status == old(status)
        && unchanged(hidden) && unchanged(wrong) && unchanged(timer) && passes == 0
      ensures Cell(row, col) !in old(revealed) ==>
        && Clicked(field.value, size, row, col, field.value[row][col] != choice, maxMistakes,
                   old(revealed), old(shown), old(mistakes), old(status), revealed, shown, mistakes, status)
        && 1 <= passes <= 2
        && MarkedOnly(row, col, field.value[row][col] != choice)
        && timer.live == (old(timer.live) && !Terminal(status))
        && timer.elapsed == old(timer.elapsed) && timer.leaked == old(timer.leaked)
    {
      if !hidden[row, col] {
        return 0;
      }
      passes := Click(row, col, choice);
    }

    /** A click on a covered cell: uncover it, then run the cascade. */
    method Click(row: nat, col: nat, choice: bool) returns (ghost passes: nat)
      requires Valid() && field.Some? && N() == size && row < size && col < size
      requires Cell(row, col) !in revealed
      modifies hidden, wrong, this`revealed, this`shown, this`mistakes, this`status, timer
      ensures Valid()
      ensures Clicked(field.value, size, row, col, field.value[row][col] != choice, maxMistakes,
                      old(revealed), old(shown), old(mistakes), old(status), revealed, shown, mistakes, status)
      ensures 1 <= passes <= 2
      ensures MarkedOnly(row, col, field.value[row][col] != choice)
      ensures timer.live == (old(timer.live) && !Terminal(status))
      ensures timer.elapsed == old(timer.elapsed) && timer.leaked == old(timer.leaked)
    {
      var miss := Uncover(row, col, choice);
      ghost var r1, s1, st1 := revealed, shown, status;
      passes := Cascade(row, col);
      ClickOutcome(field.value, size, row, col, miss, maxMistakes, old(revealed), old(shown), old(mistakes), old(status),
                   r1, s1, st1, revealed, shown, mistakes, status);
    }

    /** The first half of a click on a covered cell: uncover it, mark it
        wrong or not, and write both counters. */
    method Uncover(row: nat, col: nat, choice: bool) returns (miss: bool)
      requires Valid() && field.Some? && N() == size && row < size && col < size
      requires Cell(row, col) !in revealed
      modifies hidden, wrong, this`revealed, this`shown, this`mistakes, this`status, timer
      ensures Valid()
      ensures miss == (field.value[row][col] != choice)
      ensures revealed == old(revealed) + {Cell(row, col)}
      ensures MarkedOnly(row, col, miss)
      ensures mistakes == old(mistakes) + (if miss then 1 else 0)
      ensures shown == old(shown) + 1
      ensures status == AfterMistake(CountUp(old(status), old(shown), old(shown) + 1, Area(size)), miss, old(mistakes) + 1, maxMistakes)
      ensures timer.live == (old(timer.live) && !Terminal(status))
      ensures timer.elapsed == old(timer.elapsed) && timer.leaked == old(timer.leaked)
    {
      miss := field.value[row][col] != choice;
      hidden[row, col] := false;
      revealed := revealed + {Cell(row, col)};
      wrong[row, col] := miss;
      SetShown(shown + 1);
      if miss {
        SetMistakes(mistakes + 1);
      }
    }
  }
}
