/** The solution of a puzzle: a square grid of filled (`true`) and empty
    (`false`) cells, how it is drawn at random, and the clues computed from it. */
module Board {
  import opened Runs

  datatype Option<T> = None | Some(value: T)

  /** Rows of cells, top to bottom; each row left to right. */
  type Field = seq<seq<bool>>

  predicate Square<T>(f: seq<seq<T>>, n: nat) {
    |f| == n && forall i :: 0 <= i < n ==> |f[i]| == n
  }

  /** Column `c` of `f`, top to bottom. */
  function ColumnOf(f: Field, c: nat): (col: seq<bool>)
    requires forall i :: 0 <= i < |f| ==> c < |f[i]|
    ensures |col| == |f| && forall i :: 0 <= i < |f| ==> col[i] == f[i][c]
  {
    seq(|f|, i requires 0 <= i < |f| => f[i][c])
  }

  /** A fresh solution of `size` rows and columns. There is one random draw
      per cell, taken row by row, and a cell is filled when its draw exceeds
      one half. */
  function Generate(size: nat, draws: seq<seq<real>>): (f: Field)
    requires Square(draws, size)
    ensures Square(f, size)
    ensures forall i, j :: 0 <= i < size && 0 <= j < size ==> (f[i][j] <==> draws[i][j] > 0.5)
  {
    seq(size, i requires 0 <= i < size => seq(size, j requires 0 <= j < size => draws[i][j] > 0.5))
  }

  /** Draws that make `Generate` produce a given solution. */
  function DrawsFor(f: Field, n: nat): (d: seq<seq<real>>)
    requires Square(f, n)
    ensures Square(d, n)
  {
    seq(n, i requires 0 <= i < n => seq(n, j requires 0 <= j < n => if f[i][j] then 1.0 else 0.0))
  }

  /** Every square solution can come out of the random draw: the generator
      can set any puzzle of its size. */
  lemma EveryFieldGenerated(f: Field, n: nat)
    requires Square(f, n)
    ensures Generate(n, DrawsFor(f, n)) == f
  {
    var g := Generate(n, DrawsFor(f, n));
    forall i | 0 <= i < n
      ensures g[i] == f[i]
    {
    }
  }

  /** The clues of a solution: one per row, left to right, and one per
      column, top to bottom. A missing solution has no clues at all.

      The loop reads the solution one cell at a time, row by row, and feeds
      each filled cell both into its row's clue and into its column's clue:
      it opens a new run when the clue is still empty or the cell before it
      in that line is empty, and otherwise lengthens the last run. */
  method FieldDescriptor(field: Option<Field>, size: nat) returns (rows: seq<seq<nat>>, columns: seq<seq<nat>>)
    requires field.Some? ==> Square(field.value, size)
    ensures field.None? ==> rows == [] && columns == []
    ensures field.Some? ==> |rows| == size && |columns| == size
    ensures field.Some? ==> forall r :: 0 <= r < size ==> rows[r] == Rle(field.value[r])
    ensures field.Some? ==> forall c :: 0 <= c < size ==> columns[c] == Rle(ColumnOf(field.value, c))
  {
    if field.None? {
      return [], [];
    }
    rows, columns := Scan(field.value, size);
  }

  /** The scan of a present solution: rows top to bottom, each row left to
      right. */
  method Scan(f: Field, size: nat) returns (rows: seq<seq<nat>>, columns: seq<seq<nat>>)
    requires Square(f, size)
    ensures |rows| == size && |columns| == size
    ensures forall r :: 0 <= r < size ==> rows[r] == Rle(f[r])
    ensures forall c :: 0 <= c < size ==> columns[c] == Rle(ColumnOf(f, c))
  {
    var rs := new seq<nat>[size](_ => []);
    var cs := new seq<nat>[size](_ => []);
    var r := 0;
    while r < size
      invariant 0 <= r <= size
      invariant forall i :: 0 <= i < r ==> rs[i] == Rle(f[i])
      invariant forall i :: r <= i < size ==> rs[i] == []
      invariant ColumnsUpTo(f, size, cs[..], r)
    {
      ScanRow(f, size, r, rs, cs);
      r := r + 1;
    }
    rows, columns := rs[..], cs[..];
    forall j | 0 <= j < size
      ensures columns[j] == Rle(ColumnOf(f, j))
    {
      WholePrefix(ColumnOf(f, j));
    }
  }

  /** Each column's clue covers the column's first `r` cells. */
  ghost predicate ColumnsUpTo(f: Field, size: nat, cs: seq<seq<nat>>, r: nat)
    requires Square(f, size) && r <= size
  {
    |cs| == size && forall j :: 0 <= j < size ==> cs[j] == Rle(ColumnOf(f, j)[..r])
  }

  lemma WholePrefix(s: seq<bool>)
    ensures s[..|s|] == s
  {
  }

  /** Row `r` of the scan: every cell of the row fed into the row's clue
      and into its column's clue. */
  method ScanRow(f: Field, size: nat, r: nat, rs: array<seq<nat>>, cs: array<seq<nat>>)
    requires Square(f, size) && r < size && rs.Length == size && cs.Length == size && rs != cs
    requires rs[r] == []
    requires ColumnsUpTo(f, size, cs[..], r)
    modifies rs, cs
    ensures rs[r] == Rle(f[r])
    ensures forall i :: 0 <= i < size && i != r ==> rs[i] == old(rs[i])
    ensures ColumnsUpTo(f, size, cs[..], r + 1)
  {
    var c := 0;
    while c < size
      invariant 0 <= c <= size
      invariant forall i :: 0 <= i < size && i != r ==> rs[i] == old(rs[i])
      invariant rs[r] == Rle(f[r][..c])
      invariant forall j :: 0 <= j < c ==> cs[j] == Rle(ColumnOf(f, j)[..r + 1])
      invariant forall j :: c <= j < size ==> cs[j] == Rle(ColumnOf(f, j)[..r])
    {
      Feed(rs, r, f[r], c);
      Feed(cs, c, ColumnOf(f, c), r);
      c := c + 1;
    }
    assert f[r][..size] == f[r];
  }

  /** One cell of the scan: cell `i` of `line` fed into the clue kept at
      `clues[k]`, the step the source writes out once for the cell's row and
      once for its column. */
  method Feed(clues: array<seq<nat>>, k: nat, line: seq<bool>, i: nat)
    requires k < clues.Length && i < |line| && clues[k] == Rle(line[..i])
    modifies clues
    ensures clues[k] == Rle(line[..i + 1])
    ensures forall j :: 0 <= j < clues.Length && j != k ==> clues[j] == old(clues[j])
  {
    ScanStep(line, i, clues[k]);
    if line[i] {
      if |clues[k]| == 0 || !line[i - 1] {
        clues[k] := clues[k] + [1];
      } else {
        clues[k] := Bump(clues[k]);
      }
    }
  }
}
