/** Run-length encoding of one line of a nonogram: the clue numbers shown
    beside a row or above a column. */
module Runs {

  /** The lengths of the maximal runs of `true` in `s`, left to right.
      The line is read one cell at a time: an empty cell leaves the clue as
      it is, a filled cell at the start or after an empty cell opens a run
      of one, and a filled cell after a filled cell lengthens the last run. */
  function Rle(s: seq<bool>): (d: seq<nat>)
    ensures |s| > 0 && s[|s| - 1] ==> |d| > 0
    decreases |s|
  {
    if s == [] then []
    else
      var p, b := s[..|s| - 1], s[|s| - 1];
      var d := Rle(p);
      if !b then d
      else if |p| == 0 || !p[|p| - 1] then d + [1]
      else Bump(d)
  }

  /** The lengths of the stretches of `false` around and between the runs
      of `s`: the leading one, one between each two runs, the trailing one. */
  function Gaps(s: seq<bool>): (g: seq<nat>)
    ensures |g| == |Rle(s)| + 1
    decreases |s|
  {
    if s == [] then [0]
    else
      var p, b := s[..|s| - 1], s[|s| - 1];
      var g := Gaps(p);
      if !b then Bump(g)
      else if |p| == 0 || !p[|p| - 1] then g + [0]
      else g
  }

  /** `x` with its last entry one larger. */
  function Bump(x: seq<nat>): (y: seq<nat>)
    requires |x| > 0
    ensures |y| == |x|
    ensures y[|y| - 1] == x[|x| - 1] + 1
  {
    x[..|x| - 1] + [x[|x| - 1] + 1]
  }

  /** `n` copies of `x`. */
  function Repeat(x: bool, n: nat): (s: seq<bool>)
    ensures |s| == n && forall i :: 0 <= i < n ==> s[i] == x
  {
    seq(n, _ => x)
  }

  /** Lays out runs of filled cells separated by the given stretches of
      empty cells: the line a clue describes, once the gaps are known. */
  function Render(runs: seq<nat>, gaps: seq<nat>): (line: seq<bool>)
    requires |gaps| == |runs| + 1
  {
    if runs == [] then Repeat(false, gaps[0])
    else Repeat(false, gaps[0]) + Repeat(true, runs[0]) + Render(runs[1..], gaps[1..])
  }

  /** A layout in which every run is non-empty and every gap between two
      runs is non-empty, so that each run is maximal. */
  predicate WellFormed(runs: seq<nat>, gaps: seq<nat>) {
    && |gaps| == |runs| + 1
    && (forall i :: 0 <= i < |runs| ==> runs[i] >= 1)
    && (forall i :: 0 < i < |runs| ==> gaps[i] >= 1)
  }

  /** Number of filled cells of a line. */
  function Count(s: seq<bool>): (n: nat)
    ensures n <= |s|
  {
    if s == [] then 0 else (if s[0] then 1 else 0) + Count(s[1..])
  }

  /** The total of the entries of `s`. */
  function Sum(s: seq<nat>): (t: nat)
  {
    if s == [] then 0 else s[0] + Sum(s[1..])
  }

  // ---------------------------------------------------------------------------
  // Layout algebra: how a layout grows by one cell on the right.

  /** How a well-formed layout ends: with an empty cell when its trailing gap
      is non-empty, with a filled cell when it is empty and there is a run. */
  lemma {:induction false} RenderLast(runs: seq<nat>, gaps: seq<nat>)
    requires WellFormed(runs, gaps)
    ensures var s := Render(runs, gaps);
      && (gaps[|runs|] > 0 ==> |s| > 0 && !s[|s| - 1])
      && (gaps[|runs|] == 0 && runs != [] ==> |s| > 0 && s[|s| - 1])
      && (runs == [] ==> forall i :: 0 <= i < |s| ==> !s[i])
    decreases |runs|
  {
    if runs != [] {
      assert WellFormed(runs[1..], gaps[1..]);
      RenderLast(runs[1..], gaps[1..]);
      var rest := Render(runs[1..], gaps[1..]);
      var head := Repeat(false, gaps[0]) + Repeat(true, runs[0]);
      assert Render(runs, gaps) == head + rest;
      if rest == [] {
        assert Render(runs, gaps) == head;
      } else {
        assert (head + rest)[|head + rest| - 1] == rest[|rest| - 1];
      }
    }
  }

  /** One more empty cell lengthens the trailing gap. */
  lemma {:induction false} RenderAppendEmpty(runs: seq<nat>, gaps: seq<nat>)
    requires |gaps| == |runs| + 1
    ensures Render(runs, gaps) + [false] == Render(runs, Bump(gaps))
    decreases |runs|
  {
    if runs == [] {
      assert Repeat(false, gaps[0]) + [false] == Repeat(false, Bump(gaps)[0]);
    } else {
      RenderAppendEmpty(runs[1..], gaps[1..]);
      BumpTail(gaps);
      var head := Repeat(false, gaps[0]) + Repeat(true, runs[0]);
      assert (head + Render(runs[1..], gaps[1..])) + [false] == head + (Render(runs[1..], gaps[1..]) + [false]);
    }
  }

  /** One more filled cell after the trailing gap opens a run of one cell,
      followed by an empty trailing gap. */
  lemma {:induction false} RenderAppendNewRun(runs: seq<nat>, gaps: seq<nat>)
    requires |gaps| == |runs| + 1
    ensures Render(runs, gaps) + [true] == Render(runs + [1], gaps + [0])
    decreases |runs|
  {
    if runs == [] {
      assert ([] + [1])[1..] == [] && (gaps + [0])[1..] == [0];
      assert Repeat(false, gaps[0]) + [true] == Repeat(false, gaps[0]) + Repeat(true, 1) + Repeat(false, 0);
    } else {
      RenderAppendNewRun(runs[1..], gaps[1..]);
      assert (runs + [1])[1..] == runs[1..] + [1] && (gaps + [0])[1..] == gaps[1..] + [0];
      var head := Repeat(false, gaps[0]) + Repeat(true, runs[0]);
      assert (head + Render(runs[1..], gaps[1..])) + [true] == head + (Render(runs[1..], gaps[1..]) + [true]);
    }
  }

  /** One more filled cell right after the last run lengthens that run. */
  lemma {:induction false} RenderAppendExtend(runs: seq<nat>, gaps: seq<nat>)
    requires |gaps| == |runs| + 1 && runs != [] && gaps[|runs|] == 0
    ensures Render(runs, gaps) + [true] == Render(Bump(runs), gaps)
    decreases |runs|
  {
    if |runs| == 1 {
      assert Bump(runs) == [runs[0] + 1];
      assert Repeat(false, gaps[0]) + Repeat(true, runs[0]) + Repeat(false, 0) + [true]
          == Repeat(false, gaps[0]) + Repeat(true, runs[0] + 1) + Repeat(false, 0);
    } else {
      RenderAppendExtend(runs[1..], gaps[1..]);
      BumpTail(runs);
      var head := Repeat(false, gaps[0]) + Repeat(true, runs[0]);
      assert (head + Render(runs[1..], gaps[1..])) + [true] == head + (Render(runs[1..], gaps[1..]) + [true]);
    }
  }

  /** `Bump` leaves the first entry of a sequence of two or more alone. */
  lemma BumpTail(x: seq<nat>)
    requires |x| > 1
    ensures Bump(x)[0] == x[0] && Bump(x)[1..] == Bump(x[1..])
  {
  }

  /** `Bump` undone. */
  lemma BumpDrop(x: seq<nat>)
    requires |x| > 0 && x[|x| - 1] > 0
    ensures Bump(x[..|x| - 1] + [x[|x| - 1] - 1]) == x
  {
  }

  lemma WellFormedBumpGap(runs: seq<nat>, gaps: seq<nat>)
    requires WellFormed(runs, gaps)
    ensures WellFormed(runs, Bump(gaps))
  {
  }

  lemma WellFormedBumpRun(runs: seq<nat>, gaps: seq<nat>)
    requires WellFormed(runs, gaps) && runs != []
    ensures WellFormed(Bump(runs), gaps)
  {
  }

  lemma WellFormedNewRun(runs: seq<nat>, gaps: seq<nat>)
    requires WellFormed(runs, gaps) && (runs != [] ==> gaps[|runs|] >= 1)
    ensures WellFormed(runs + [1], gaps + [0])
  {
  }

  /** Taking one cell off the right of a well-formed layout: the trailing
      gap, the last run, or (when it is a single cell) the whole last run. */
  lemma WellFormedShrink(runs: seq<nat>, gaps: seq<nat>)
    requires WellFormed(runs, gaps)
    ensures var n := |runs|;
      gaps[n] > 0 ==> WellFormed(runs, gaps[..n] + [gaps[n] - 1])
    ensures var n := |runs|;
      n > 0 && runs[n - 1] > 1 ==> WellFormed(runs[..n - 1] + [runs[n - 1] - 1], gaps)
    ensures var n := |runs|;
      n > 0 ==> WellFormed(runs[..n - 1], gaps[..n])
  {
  }

  // ---------------------------------------------------------------------------
  // The clue and its layout determine each other.

  /** One cell appended to a line, seen through `Rle`. */
  lemma SnocView(s: seq<bool>, p: seq<bool>, b: bool)
    requires s == p + [b]
    ensures s[..|s| - 1] == p && s[|s| - 1] == b
  {
  }

  /** `Rle` and `Gaps` of a line with one more empty cell. */
  lemma SnocEmpty(p: seq<bool>)
    ensures Rle(p + [false]) == Rle(p)
    ensures Gaps(p + [false]) == Bump(Gaps(p))
  {
    SnocView(p + [false], p, false);
  }

  /** `Rle` and `Gaps` of a line with one more filled cell that opens a run. */
  lemma SnocNewRun(p: seq<bool>)
    requires |p| == 0 || !p[|p| - 1]
    ensures Rle(p + [true]) == Rle(p) + [1]
    ensures Gaps(p + [true]) == Gaps(p) + [0]
  {
    SnocView(p + [true], p, true);
  }

  /** `Rle` and `Gaps` of a line with one more filled cell that extends a run. */
  lemma SnocExtend(p: seq<bool>)
    requires |p| > 0 && p[|p| - 1]
    ensures |Rle(p)| > 0
    ensures Rle(p + [true]) == Bump(Rle(p))
    ensures Gaps(p + [true]) == Gaps(p)
  {
    SnocView(p + [true], p, true);
  }

  /** Round trip, line to clue and back: the runs and gaps of a line form a
      well-formed layout that lays the line out again. */
  lemma {:induction false} RenderRle(s: seq<bool>)
    ensures WellFormed(Rle(s), Gaps(s))
    ensures Render(Rle(s), Gaps(s)) == s
    decreases |s|
  {
    if s == [] {
      assert Render([], [0]) == [];
    } else {
      var p, b := s[..|s| - 1], s[|s| - 1];
      assert s == p + [b];
      RenderRle(p);
      var runs, gaps := Rle(p), Gaps(p);
      LayoutSnoc(p, b, runs, gaps);
    }
  }

  /** The inductive step of `RenderRle`, for a line whose layout is known. */
  lemma LayoutSnoc(p: seq<bool>, b: bool, runs: seq<nat>, gaps: seq<nat>)
    requires runs == Rle(p) && gaps == Gaps(p)
    requires WellFormed(runs, gaps) && Render(runs, gaps) == p
    ensures WellFormed(Rle(p + [b]), Gaps(p + [b]))
    ensures Render(Rle(p + [b]), Gaps(p + [b])) == p + [b]
  {
    RenderLast(runs, gaps);
    if !b {
      SnocEmpty(p);
      RenderAppendEmpty(runs, gaps);
      WellFormedBumpGap(runs, gaps);
    } else if |p| == 0 || !p[|p| - 1] {
      SnocNewRun(p);
      RenderAppendNewRun(runs, gaps);
      WellFormedNewRun(runs, gaps);
    } else {
      SnocExtend(p);
      RenderAppendExtend(runs, gaps);
      WellFormedBumpRun(runs, gaps);
    }
  }

  /** Round trip, clue to line and back: the runs and gaps of a well-formed
      layout are exactly the ones it was laid out from. */
  lemma {:induction false} RleRender(runs: seq<nat>, gaps: seq<nat>)
    requires WellFormed(runs, gaps)
    ensures Rle(Render(runs, gaps)) == runs
    ensures Gaps(Render(runs, gaps)) == gaps
    decreases |Render(runs, gaps)|
  {
    var n := |runs|;
    WellFormedShrink(runs, gaps);
    if gaps[n] > 0 {
      var gaps0 := gaps[..n] + [gaps[n] - 1];
      BumpDrop(gaps);
      RenderAppendEmpty(runs, gaps0);
      RleRender(runs, gaps0);
      UnrenderEmpty(runs, gaps0);
    } else if runs == [] {
      assert gaps == [0];
      assert Render(runs, gaps) == [];
    } else if runs[n - 1] > 1 {
      var runs0 := runs[..n - 1] + [runs[n - 1] - 1];
      BumpDrop(runs);
      RenderAppendExtend(runs0, gaps);
      RleRender(runs0, gaps);
      UnrenderExtend(runs0, gaps);
    } else {
      var runs0, gaps0 := runs[..n - 1], gaps[..n];
      RenderAppendNewRun(runs0, gaps0);
      assert runs0 + [1] == runs && gaps0 + [0] == gaps;
      RleRender(runs0, gaps0);
      UnrenderNewRun(runs0, gaps0);
    }
  }

  /** The step of `RleRender` for a layout that ends with an empty cell. */
  lemma UnrenderEmpty(runs: seq<nat>, gaps0: seq<nat>)
    requires WellFormed(runs, gaps0)
    requires Rle(Render(runs, gaps0)) == runs && Gaps(Render(runs, gaps0)) == gaps0
    ensures Rle(Render(runs, Bump(gaps0))) == runs && Gaps(Render(runs, Bump(gaps0))) == Bump(gaps0)
  {
    var p := Render(runs, gaps0);
    RenderAppendEmpty(runs, gaps0);
    SnocEmpty(p);
  }

  /** The step of `RleRender` for a layout whose last run is longer than one. */
  lemma UnrenderExtend(runs0: seq<nat>, gaps: seq<nat>)
    requires WellFormed(runs0, gaps) && runs0 != [] && gaps[|runs0|] == 0
    requires Rle(Render(runs0, gaps)) == runs0 && Gaps(Render(runs0, gaps)) == gaps
    ensures Rle(Render(Bump(runs0), gaps)) == Bump(runs0) && Gaps(Render(Bump(runs0), gaps)) == gaps
  {
    var p := Render(runs0, gaps);
    RenderAppendExtend(runs0, gaps);
    RenderLast(runs0, gaps);
    SnocExtend(p);
  }

  /** The step of `RleRender` for a layout whose last run is a single cell. */
  lemma UnrenderNewRun(runs0: seq<nat>, gaps0: seq<nat>)
    requires WellFormed(runs0, gaps0) && (runs0 != [] ==> gaps0[|runs0|] >= 1)
    requires Rle(Render(runs0, gaps0)) == runs0 && Gaps(Render(runs0, gaps0)) == gaps0
    ensures Rle(Render(runs0 + [1], gaps0 + [0])) == runs0 + [1]
    ensures Gaps(Render(runs0 + [1], gaps0 + [0])) == gaps0 + [0]
  {
    var p := Render(runs0, gaps0);
    RenderAppendNewRun(runs0, gaps0);
    RenderLast(runs0, gaps0);
    SnocNewRun(p);
  }

  // ---------------------------------------------------------------------------
  // What the clue says about the line.

  /** Every clue entry is at least one. */
  lemma RlePositive(s: seq<bool>)
    ensures forall i :: 0 <= i < |Rle(s)| ==> Rle(s)[i] >= 1
  {
    RenderRle(s);
  }

  lemma {:induction false} CountAppend(a: seq<bool>, b: seq<bool>)
    ensures Count(a + b) == Count(a) + Count(b)
  {
    if a == [] {
      assert a + b == b;
    } else {
      assert (a + b)[1..] == a[1..] + b;
      CountAppend(a[1..], b);
    }
  }

  lemma {:induction false} CountRepeat(x: bool, n: nat)
    ensures Count(Repeat(x, n)) == if x then n else 0
  {
    if n > 0 {
      assert Repeat(x, n)[1..] == Repeat(x, n - 1);
      CountRepeat(x, n - 1);
    }
  }

  /** A layout's line has as many filled cells as its runs add up to, and
      as many cells as its runs and gaps together. */
  lemma {:induction false} SumRender(runs: seq<nat>, gaps: seq<nat>)
    requires |gaps| == |runs| + 1
    ensures Count(Render(runs, gaps)) == Sum(runs)
    ensures |Render(runs, gaps)| == Sum(runs) + Sum(gaps)
    decreases |runs|
  {
    CountRepeat(false, gaps[0]);
    if runs != [] {
      CountRepeat(true, runs[0]);
      SumRender(runs[1..], gaps[1..]);
      CountAppend(Repeat(false, gaps[0]) + Repeat(true, runs[0]), Render(runs[1..], gaps[1..]));
      CountAppend(Repeat(false, gaps[0]), Repeat(true, runs[0]));
    }
  }

  /** The entries of a clue add up to the number of filled cells of its line. */
  lemma SumRle(s: seq<bool>)
    ensures Sum(Rle(s)) == Count(s)
  {
    var runs, gaps := Rle(s), Gaps(s);
    RenderRle(s);
    SumRender(runs, gaps);
  }

  /** A line has an empty clue exactly when none of its cells is filled. */
  lemma {:induction false} RleEmpty(s: seq<bool>)
    ensures Rle(s) == [] <==> forall i :: 0 <= i < |s| ==> !s[i]
    decreases |s|
  {
    if s != [] {
      var p, b := s[..|s| - 1], s[|s| - 1];
      assert s == p + [b];
      RleEmpty(p);
      if !b {
        assert forall i :: 0 <= i < |p| ==> s[i] == p[i];
      }
    }
  }

  /** One step of the scan that the clue loop performs: given the clue `d` of
      the first `k` cells of `s`, the clue of the first `k + 1` cells, decided
      the way the loop decides it (on whether `d` is still empty rather than
      on whether `k` is 0). */
  lemma ScanStep(s: seq<bool>, k: nat, d: seq<nat>)
    requires k < |s| && d == Rle(s[..k])
    ensures |d| != 0 ==> k > 0
    ensures Rle(s[..k + 1]) ==
      if !s[k] then d
      else if |d| == 0 || !s[k - 1] then d + [1]
      else Bump(d)
  {
    var p := s[..k];
    SnocView(s[..k + 1], p, s[k]);
    RleEmpty(p);
    if k > 0 {
      assert p[k - 1] == s[k - 1];
    }
  }
}
