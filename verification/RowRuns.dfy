/** Row-run encoding of a work mask (solweig_core/sparse_work.py, `row_runs_from_mask` and
    `mask_from_row_runs`). */
module RowRuns {
  import opened Planes

  /** Columns c0..c1 of one row, both ends included. */
  datatype Run = Run(row: int, c0: int, c1: int) {
    predicate Has(r: int, c: int) {
      row == r && c0 <= c <= c1
    }

    predicate Inside(rows: nat, cols: nat) {
      0 <= row < rows && 0 <= c0 <= c1 < cols
    }

    /** Ends before `other` starts, with at least one cell between them in a common row. */
    predicate Before(other: Run) {
      row < other.row || (row == other.row && c1 + 1 < other.c0)
    }
  }

  ghost predicate Covered(runs: seq<Run>, r: int, c: int) {
    exists k :: 0 <= k < |runs| && runs[k].Has(r, c)
  }

  /** In range, in row-major order, neither overlapping nor touching. */
  ghost predicate Canonical(runs: seq<Run>, rows: nat, cols: nat) {
    && (forall k | 0 <= k < |runs| :: runs[k].Inside(rows, cols))
    && (forall k, l | 0 <= k < l < |runs| :: runs[k].Before(runs[l]))
  }

  /** `runs` is the canonical encoding of `mask`. */
  ghost predicate Encodes(runs: seq<Run>, mask: Mask, rows: nat, cols: nat)
    requires HasShape(mask, rows, cols)
  {
    && Canonical(runs, rows, cols)
    && forall r, c | InGrid(rows, cols, r, c) :: mask[r][c] <==> Covered(runs, r, c)
  }

  // ---------------------------------------------------------------- encoding

  predicate On(line: seq<bool>, c: int) {
    0 <= c < |line| && line[c]
  }

  ghost predicate InSpan(starts: seq<int>, stops: seq<int>, x: int)
    requires |stops| <= |starts|
  {
    exists k :: 0 <= k < |stops| && starts[k] <= x < stops[k]
  }

  /** Closed spans are in order, none touches the next start, and all end at or before `limit`. */
  ghost predicate Ordered(starts: seq<int>, stops: seq<int>, limit: int) {
    && |stops| <= |starts|
    && (forall k | 0 <= k < |stops| :: 0 <= starts[k] < stops[k] <= limit)
    && (forall k, l | 0 <= k < |stops| && k < l < |starts| :: stops[k] < starts[l])
  }

  /** Starts and ends (exclusive) of the maximal True spans of a line. */
  ghost predicate Spans(line: seq<bool>, starts: seq<int>, stops: seq<int>) {
    && |starts| == |stops| && Ordered(starts, stops, |line|)
    && (forall c | 0 <= c < |line| :: line[c] <==> InSpan(starts, stops, c))
  }

  /** The state after looking at the edges before column c. */
  ghost predicate SpansTo(line: seq<bool>, c: int, starts: seq<int>, stops: seq<int>) {
    && 0 <= c <= |line| + 1
    && Ordered(starts, stops, c - 1) && |starts| == |stops| + (if On(line, c - 1) then 1 else 0)
    && (On(line, c - 1) ==> 0 <= starts[|stops|] < c)
    && forall x | 0 <= x < c && x < |line| ::
      line[x] <==> InSpan(starts, stops, x) || (On(line, c - 1) && starts[|stops|] <= x)
  }

  lemma OpenSpan(line: seq<bool>, c: int, starts: seq<int>, stops: seq<int>)
    requires SpansTo(line, c, starts, stops) && c <= |line| && On(line, c) && !On(line, c - 1)
    ensures SpansTo(line, c + 1, starts + [c], stops)
  {
    forall x ensures InSpan(starts + [c], stops, x) <==> InSpan(starts, stops, x) {
      if k :| 0 <= k < |stops| && starts[k] <= x < stops[k] {
        assert (starts + [c])[k] <= x < stops[k];
      }
      if k :| 0 <= k < |stops| && (starts + [c])[k] <= x < stops[k] {
        assert starts[k] <= x < stops[k];
      }
    }
  }

  lemma CloseSpan(line: seq<bool>, c: int, starts: seq<int>, stops: seq<int>)
    requires SpansTo(line, c, starts, stops) && c <= |line| && !On(line, c) && On(line, c - 1)
    ensures SpansTo(line, c + 1, starts, stops + [c])
  {
    forall x ensures InSpan(starts, stops + [c], x) <==> InSpan(starts, stops, x) || starts[|stops|] <= x < c {
      if k :| 0 <= k < |stops| && starts[k] <= x < stops[k] {
        assert starts[k] <= x < (stops + [c])[k];
      }
      if starts[|stops|] <= x < c {
        assert starts[|stops|] <= x < (stops + [c])[|stops|];
      }
      if k :| 0 <= k < |stops| + 1 && starts[k] <= x < (stops + [c])[k] {
        assert k < |stops| ==> starts[k] <= x < stops[k];
      }
    }
  }

  lemma KeepSpan(line: seq<bool>, c: int, starts: seq<int>, stops: seq<int>)
    requires SpansTo(line, c, starts, stops) && c <= |line| && On(line, c) == On(line, c - 1)
    ensures SpansTo(line, c + 1, starts, stops)
  {
    assert !On(line, c) && c < |line| ==> !InSpan(starts, stops, c);
  }

  /** Walk the differences of the line padded with False on both sides. */
  method Edges(line: seq<bool>) returns (starts: seq<int>, stops: seq<int>)
    ensures Spans(line, starts, stops)
  {
    starts, stops := [], [];
    for c := 0 to |line| + 1
      invariant SpansTo(line, c, starts, stops)
    {
      if On(line, c) && !On(line, c - 1) {
        OpenSpan(line, c, starts, stops);
        starts := starts + [c];
      } else if !On(line, c) && On(line, c - 1) {
        CloseSpan(line, c, starts, stops);
        stops := stops + [c];
      } else {
        KeepSpan(line, c, starts, stops);
      }
    }
  }

  /** Maximal sorted row runs of a mask. */
  method FromMask(mask: Mask, rows: nat, cols: nat) returns (runs: seq<Run>)
    requires HasShape(mask, rows, cols)
    ensures Encodes(runs, mask, rows, cols)
  {
    runs := [];
    for row := 0 to rows
      invariant Canonical(runs, rows, cols)
      invariant forall k | 0 <= k < |runs| :: runs[k].row < row
      invariant forall r, c | 0 <= r < row && 0 <= c < cols :: mask[r][c] <==> Covered(runs, r, c)
    {
      var starts, stops := Edges(mask[row]);
      var more := seq(|starts|, k requires 0 <= k < |starts| => Run(row, starts[k], stops[k] - 1));
      AppendRow(runs, more, mask, row, rows, cols, starts, stops);
      runs := runs + more;
    }
  }

  lemma AppendRow(runs: seq<Run>, more: seq<Run>, mask: Mask, row: nat, rows: nat, cols: nat, starts: seq<int>, stops: seq<int>)
    requires HasShape(mask, rows, cols) && row < rows && Spans(mask[row], starts, stops)
    requires Canonical(runs, rows, cols) && forall k | 0 <= k < |runs| :: runs[k].row < row
    requires forall r, c | 0 <= r < row && 0 <= c < cols :: mask[r][c] <==> Covered(runs, r, c)
    requires |more| == |starts| && forall k | 0 <= k < |more| :: more[k] == Run(row, starts[k], stops[k] - 1)
    ensures Canonical(runs + more, rows, cols)
    ensures forall r, c | 0 <= r <= row && 0 <= c < cols :: mask[r][c] <==> Covered(runs + more, r, c)
  {
    forall r, c | 0 <= r <= row && 0 <= c < cols
      ensures mask[r][c] <==> Covered(runs + more, r, c)
    {
      CoveredAppend(runs, more, r, c);
      if r == row {
        if mask[row][c] {
          var k :| 0 <= k < |starts| && starts[k] <= c < stops[k];
          assert more[k].Has(r, c);
        }
        if Covered(more, r, c) {
          var k :| 0 <= k < |more| && more[k].Has(r, c);
          assert starts[k] <= c < stops[k];
        }
      }
    }
  }

  lemma CoveredAppend(x: seq<Run>, y: seq<Run>, r: int, c: int)
    ensures Covered(x + y, r, c) <==> Covered(x, r, c) || Covered(y, r, c)
  {
    if k :| 0 <= k < |x| && x[k].Has(r, c) {
      assert (x + y)[k].Has(r, c);
    }
    if k :| 0 <= k < |y| && y[k].Has(r, c) {
      assert (x + y)[|x| + k].Has(r, c);
    }
  }

  // ---------------------------------------------------------------- decoding

  /** Rebuild the mask, refusing any run outside the shape. */
  method ToMask(runs: seq<Run>, rows: nat, cols: nat) returns (ok: bool, out: array2<bool>)
    ensures fresh(out) && out.Length0 == rows && out.Length1 == cols
    ensures ok <==> forall k | 0 <= k < |runs| :: runs[k].Inside(rows, cols)
    ensures ok ==> forall r, c | InGrid(rows, cols, r, c) :: out[r, c] <==> Covered(runs, r, c)
  {
    out := new bool[rows, cols]((_, _) => false);
    for k := 0 to |runs|
      invariant forall n | 0 <= n < k :: runs[n].Inside(rows, cols)
      invariant forall r, c | InGrid(rows, cols, r, c) :: out[r, c] <==> Covered(runs[..k], r, c)
    {
      var run := runs[k];
      if !run.Inside(rows, cols) {
        return false, out;
      }
      forall c | run.c0 <= c <= run.c1 {
        out[run.row, c] := true;
      }
      assert runs[..k + 1] == runs[..k] + [run];
      forall r, c | InGrid(rows, cols, r, c) ensures out[r, c] <==> Covered(runs[..k + 1], r, c) {
        CoveredAppend(runs[..k], [run], r, c);
        assert [run][0].Has(r, c) <==> run.Has(r, c);
      }
    }
    assert runs[..|runs|] == runs;
    ok := true;
  }

  // ---------------------------------------------------------------- canonicity

  lemma FirstRunsMeet(x: seq<Run>, y: seq<Run>, rows: nat, cols: nat)
    requires Canonical(x, rows, cols) && Canonical(y, rows, cols) && |x| > 0 && |y| > 0
    requires forall r, c :: Covered(x, r, c) ==> Covered(y, r, c)
    ensures y[0].row < x[0].row || (y[0].row == x[0].row && y[0].c0 <= x[0].c0)
  {
    assert x[0].Has(x[0].row, x[0].c0);
    assert Covered(x, x[0].row, x[0].c0);
    var k :| 0 <= k < |y| && y[k].Has(x[0].row, x[0].c0);
    assert k > 0 ==> y[0].Before(y[k]);
  }

  lemma FirstRunsEndTogether(x: seq<Run>, y: seq<Run>, rows: nat, cols: nat)
    requires Canonical(x, rows, cols) && Canonical(y, rows, cols) && |x| > 0 && |y| > 0
    requires forall r, c :: Covered(y, r, c) ==> Covered(x, r, c)
    requires x[0].row == y[0].row && x[0].c0 == y[0].c0
    ensures y[0].c1 <= x[0].c1
  {
    var r, c := x[0].row, x[0].c1 + 1;
    forall k | 0 <= k < |x| ensures !x[k].Has(r, c) {
      assert k > 0 ==> x[0].Before(x[k]);
    }
    assert y[0].Has(r, c) ==> Covered(y, r, c);
  }

  lemma TailCover(x: seq<Run>, rows: nat, cols: nat, r: int, c: int)
    requires Canonical(x, rows, cols) && |x| > 0
    ensures Covered(x[1..], r, c) <==> Covered(x, r, c) && !x[0].Has(r, c)
  {
    if k :| 0 <= k < |x[1..]| && x[1..][k].Has(r, c) {
      assert x[k + 1].Has(r, c) && x[0].Before(x[k + 1]);
    }
    if Covered(x, r, c) && !x[0].Has(r, c) {
      var k :| 0 <= k < |x| && x[k].Has(r, c);
      assert x[1..][k - 1].Has(r, c);
    }
  }

  /** A set of cells has exactly one canonical run list. */
  lemma {:induction false} CanonicalIsUnique(x: seq<Run>, y: seq<Run>, rows: nat, cols: nat)
    requires Canonical(x, rows, cols) && Canonical(y, rows, cols)
    requires forall r, c :: Covered(x, r, c) <==> Covered(y, r, c)
    ensures x == y
    decreases |x|
  {
    if |x| == 0 || |y| == 0 {
      if |x| > 0 {
        assert x[0].Has(x[0].row, x[0].c0) && Covered(x, x[0].row, x[0].c0);
      } else if |y| > 0 {
        assert y[0].Has(y[0].row, y[0].c0) && Covered(y, y[0].row, y[0].c0);
      }
    } else {
      FirstRunsMeet(x, y, rows, cols);
      FirstRunsMeet(y, x, rows, cols);
      FirstRunsEndTogether(x, y, rows, cols);
      FirstRunsEndTogether(y, x, rows, cols);
      forall r, c ensures Covered(x[1..], r, c) <==> Covered(y[1..], r, c) {
        TailCover(x, rows, cols, r, c);
        TailCover(y, rows, cols, r, c);
      }
      CanonicalIsUnique(x[1..], y[1..], rows, cols);
      assert x == [x[0]] + x[1..] && y == [y[0]] + y[1..];
    }
  }

  /** Encoding is a bijection between masks and canonical run lists: a mask has one encoding, and
      a canonical list is the encoding of the mask it decodes to. */
  lemma EncodingIsUnique(x: seq<Run>, y: seq<Run>, mask: Mask, rows: nat, cols: nat)
    requires HasShape(mask, rows, cols) && Encodes(x, mask, rows, cols) && Encodes(y, mask, rows, cols)
    ensures x == y
  {
    forall r, c ensures Covered(x, r, c) <==> Covered(y, r, c) {
      OutsideGridUncovered(x, rows, cols, r, c);
      OutsideGridUncovered(y, rows, cols, r, c);
    }
    CanonicalIsUnique(x, y, rows, cols);
  }

  lemma OutsideGridUncovered(x: seq<Run>, rows: nat, cols: nat, r: int, c: int)
    requires Canonical(x, rows, cols)
    ensures Covered(x, r, c) ==> InGrid(rows, cols, r, c)
  {
    if Covered(x, r, c) {
      var k :| 0 <= k < |x| && x[k].Has(r, c);
      assert x[k].Inside(rows, cols);
    }
  }

  // ---------------------------------------------------------------- round trips

  /** Decoding the runs of a mask gives the mask. */
  method EncodeThenDecode(mask: Mask, rows: nat, cols: nat) returns (out: array2<bool>)
    requires HasShape(mask, rows, cols)
    ensures fresh(out) && out.Length0 == rows && out.Length1 == cols
    ensures forall r, c | InGrid(rows, cols, r, c) :: out[r, c] == mask[r][c]
  {
    var runs := FromMask(mask, rows, cols);
    var ok;
    ok, out := ToMask(runs, rows, cols);
  }

  /** Encoding what a canonical run list decodes to gives the run list. */
  method DecodeThenEncode(runs: seq<Run>, rows: nat, cols: nat) returns (again: seq<Run>)
    requires Canonical(runs, rows, cols)
    ensures again == runs
  {
    var ok, out := ToMask(runs, rows, cols);
    again := FromMask(MaskOf(out), rows, cols);
    EncodingIsUnique(again, runs, MaskOf(out), rows, cols);
  }

  // ---------------------------------------------------------------- counting

  function Cells(mask: Mask, rows: nat, cols: nat): set<(int, int)>
    requires HasShape(mask, rows, cols)
  {
    set r, c | 0 <= r < rows && 0 <= c < cols && mask[r][c] :: (r, c)
  }

  function TotalLength(runs: seq<Run>): int {
    if runs == [] then 0 else TotalLength(runs[..|runs| - 1]) + runs[|runs| - 1].c1 - runs[|runs| - 1].c0 + 1
  }

  function Stretch(row: int, c0: int, c1: int): set<(int, int)> {
    set c | c0 <= c <= c1 :: (row, c)
  }

  lemma {:induction false} StretchSize(row: int, c0: int, c1: int)
    requires c0 <= c1 + 1
    ensures |Stretch(row, c0, c1)| == c1 - c0 + 1
    decreases c1 + 1 - c0
  {
    if c0 <= c1 {
      StretchSize(row, c0, c1 - 1);
      assert Stretch(row, c0, c1) == Stretch(row, c0, c1 - 1) + {(row, c1)};
    } else {
      assert Stretch(row, c0, c1) == {};
    }
  }

  lemma {:induction false} CoverSize(runs: seq<Run>, rows: nat, cols: nat, cells: set<(int, int)>)
    requires Canonical(runs, rows, cols)
    requires forall r, c :: (r, c) in cells <==> Covered(runs, r, c)
    ensures |cells| == TotalLength(runs)
    decreases |runs|
  {
    if runs == [] {
      assert forall p | p in cells :: Covered(runs, p.0, p.1);
      assert cells == {};
    } else {
      var init, last := runs[..|runs| - 1], runs[|runs| - 1];
      var stretch := Stretch(last.row, last.c0, last.c1);
      assert runs == init + [last];
      forall r, c ensures (r, c) in cells - stretch <==> Covered(init, r, c) {
        CoveredAppend(init, [last], r, c);
        assert [last][0].Has(r, c) <==> (r, c) in stretch;
        if Covered(init, r, c) {
          var k :| 0 <= k < |init| && init[k].Has(r, c);
          assert runs[k].Before(last);
        }
      }
      CoverSize(init, rows, cols, cells - stretch);
      StretchSize(last.row, last.c0, last.c1);
      forall p | p in stretch ensures p in cells {
        assert runs[|runs| - 1].Has(p.0, p.1);
        assert Covered(runs, p.0, p.1);
      }
      assert cells == (cells - stretch) + stretch;
    }
  }

  /** The run lengths add up to the number of marked cells. */
  lemma LengthsCountCells(runs: seq<Run>, mask: Mask, rows: nat, cols: nat)
    requires HasShape(mask, rows, cols) && Encodes(runs, mask, rows, cols)
    ensures TotalLength(runs) == |Cells(mask, rows, cols)|
  {
    forall r, c ensures (r, c) in Cells(mask, rows, cols) <==> Covered(runs, r, c) {
      OutsideGridUncovered(runs, rows, cols, r, c);
    }
    CoverSize(runs, rows, cols, Cells(mask, rows, cols));
  }
}
