/** The search for the number of trees of the random forest
    (02_code/find_optimal_RForest_size.py).

    The candidate tree counts follow numpy's `arange(start, end + step,
    step)`. Every run and every candidate gets one out-of-bag score. The
    table holds one row per candidate and one column per run. Each row is
    summarised by its mean and its population standard deviation. Fitting a
    forest on a run's resample is the parameter `score(run, n)`, the score
    of candidate n in that run. The square root is the parameter `sqrt`. */
module ForestSize {
  import opened Common

  // ---------------------------------------------------------------------
  // Candidate tree counts (line 52)
  // ---------------------------------------------------------------------

  /** The length `ceil((stop - start) / step)` of numpy's `arange`, and 0 when
      that is negative. */
  function ArangeLength(start: int, stop: int, step: int): (n: nat)
    requires step != 0
  {
    if step > 0 then Max(0, CeilDiv(stop - start, step)) else Max(0, CeilDiv(start - stop, -step))
  }

  /** `np.arange(start, stop, step)` on integers. A zero step is a
      ZeroDivisionError (None). */
  function Arange(start: int, stop: int, step: int): (r: Option<seq<int>>)
    ensures r.None? <==> step == 0
  {
    if step == 0 then None
    else Some(seq(ArangeLength(start, stop, step), k requires 0 <= k => start + k * step))
  }

  /** Line 52: the tree counts from `start` to `end` in steps of `step`. */
  function Candidates(start: int, end: int, step: int): (r: Option<seq<int>>)
    ensures r.None? <==> step == 0
  {
    Arange(start, end + step, step)
  }

  /** Whether v lies before the stop value in the direction of the step. */
  predicate Before(v: int, stop: int, step: int)
  {
    if step > 0 then v < stop else v > stop
  }

  lemma MultiplyBelow(k: int, c: int, s: int)
    requires 0 <= k < c && s > 0
    ensures k * s <= (c - 1) * s
  {
  }

  /** The values start + k step for k below the length lie before the stop, and the
      next one does not: the length is the exact count. */
  lemma ArangeMeaning(start: int, stop: int, step: int)
    requires step != 0
    ensures var n := ArangeLength(start, stop, step);
            && (forall k :: 0 <= k < n ==> Before(start + k * step, stop, step))
            && !Before(start + n * step, stop, step)
  {
    var n := ArangeLength(start, stop, step);
    if step > 0 {
      ArangeForward(start, stop, step);
    } else {
      ArangeForward(-start, -stop, -step);
      forall k | 0 <= k <= n ensures start + k * step == -(-start + k * -step) {
        assert k * step == -(k * -step);
      }
    }
  }

  /** The count for a positive step. */
  lemma ArangeForward(start: int, stop: int, s: int)
    requires s > 0
    ensures var n := Max(0, CeilDiv(stop - start, s));
            && (forall k :: 0 <= k < n ==> start + k * s < stop)
            && start + n * s >= stop
  {
    var c := CeilDiv(stop - start, s);
    var n := Max(0, c);
    forall k | 0 <= k < n ensures start + k * s < stop {
      MultiplyBelow(k, c, s);
    }
    if c <= 0 {
      PositiveFactor(s, c);
    }
  }

  lemma PositiveFactor(s: int, r: int)
    requires s > 0
    ensures s * r > 0 ==> r > 0
    ensures s * r <= 0 ==> r <= 0
  {
    if r > 0 {
      assert s * r >= s;
    }
  }

  /** With a positive step there are candidates exactly when start < end + step,
      and the first is `start`. */
  lemma CandidatesStart(start: int, end: int, step: int)
    requires step > 0
    ensures var c := Candidates(start, end, step).value;
            && (|c| > 0 <==> start < end + step)
            && (|c| > 0 ==> c[0] == start)
  {
    var d := end + step - start;
    var q := CeilDiv(d, step);
    PositiveFactor(step, q);
    PositiveFactor(step, q - 1);
  }

  /** Consecutive candidates differ by the step. */
  lemma CandidatesStep(start: int, end: int, step: int)
    requires step > 0
    ensures var c := Candidates(start, end, step).value;
            forall k :: 0 <= k < |c| - 1 ==> c[k + 1] == c[k] + step
  {
    var c := Candidates(start, end, step).value;
    forall k | 0 <= k < |c| - 1 ensures c[k + 1] == c[k] + step {
      assert (k + 1) * step == k * step + step;
    }
  }

  /** Every candidate is below end + step, and the last is at least `end`. */
  lemma CandidatesBelow(start: int, end: int, step: int)
    requires step > 0
    ensures var c := Candidates(start, end, step).value;
            && (forall k :: 0 <= k < |c| ==> c[k] < end + step)
            && (|c| > 0 ==> c[|c| - 1] >= end)
  {
    ArangeMeaning(start, end + step, step);
    var c := Candidates(start, end, step).value;
    var n := |c|;
    if n > 0 {
      assert !Before(start + n * step, end + step, step);
      assert n * step == (n - 1) * step + step;
    }
  }

  /** The last candidate exceeds `end` exactly when the step does not divide
      end - start. */
  lemma CandidatesLast(start: int, end: int, step: int)
    requires step > 0
    ensures var c := Candidates(start, end, step).value;
            |c| > 0 ==> (c[|c| - 1] > end <==> (end - start) % step != 0)
  {
    var c := Candidates(start, end, step).value;
    var n := |c|;
    if n > 0 {
      CandidatesBelow(start, end, step);
      LastExceeds(start, end, step, n - 1);
    }
  }

  lemma SmallMultiple(t: int, step: int)
    requires step > 0 && -step < t * step < step
    ensures t == 0
  {
  }

  lemma QuotientUnique(x: int, step: int, q: int)
    requires step > 0 && 0 <= x - q * step < step
    ensures x / step == q
  {
    var q' := x / step;
    var r' := x % step;
    assert x == q' * step + r';
    assert (q - q') * step == q * step - q' * step;
    SmallMultiple(q - q', step);
  }

  /** With end <= start + m step < end + step, start + m step == end exactly
      when step divides end - start. */
  lemma LastExceeds(start: int, end: int, step: int, m: nat)
    requires step > 0 && end <= start + m * step < end + step
    ensures start + m * step > end <==> (end - start) % step != 0
  {
    var d := end - start;
    if d % step == 0 {
      var q := d / step;
      assert d == q * step;
      QuotientUnique(m * step, step, q);
      QuotientUnique(m * step, step, m);
    }
  }

  // ---------------------------------------------------------------------
  // The out-of-bag table (lines 62-87)
  // ---------------------------------------------------------------------

  /** The cells in the order the loops visit them: run by run, and within a
      run candidate by candidate; a cell is (candidate, run). */
  function Visits(nc: nat, runs: nat): (v: seq<(nat, nat)>)
    ensures |v| == nc * runs
  {
    if runs == 0 then [] else Visits(nc, runs - 1) + seq(nc, n requires 0 <= n => (n, runs - 1))
  }

  /** The loops visit every cell of the table, nothing outside it, and no
      cell twice. */
  lemma {:induction false} VisitsEachCellOnce(nc: nat, runs: nat)
    ensures forall n: nat, r: nat :: (n, r) in Visits(nc, runs) <==> n < nc && r < runs
    ensures forall i, j :: 0 <= i < j < |Visits(nc, runs)| ==> Visits(nc, runs)[i] != Visits(nc, runs)[j]
  {
    if runs > 0 {
      VisitsEachCellOnce(nc, runs - 1);
      var a: seq<(nat, nat)> := Visits(nc, runs - 1);
      var b: seq<(nat, nat)> := seq(nc, n requires 0 <= n => (n, runs - 1));
      assert Visits(nc, runs) == a + b;
      forall n: nat, r: nat ensures (n, r) in a + b <==> n < nc && r < runs {
        if n < nc && r == runs - 1 {
          assert b[n] == (n, r);
        }
      }
      forall i, j | 0 <= i < j < |a + b| ensures (a + b)[i] != (a + b)[j] {
        if i < |a| && j >= |a| {
          assert a[i] in a;
        }
      }
    }
  }

  /** The table as a value: row n holds candidate n's score in each run. */
  function Table(nc: nat, runs: nat, score: (nat, nat) -> real): (t: seq<seq<real>>)
    ensures |t| == nc && forall n :: 0 <= n < nc ==> |t[n]| == runs
  {
    seq(nc, n requires 0 <= n < nc => seq(runs, r requires 0 <= r < runs => score(r, n)))
  }

  /** Lines 62-87: the nested loops write cell (n, r) with the score of
      candidate n in run r. `log` records the cells in the order written. */
  method FillTable(nc: nat, runs: nat, score: (nat, nat) -> real) returns (oob: array2<real>, ghost log: seq<(nat, nat)>)
    ensures fresh(oob) && oob.Length0 == nc && oob.Length1 == runs
    ensures forall n, r :: 0 <= n < nc && 0 <= r < runs ==> oob[n, r] == score(r, n)
    ensures log == Visits(nc, runs)
  {
    oob := new real[nc, runs];
    log := [];
    for r := 0 to runs
      invariant log == Visits(nc, r)
      invariant forall n, r' :: 0 <= n < nc && 0 <= r' < r ==> oob[n, r'] == score(r', n)
    {
      for n := 0 to nc
        invariant log == Visits(nc, r) + seq(n, k requires 0 <= k => (k, r))
        invariant forall n', r' :: 0 <= n' < nc && 0 <= r' < r ==> oob[n', r'] == score(r', n')
        invariant forall n' :: 0 <= n' < n ==> oob[n', r] == score(r, n')
      {
        oob[n, r] := score(r, n);
        log := log + [(n, r)];
      }
    }
  }

  function Rows(oob: array2<real>): (t: seq<seq<real>>)
    reads oob
    ensures |t| == oob.Length0
  {
    seq(oob.Length0, n requires 0 <= n < oob.Length0 reads oob => Row(oob, n))
  }

  // ---------------------------------------------------------------------
  // Summaries (lines 95-97) and column names (line 100)
  // ---------------------------------------------------------------------

  function Mean(xs: seq<real>): real
    requires |xs| > 0
  {
    Sum(xs) / |xs| as real
  }

  /** The mean of a row lies between its least and its greatest score. */
  lemma MeanWithin(xs: seq<real>)
    requires |xs| > 0
    ensures SeqMin(xs) <= Mean(xs) <= SeqMax(xs)
  {
    MeanBetween(xs, SeqMin(xs), SeqMax(xs));
  }

  lemma MeanBetween(xs: seq<real>, a: real, b: real)
    requires |xs| > 0 && forall k :: 0 <= k < |xs| ==> a <= xs[k] <= b
    ensures a <= Mean(xs) <= b
  {
    var lo := seq(|xs|, _ => a);
    var hi := seq(|xs|, _ => b);
    SumMonotone(lo, xs);
    SumMonotone(xs, hi);
    SumConstant(lo, a);
    SumConstant(hi, b);
    DivideWithin(Sum(xs), |xs| as real, a, b, Sum(lo), Sum(hi));
  }

  lemma DivideWithin(s: real, n: real, lo: real, hi: real, sl: real, sh: real)
    requires n > 0.0 && sl == n * lo && sh == n * hi && sl <= s <= sh
    ensures lo <= s / n <= hi
  {
  }

  /** `np.std`'s variance: the mean squared deviation from the mean. */
  function Variance(xs: seq<real>): real
    requires |xs| > 0
  {
    var m := Mean(xs);
    Sum(seq(|xs|, k requires 0 <= k < |xs| => Sq(xs[k] - m))) / |xs| as real
  }

  /** The variance is never negative, and it is 0 exactly when every run
      gave the row's mean, that is, when all runs agree. */
  lemma VarianceMeaning(xs: seq<real>)
    requires |xs| > 0
    ensures Variance(xs) >= 0.0
    ensures Variance(xs) == 0.0 <==> forall k :: 0 <= k < |xs| ==> xs[k] == Mean(xs)
  {
    var m := Mean(xs);
    var d := seq(|xs|, k requires 0 <= k < |xs| => Sq(xs[k] - m));
    SumNonNegative(d);
    SumZeroIffAllZero(d);
    forall k | 0 <= k < |xs| ensures d[k] == 0.0 <==> xs[k] == m {
      assert d[k] == Sq(xs[k] - m);
    }
  }

  /** A row whose runs all gave one score has that mean and no spread. */
  lemma ConstantRow(xs: seq<real>, c: real)
    requires |xs| > 0 && forall k :: 0 <= k < |xs| ==> xs[k] == c
    ensures Mean(xs) == c && Variance(xs) == 0.0
  {
    SumConstant(xs, c);
    VarianceMeaning(xs);
  }

  /** The row of the summary file; numpy's NaN for a table without runs is None. */
  datatype SummaryRow = SummaryRow(trees: int, mean: Option<real>, sd: Option<real>)

  function Summarise(trees: int, xs: seq<real>, sqrt: real -> real): (row: SummaryRow)
    ensures row.trees == trees
    ensures row.mean.None? <==> xs == []
    ensures row.sd.None? <==> xs == []
    ensures xs != [] ==> SeqMin(xs) <= row.mean.value <= SeqMax(xs)
  {
    if xs == [] then SummaryRow(trees, None, None)
    else
      MeanWithin(xs);
      SummaryRow(trees, Some(Mean(xs)), Some(sqrt(Variance(xs))))
  }

  function Summary(candidates: seq<int>, table: seq<seq<real>>, sqrt: real -> real): (s: seq<SummaryRow>)
    requires |table| == |candidates|
    ensures |s| == |candidates|
  {
    seq(|candidates|, n requires 0 <= n < |candidates| => Summarise(candidates[n], table[n], sqrt))
  }

  function RunColumn(r: nat): string
  {
    "run" + NatToString(r)
  }

  function RunColumns(runs: nat): (c: seq<string>)
    ensures |c| == runs
  {
    seq(runs, r requires 0 <= r => RunColumn(r))
  }

  /** The per-run columns are named run0 to run{runs-1}, all different. */
  lemma RunColumnsDistinct(runs: nat)
    ensures forall r :: 0 <= r < runs ==>
              RunColumns(runs)[r][..3] == "run" && ParseDigits(RunColumns(runs)[r][3..]) == r
    ensures forall i, j :: 0 <= i < j < runs ==> RunColumns(runs)[i] != RunColumns(runs)[j]
  {
    forall r | 0 <= r < runs
      ensures RunColumns(runs)[r][..3] == "run" && ParseDigits(RunColumns(runs)[r][3..]) == r
    {
      assert RunColumns(runs)[r][3..] == NatToString(r);
      ParseNatToString(r);
    }
  }

  // ---------------------------------------------------------------------
  // The script
  // ---------------------------------------------------------------------

  datatype Search = Search(candidates: seq<int>, summary: seq<SummaryRow>, table: seq<seq<real>>, columns: seq<string>)

  /** A forest needs at least one tree: the first fit with a smaller count
      raises (lines 78-83). */
  predicate ValidSizes(c: seq<int>)
  {
    forall k :: 0 <= k < |c| ==> c[k] >= 1
  }

  /** With a positive step the counts only grow from `start`, so they are all
      valid exactly when there are none or `start` is at least 1. */
  lemma ValidSizesFromStart(start: int, end: int, step: int)
    requires step > 0
    ensures var c := Candidates(start, end, step).value;
            ValidSizes(c) <==> |c| == 0 || start >= 1
  {
    var c := Candidates(start, end, step).value;
    forall k | 0 <= k < |c|
      ensures c[k] >= start
    {
      assert c[k] == start + k * step;
      MultiplyBelow(0, k + 1, step);
    }
    if |c| > 0 {
      assert c[0] == start;
    }
  }

  /** The whole search: None for a zero step, or when some run has to fit a
      forest of fewer than one tree; otherwise the candidates, the summary
      rows, the out-of-bag table and its column names. */
  method SearchForestSize(start: int, end: int, step: int, runs: nat, score: (nat, nat) -> real, sqrt: real -> real)
    returns (r: Option<Search>)
    ensures r.None? <==> step == 0 || (runs > 0 && !ValidSizes(Candidates(start, end, step).value))
    ensures r.Some? ==>
              var c := Candidates(start, end, step).value;
              var t := Table(|c|, runs, score);
              r.value == Search(c, Summary(c, t, sqrt), t, RunColumns(runs))
  {
    var cand := Candidates(start, end, step);
    if cand.None? {
      return None;
    }
    var c := cand.value;
    if runs > 0 && !ValidSizes(c) {
      return None;
    }
    var oob, _ := FillTable(|c|, runs, score);
    var t := Rows(oob);
    assert t == Table(|c|, runs, score) by {
      forall n | 0 <= n < |c| ensures t[n] == Table(|c|, runs, score)[n] {
        assert Row(oob, n) == Table(|c|, runs, score)[n];
      }
    }
    r := Some(Search(c, Summary(c, t, sqrt), t, RunColumns(runs)));
  }
}
