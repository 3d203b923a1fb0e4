/**
 * The per-baseline time-bin state machine of `_impl`.
 *
 * For one baseline the scan walks the row-lookup cells in ascending time
 * index, skips absent cells, and feeds each present row to a small state
 * machine over (tbin, bin_count, bin_time_low, bin_u_low, bin_v_low).
 * The first row of a baseline opens bin 0; every later row is either
 * decorrelated from the open bin (the bin closes, tbin advances and the
 * row opens the next bin) or joins it (only bin_count grows).
 *
 * The decorrelation estimate sinc(dphi) is floating-point trigonometry; the
 * model takes it as a parameter `est` and keeps only its comparison with
 * the decorrelation threshold.
 */
module BinScan {

  /** The per-row values the scan reads: TIME, INTERVAL and the u, v of UVW. */
  datatype Sample = Sample(time: real, interval: real, u: real, v: real)

  /** The scan's locals: tbin, bin_count and the open bin's lower time, u and v. */
  datatype BinState = BinState(tbin: int, count: int, timeLow: real, uLow: real, vLow: real)

  /** sinc(dphi) of a row measured against the open bin. */
  type Estimator = (Sample, BinState) -> real

  /** What one present cell did: its time index, row, and the state around it. */
  datatype Visit = Visit(t: nat, row: nat, before: BinState, after: BinState)

  /** The state after a baseline's cells, and the rows visited on the way. */
  datatype Run = Run(state: BinState, visits: seq<Visit>)

  /** The state each baseline starts from. */
  const Initial := BinState(0, 0, 0.0, 0.0, 0.0)

  /** The lower time edge of a row: its centre minus half its interval. */
  function LowerTime(x: Sample): (low: real)
    ensures x.interval >= 0.0 ==> low <= x.time
    ensures low + x.interval * 0.5 == x.time
  {
    x.time - x.interval * 0.5
  }

  /** The open bin's lower values are those of row x. */
  predicate LowerFrom(s: BinState, x: Sample) {
    s.timeLow == LowerTime(x) && s.uLow == x.u && s.vLow == x.v
  }

  /** Row x closes the open bin: the bin is non-empty and x is decorrelated from it. */
  predicate Closes(s: BinState, x: Sample, est: Estimator, decorrelation: real)
    ensures Closes(s, x, est, decorrelation) ==> s.count != 0
  {
    s.count != 0 && est(x, s) < decorrelation
  }

  /** Reference transition of the state machine on one present row. */
  function Step(s: BinState, x: Sample, est: Estimator, decorrelation: real): (next: BinState)
    ensures next.tbin == s.tbin + (if Closes(s, x, est, decorrelation) then 1 else 0)
    ensures s.count >= 0 ==> next.count >= 1
    ensures s.count == 0 || Closes(s, x, est, decorrelation) ==> next.count == 1 && LowerFrom(next, x)
    ensures s.count != 0 && !Closes(s, x, est, decorrelation) ==>
      next.count == s.count + 1 && next.timeLow == s.timeLow && next.uLow == s.uLow && next.vLow == s.vLow
  {
    if s.count == 0 then BinState(s.tbin, 1, LowerTime(x), x.u, x.v)
    else if est(x, s) < decorrelation then BinState(s.tbin + 1, 1, LowerTime(x), x.u, x.v)
    else s.(count := s.count + 1)
  }

  /** Every cell is Absent (-1) or a row index. */
  predicate CellsWithin(cells: seq<int>, nrow: nat) {
    forall t :: 0 <= t < |cells| ==> -1 <= cells[t] < nrow
  }

  /** Reference definition of one baseline's scan over its cells in time order. */
  function Scan(cells: seq<int>, samples: seq<Sample>, est: Estimator, decorrelation: real): (run: Run)
    requires CellsWithin(cells, |samples|)
    ensures forall i :: 0 <= i < |run.visits| ==> run.visits[i].t < |cells| && run.visits[i].row < |samples|
    decreases |cells|
  {
    if cells == [] then Run(Initial, [])
    else
      var t := |cells| - 1;
      var prior := Scan(cells[..t], samples, est, decorrelation);
      var r := cells[t];
      if r == -1 then prior
      else
        var next := Step(prior.state, samples[r], est, decorrelation);
        Run(next, prior.visits + [Visit(t, r, prior.state, next)])
  }

  /** The visits of a baseline follow one another through Step, starting from Initial. */
  ghost predicate Chained(vs: seq<Visit>, samples: seq<Sample>, est: Estimator, decorrelation: real) {
    && (|vs| > 0 ==> vs[0].before == Initial)
    && (forall i :: 0 <= i < |vs| ==>
          vs[i].row < |samples| && vs[i].after == Step(vs[i].before, samples[vs[i].row], est, decorrelation))
    && (forall i :: 0 < i < |vs| ==> vs[i].before == vs[i - 1].after)
  }

  /** The number of visits whose row failed the decorrelation test. */
  ghost function Closings(vs: seq<Visit>, samples: seq<Sample>, est: Estimator, decorrelation: real): nat
    requires forall i :: 0 <= i < |vs| ==> vs[i].row < |samples|
  {
    if vs == [] then 0
    else
      var n := |vs| - 1;
      Closings(vs[..n], samples, est, decorrelation)
        + (if Closes(vs[n].before, samples[vs[n].row], est, decorrelation) then 1 else 0)
  }

  /** One more cell adds a visit exactly when it is present. */
  lemma ScanExtend(cells: seq<int>, samples: seq<Sample>, est: Estimator, decorrelation: real)
    requires CellsWithin(cells, |samples|) && cells != []
    ensures var t := |cells| - 1;
      && CellsWithin(cells[..t], |samples|)
      && var prior := Scan(cells[..t], samples, est, decorrelation);
         Scan(cells, samples, est, decorrelation).visits
           == if cells[t] == -1 then prior.visits
              else prior.visits + [Visit(t, cells[t], prior.state, Step(prior.state, samples[cells[t]], est, decorrelation))]
  {
  }

  /**
   * The scan visits exactly the present cells, in strictly ascending time
   * order, each with the row its cell holds.
   */
  lemma {:induction false} VisitsArePresentCells(cells: seq<int>, samples: seq<Sample>, est: Estimator, decorrelation: real)
    requires CellsWithin(cells, |samples|)
    ensures var vs := Scan(cells, samples, est, decorrelation).visits;
      && (forall i :: 0 <= i < |vs| ==> cells[vs[i].t] == vs[i].row)
      && (forall i, j :: 0 <= i < j < |vs| ==> vs[i].t < vs[j].t)
      && (forall t :: 0 <= t < |cells| && cells[t] != -1 ==> exists i :: 0 <= i < |vs| && vs[i].t == t)
    decreases |cells|
  {
    if cells != [] {
      var t := |cells| - 1;
      var pre := cells[..t];
      ScanExtend(cells, samples, est, decorrelation);
      VisitsArePresentCells(pre, samples, est, decorrelation);
      var prior := Scan(pre, samples, est, decorrelation).visits;
      var vs := Scan(cells, samples, est, decorrelation).visits;
      PresentCellsStep(cells, pre, prior, vs);
    }
  }

  lemma PresentCellsStep(cells: seq<int>, pre: seq<int>, prior: seq<Visit>, vs: seq<Visit>)
    requires cells != [] && pre == cells[..|cells| - 1]
    requires cells[|cells| - 1] == -1 ==> vs == prior
    requires cells[|cells| - 1] != -1 ==>
      && |vs| == |prior| + 1 && vs[..|prior|] == prior
      && vs[|prior|].t == |cells| - 1 && vs[|prior|].row == cells[|cells| - 1]
    requires forall i :: 0 <= i < |prior| ==> prior[i].t < |pre| && pre[prior[i].t] == prior[i].row
    requires forall i, j :: 0 <= i < j < |prior| ==> prior[i].t < prior[j].t
    requires forall t :: 0 <= t < |pre| && pre[t] != -1 ==> exists i :: 0 <= i < |prior| && prior[i].t == t
    ensures forall i :: 0 <= i < |vs| ==> vs[i].t < |cells| && cells[vs[i].t] == vs[i].row
    ensures forall i, j :: 0 <= i < j < |vs| ==> vs[i].t < vs[j].t
    ensures forall t :: 0 <= t < |cells| && cells[t] != -1 ==> exists i :: 0 <= i < |vs| && vs[i].t == t
  {
    var t := |cells| - 1;
    forall t' | 0 <= t' < |cells| && cells[t'] != -1
      ensures exists i :: 0 <= i < |vs| && vs[i].t == t'
    {
      if t' < t {
        assert pre[t'] == cells[t'];
        var i :| 0 <= i < |prior| && prior[i].t == t';
        assert vs[i] == prior[i];
      } else {
        assert vs[|prior|].t == t';
      }
    }
  }

  /**
   * The visits chain through Step from Initial: skipped cells leave the
   * state alone, and the final state is that of the last visited row.
   */
  lemma {:induction false} ScanIsChained(cells: seq<int>, samples: seq<Sample>, est: Estimator, decorrelation: real)
    requires CellsWithin(cells, |samples|)
    ensures var run := Scan(cells, samples, est, decorrelation);
      && Chained(run.visits, samples, est, decorrelation)
      && run.state == (if run.visits == [] then Initial else run.visits[|run.visits| - 1].after)
    decreases |cells|
  {
    if cells != [] {
      ScanIsChained(cells[..|cells| - 1], samples, est, decorrelation);
    }
  }

  /** Along a chain, bin_count stays positive and bounds tbin; tbin counts the closings. */
  lemma {:induction false} ChainCounters(vs: seq<Visit>, samples: seq<Sample>, est: Estimator, decorrelation: real)
    requires Chained(vs, samples, est, decorrelation)
    ensures forall i :: 0 <= i < |vs| ==> 1 <= vs[i].after.count && 0 <= vs[i].after.tbin
    ensures |vs| > 0 ==> vs[|vs| - 1].after.tbin + vs[|vs| - 1].after.count <= |vs|
    ensures |vs| > 0 ==> vs[|vs| - 1].after.tbin == Closings(vs, samples, est, decorrelation)
    decreases |vs|
  {
    if |vs| > 0 {
      var n := |vs| - 1;
      var pre := vs[..n];
      assert Chained(pre, samples, est, decorrelation);
      ChainCounters(pre, samples, est, decorrelation);
    }
  }

  /**
   * The end-of-baseline counters: bin_count is zero exactly when no row was
   * present, tbin is the number of decorrelated rows, and tbin is at most
   * the number of present rows minus one.
   */
  lemma BaselineCounters(cells: seq<int>, samples: seq<Sample>, est: Estimator, decorrelation: real)
    requires CellsWithin(cells, |samples|)
    ensures var run := Scan(cells, samples, est, decorrelation);
      && (run.state.count == 0 <==> run.visits == [])
      && 0 <= run.state.tbin
      && run.state.tbin + run.state.count <= |run.visits|
      && run.state.tbin == Closings(run.visits, samples, est, decorrelation)
      && (run.visits != [] ==> run.state.tbin <= |run.visits| - 1)
  {
    ScanIsChained(cells, samples, est, decorrelation);
    ChainCounters(Scan(cells, samples, est, decorrelation).visits, samples, est, decorrelation);
  }

  /** Along a chain tbin never decreases and grows by at most one per row. */
  lemma {:induction false} ChainMonotone(vs: seq<Visit>, samples: seq<Sample>, est: Estimator, decorrelation: real, i: nat, j: nat)
    requires Chained(vs, samples, est, decorrelation)
    requires i <= j < |vs|
    ensures vs[i].after.tbin <= vs[j].after.tbin <= vs[i].after.tbin + (j - i)
    decreases j - i
  {
    if i < j {
      ChainMonotone(vs, samples, est, decorrelation, i, j - 1);
      assert vs[j].before == vs[j - 1].after;
    }
  }

  /**
   * tbin along a baseline never decreases, rises by exactly one on a row
   * that fails the decorrelation test, and is otherwise unchanged; the first
   * row is in bin 0.
   */
  lemma TbinMonotone(cells: seq<int>, samples: seq<Sample>, est: Estimator, decorrelation: real)
    requires CellsWithin(cells, |samples|)
    ensures var vs := Scan(cells, samples, est, decorrelation).visits;
      && (vs != [] ==> vs[0].after.tbin == 0)
      && (forall i :: 0 <= i < |vs| ==>
            vs[i].after.tbin == vs[i].before.tbin
              + (if Closes(vs[i].before, samples[vs[i].row], est, decorrelation) then 1 else 0))
      && (forall i, j :: 0 <= i <= j < |vs| ==> vs[i].after.tbin <= vs[j].after.tbin <= vs[i].after.tbin + (j - i))
  {
    ScanIsChained(cells, samples, est, decorrelation);
    var vs := Scan(cells, samples, est, decorrelation).visits;
    forall i, j | 0 <= i <= j < |vs|
      ensures vs[i].after.tbin <= vs[j].after.tbin <= vs[i].after.tbin + (j - i)
    {
      ChainMonotone(vs, samples, est, decorrelation, i, j);
    }
  }

  /**
   * Visit i lies in a bin that is a contiguous run of visits opened at
   * visit o = i + 1 - bin_count: the bin's lower values are those of the
   * opening row, every visit from o to i carries the same tbin, and the
   * bin before it (if any) has the previous tbin.
   */
  ghost predicate InRunOpenedAt(vs: seq<Visit>, samples: seq<Sample>, i: nat)
    requires i < |vs| && forall k :: 0 <= k < |vs| ==> vs[k].row < |samples|
  {
    var c := vs[i].after.count;
    && 1 <= c <= i + 1
    && LowerFrom(vs[i].after, samples[vs[i + 1 - c].row])
    && vs[i + 1 - c].after.count == 1
    && (forall j :: i + 1 - c <= j <= i ==> vs[j].after.tbin == vs[i].after.tbin)
    && (i + 1 - c == 0 ==> vs[i].after.tbin == 0)
    && (i + 1 - c > 0 ==> vs[i - c].after.tbin + 1 == vs[i].after.tbin)
  }

  lemma {:induction false} ChainRuns(vs: seq<Visit>, samples: seq<Sample>, est: Estimator, decorrelation: real, i: nat)
    requires Chained(vs, samples, est, decorrelation)
    requires i < |vs|
    ensures InRunOpenedAt(vs, samples, i)
    decreases i
  {
    ChainCounters(vs, samples, est, decorrelation);
    if i > 0 {
      ChainRuns(vs, samples, est, decorrelation, i - 1);
      assert vs[i].before == vs[i - 1].after;
    }
  }

  /**
   * Each visited row belongs to the bin opened by its first row:
   * bin_count is the length of the current run, the lower time/u/v are
   * the opening row's own values, and bins are consecutive runs.
   */
  lemma BinsAreRuns(cells: seq<int>, samples: seq<Sample>, est: Estimator, decorrelation: real)
    requires CellsWithin(cells, |samples|)
    ensures var vs := Scan(cells, samples, est, decorrelation).visits;
      forall i :: 0 <= i < |vs| ==> InRunOpenedAt(vs, samples, i)
  {
    ScanIsChained(cells, samples, est, decorrelation);
    var vs := Scan(cells, samples, est, decorrelation).visits;
    forall i | 0 <= i < |vs|
      ensures InRunOpenedAt(vs, samples, i)
    {
      ChainRuns(vs, samples, est, decorrelation, i);
    }
  }

  lemma {:induction false} ChainNoCloses(vs: seq<Visit>, samples: seq<Sample>, est: Estimator, decorrelation: real, i: nat)
    requires Chained(vs, samples, est, decorrelation)
    requires forall k :: 0 <= k < |vs| ==> !Closes(vs[k].before, samples[vs[k].row], est, decorrelation)
    requires i < |vs|
    ensures vs[i].after.tbin == 0 && vs[i].after.count == i + 1
    decreases i
  {
    if i > 0 {
      ChainNoCloses(vs, samples, est, decorrelation, i - 1);
      assert vs[i].before == vs[i - 1].after;
    }
  }

  /**
   * When no visited row of a baseline fails the decorrelation test, all
   * present rows fall in bin 0 and bin_count counts them.
   */
  lemma SingleBinWithoutDecorrelation(cells: seq<int>, samples: seq<Sample>, est: Estimator, decorrelation: real)
    requires CellsWithin(cells, |samples|)
    requires var vs := Scan(cells, samples, est, decorrelation).visits;
      forall i :: 0 <= i < |vs| ==> !Closes(vs[i].before, samples[vs[i].row], est, decorrelation)
    ensures var vs := Scan(cells, samples, est, decorrelation).visits;
      forall i :: 0 <= i < |vs| ==> vs[i].after.tbin == 0 && vs[i].after.count == i + 1
  {
    ScanIsChained(cells, samples, est, decorrelation);
    var vs := Scan(cells, samples, est, decorrelation).visits;
    forall i | 0 <= i < |vs|
      ensures vs[i].after.tbin == 0 && vs[i].after.count == i + 1
    {
      ChainNoCloses(vs, samples, est, decorrelation, i);
    }
  }

  /**
   * Constant u and v along a baseline: every row has zero drift against
   * its bin, the estimate is then 1.0 (sinc of a zero phase), and with a
   * threshold of at most 1.0 no row is decorrelated, so the whole
   * baseline is one bin.
   */
  lemma SingleBinForConstantUv(cells: seq<int>, samples: seq<Sample>, est: Estimator, decorrelation: real, u: real, v: real)
    requires CellsWithin(cells, |samples|)
    requires forall t :: 0 <= t < |cells| && cells[t] != -1 ==> samples[cells[t]].u == u && samples[cells[t]].v == v
    requires forall x: Sample, s: BinState :: x.u == s.uLow && x.v == s.vLow ==> est(x, s) == 1.0
    requires decorrelation <= 1.0
    ensures var vs := Scan(cells, samples, est, decorrelation).visits;
      forall i :: 0 <= i < |vs| ==> vs[i].after.tbin == 0 && vs[i].after.count == i + 1
  {
    var vs := Scan(cells, samples, est, decorrelation).visits;
    ScanIsChained(cells, samples, est, decorrelation);
    VisitsArePresentCells(cells, samples, est, decorrelation);
    BinsAreRuns(cells, samples, est, decorrelation);
    forall i | 0 <= i < |vs|
      ensures !Closes(vs[i].before, samples[vs[i].row], est, decorrelation)
    {
      if i > 0 {
        assert vs[i].before == vs[i - 1].after;
        assert InRunOpenedAt(vs, samples, i - 1);
        var o := i - vs[i - 1].after.count;
        assert samples[vs[o].row].u == u && samples[vs[o].row].v == v;
        assert samples[vs[i].row].u == u && samples[vs[i].row].v == v;
      }
    }
    SingleBinWithoutDecorrelation(cells, samples, est, decorrelation);
  }

  lemma {:induction false} ChainAllClose(vs: seq<Visit>, samples: seq<Sample>, est: Estimator, decorrelation: real, i: nat)
    requires Chained(vs, samples, est, decorrelation)
    requires forall k :: 0 <= k < |vs| && vs[k].before.count != 0 ==>
      est(samples[vs[k].row], vs[k].before) < decorrelation
    requires i < |vs|
    ensures vs[i].after.tbin == i && vs[i].after.count == 1
    decreases i
  {
    if i > 0 {
      ChainAllClose(vs, samples, est, decorrelation, i - 1);
      assert vs[i].before == vs[i - 1].after;
    }
  }

  /**
   * When every visited row after the first is decorrelated from its bin,
   * each present row gets a bin of its own.
   */
  lemma OwnBinUnderFullDecorrelation(cells: seq<int>, samples: seq<Sample>, est: Estimator, decorrelation: real)
    requires CellsWithin(cells, |samples|)
    requires var vs := Scan(cells, samples, est, decorrelation).visits;
      forall i :: 0 <= i < |vs| && vs[i].before.count != 0 ==> est(samples[vs[i].row], vs[i].before) < decorrelation
    ensures var vs := Scan(cells, samples, est, decorrelation).visits;
      forall i :: 0 <= i < |vs| ==> vs[i].after.tbin == i && vs[i].after.count == 1
  {
    ScanIsChained(cells, samples, est, decorrelation);
    var vs := Scan(cells, samples, est, decorrelation).visits;
    forall i | 0 <= i < |vs|
      ensures vs[i].after.tbin == i && vs[i].after.count == 1
    {
      ChainAllClose(vs, samples, est, decorrelation, i);
    }
  }

  /** The cells of baseline bl: row bl of the lookup table, in time order. */
  function Cells(table: array2<int>, bl: nat): (cells: seq<int>)
    reads table
    requires bl < table.Length0
    ensures |cells| == table.Length1
    ensures forall t :: 0 <= t < table.Length1 ==> cells[t] == table[bl, t]
  {
    seq(table.Length1, t reads table requires 0 <= t < table.Length1 => table[bl, t])
  }

  /**
   * The nested baseline / time loops: for each baseline, a fresh state,
   * then each present cell in ascending time either opens, closes and
   * reopens, or joins the current bin.
   */
  method ScanBaselines(table: array2<int>, samples: seq<Sample>, est: Estimator, decorrelation: real)
    returns (runs: seq<Run>)
    requires forall bl, t :: 0 <= bl < table.Length0 && 0 <= t < table.Length1 ==> -1 <= table[bl, t] < |samples|
    ensures |runs| == table.Length0
    ensures forall bl :: 0 <= bl < table.Length0 ==>
      CellsWithin(Cells(table, bl), |samples|) && runs[bl] == Scan(Cells(table, bl), samples, est, decorrelation)
  {
    runs := [];
    var bl := 0;
    while bl < table.Length0
      invariant 0 <= bl <= table.Length0
      invariant |runs| == bl
      invariant forall b :: 0 <= b < bl ==>
        CellsWithin(Cells(table, b), |samples|) && runs[b] == Scan(Cells(table, b), samples, est, decorrelation)
    {
      ghost var cells := Cells(table, bl);
      var state := Initial;
      var visits: seq<Visit> := [];
      var t := 0;
      while t < table.Length1
        invariant 0 <= t <= table.Length1
        invariant CellsWithin(cells[..t], |samples|)
        invariant Run(state, visits) == Scan(cells[..t], samples, est, decorrelation)
      {
        assert cells[..t + 1][..t] == cells[..t];
        var r := table[bl, t];
        if r != -1 {
          var x := samples[r];
          var before := state;
          if state.count == 0 {
            // first row of the baseline: record the bin's lower values
            state := state.(timeLow := LowerTime(x), uLow := x.u, vLow := x.v);
          } else if est(x, state) < decorrelation {
            // decorrelated: close the bin and open the next one at this row
            state := BinState(state.tbin + 1, 0, LowerTime(x), x.u, x.v);
          }
          state := state.(count := state.count + 1);
          visits := visits + [Visit(t, r, before, state)];
        }
        t := t + 1;
      }
      assert cells[..t] == cells;
      runs := runs + [Run(state, visits)];
      bl := bl + 1;
    }
  }
}
