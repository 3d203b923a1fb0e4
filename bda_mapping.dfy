/**
 * `_impl` as a whole: build the row-lookup table, then run the
 * per-baseline bin scan over it.  The duplicate-sample error aborts the
 * mapping before any binning; on success every row is visited exactly
 * once, by the scan of its own baseline, at its own time index.
 */
module BdaMapping {
  import opened RowLookup
  import opened BinScan

  /** The cells of baseline bl in time order, as the filled table holds them. */
  function LookupCells(timeInv: seq<int>, blInv: seq<int>, ntime: nat, bl: int): (cells: seq<int>)
    requires |timeInv| == |blInv|
    ensures |cells| == ntime && CellsWithin(cells, |timeInv|)
  {
    seq(ntime, t => Cell(timeInv, blInv, bl, t))
  }

  /** The rows the scan of baseline bl visits, with the bin state around each. */
  function Trace(timeInv: seq<int>, blInv: seq<int>, ntime: nat, samples: seq<Sample>,
                 est: Estimator, decorrelation: real, bl: int): seq<Visit>
    requires |timeInv| == |blInv| == |samples|
  {
    Scan(LookupCells(timeInv, blInv, ntime, bl), samples, est, decorrelation).visits
  }

  /** Some visit of vs is of row r. */
  predicate VisitsRow(vs: seq<Visit>, r: int) {
    exists i :: 0 <= i < |vs| && vs[i].row == r
  }

  /**
   * The mapping: fail on a duplicate (baseline, time) cell, otherwise
   * return, per baseline, the scan of that baseline's row of the table.
   */
  method MapRows(timeInv: seq<int>, blInv: seq<int>, ntime: nat, nbl: nat, samples: seq<Sample>,
                 est: Estimator, decorrelation: real)
    returns (res: Result<seq<Run>>)
    requires IndicesInRange(timeInv, blInv, ntime, nbl) && |samples| == |timeInv|
    ensures res.Err? <==> !NoDuplicates(timeInv, blInv)
    ensures res.Ok? ==> |res.value| == nbl
    ensures res.Ok? ==> forall bl :: 0 <= bl < nbl ==>
      res.value[bl] == Scan(LookupCells(timeInv, blInv, ntime, bl), samples, est, decorrelation)
  {
    var built := BuildRowLookup(timeInv, blInv, ntime, nbl);
    if built.Err? {
      return Err(built.error);
    }
    var table := built.value;
    var runs := ScanBaselines(table, samples, est, decorrelation);
    forall bl | 0 <= bl < nbl
      ensures Cells(table, bl) == LookupCells(timeInv, blInv, ntime, bl)
    {
    }
    return Ok(runs);
  }

  /**
   * Without duplicates, every row is visited by the scan of its own
   * baseline at its own time index, and no row is visited twice: each row
   * belongs to exactly one time bin of its baseline.
   */
  lemma EveryRowVisitedOnce(timeInv: seq<int>, blInv: seq<int>, ntime: nat, nbl: nat, samples: seq<Sample>,
                            est: Estimator, decorrelation: real)
    requires IndicesInRange(timeInv, blInv, ntime, nbl) && |samples| == |timeInv|
    requires NoDuplicates(timeInv, blInv)
    ensures forall bl, i :: 0 <= bl < nbl && 0 <= i < |Trace(timeInv, blInv, ntime, samples, est, decorrelation, bl)| ==>
      var v := Trace(timeInv, blInv, ntime, samples, est, decorrelation, bl)[i];
      v.row < |timeInv| && blInv[v.row] == bl && timeInv[v.row] == v.t
    ensures forall r :: 0 <= r < |timeInv| ==>
      VisitsRow(Trace(timeInv, blInv, ntime, samples, est, decorrelation, blInv[r]), r)
    ensures forall bl, i, j :: 0 <= bl < nbl && 0 <= i < j < |Trace(timeInv, blInv, ntime, samples, est, decorrelation, bl)| ==>
      var vs := Trace(timeInv, blInv, ntime, samples, est, decorrelation, bl);
      vs[i].row != vs[j].row
  {
    forall bl | 0 <= bl < nbl
      ensures var vs := Trace(timeInv, blInv, ntime, samples, est, decorrelation, bl);
        && (forall i :: 0 <= i < |vs| ==> vs[i].row < |timeInv| && blInv[vs[i].row] == bl && timeInv[vs[i].row] == vs[i].t)
        && (forall i, j :: 0 <= i < j < |vs| ==> vs[i].row != vs[j].row)
    {
      BaselineVisitsOwnRows(timeInv, blInv, ntime, samples, est, decorrelation, bl);
    }
    forall r | 0 <= r < |timeInv|
      ensures VisitsRow(Trace(timeInv, blInv, ntime, samples, est, decorrelation, blInv[r]), r)
    {
      RowIsVisited(timeInv, blInv, ntime, nbl, samples, est, decorrelation, r);
    }
  }

  lemma BaselineVisitsOwnRows(timeInv: seq<int>, blInv: seq<int>, ntime: nat, samples: seq<Sample>,
                              est: Estimator, decorrelation: real, bl: int)
    requires |timeInv| == |blInv| == |samples|
    ensures var vs := Trace(timeInv, blInv, ntime, samples, est, decorrelation, bl);
      && (forall i :: 0 <= i < |vs| ==> vs[i].row < |timeInv| && blInv[vs[i].row] == bl && timeInv[vs[i].row] == vs[i].t)
      && (forall i, j :: 0 <= i < j < |vs| ==> vs[i].row != vs[j].row)
  {
    var cells := LookupCells(timeInv, blInv, ntime, bl);
    VisitsArePresentCells(cells, samples, est, decorrelation);
    var vs := Scan(cells, samples, est, decorrelation).visits;
    forall i | 0 <= i < |vs|
      ensures vs[i].row < |timeInv| && blInv[vs[i].row] == bl && timeInv[vs[i].row] == vs[i].t
    {
      assert cells[vs[i].t] == Cell(timeInv, blInv, bl, vs[i].t);
    }
  }

  lemma RowIsVisited(timeInv: seq<int>, blInv: seq<int>, ntime: nat, nbl: nat, samples: seq<Sample>,
                     est: Estimator, decorrelation: real, r: int)
    requires IndicesInRange(timeInv, blInv, ntime, nbl) && |samples| == |timeInv|
    requires NoDuplicates(timeInv, blInv)
    requires 0 <= r < |timeInv|
    ensures VisitsRow(Trace(timeInv, blInv, ntime, samples, est, decorrelation, blInv[r]), r)
  {
    var cells := LookupCells(timeInv, blInv, ntime, blInv[r]);
    RowInItsCell(timeInv, blInv, r);
    assert cells[timeInv[r]] == r;
    VisitsArePresentCells(cells, samples, est, decorrelation);
    var vs := Scan(cells, samples, est, decorrelation).visits;
    assert vs == Trace(timeInv, blInv, ntime, samples, est, decorrelation, blInv[r]);
    var i :| 0 <= i < |vs| && vs[i].t == timeInv[r];
    assert vs[i].row == r;
  }
}
