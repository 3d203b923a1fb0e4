/**
 * The dense (baseline, time) -> row table that `_impl` builds before binning.
 *
 * Each row r carries a time index `timeInv[r]` and a baseline index
 * `blInv[r]` (the inverse indices produced by the unique-time and
 * unique-baseline helpers).  The table has one cell per (baseline, time)
 * pair, starts at -1 everywhere, and receives r in the cell its indices
 * address.  A cell addressed twice is the fatal duplicate-sample error.
 */
module RowLookup {

  /** The fatal errors of the mapping. */
  datatype BdaError = DuplicateSample  // ValueError("Duplicate (TIME, ANTENNA1, ANTENNA2)")

  datatype Result<T> = Ok(value: T) | Err(error: BdaError)

  /** The marker of a cell that no row occupies. */
  const Absent: int := -1

  /** The per-row indices agree in length and lie in [0, ntime) and [0, nbl). */
  predicate IndicesInRange(timeInv: seq<int>, blInv: seq<int>, ntime: nat, nbl: nat) {
    && |timeInv| == |blInv|
    && (forall r :: 0 <= r < |timeInv| ==> 0 <= timeInv[r] < ntime)
    && (forall r :: 0 <= r < |blInv| ==> 0 <= blInv[r] < nbl)
  }

  /** Row r sits at baseline bl and time index t. */
  predicate Addresses(timeInv: seq<int>, blInv: seq<int>, r: int, bl: int, t: int)
    requires |timeInv| == |blInv|
    requires 0 <= r < |timeInv|
  {
    blInv[r] == bl && timeInv[r] == t
  }

  /** No two distinct rows share a (baseline, time) cell. */
  predicate NoDuplicates(timeInv: seq<int>, blInv: seq<int>)
    requires |timeInv| == |blInv|
  {
    forall r1, r2 :: 0 <= r1 < r2 < |timeInv| ==> blInv[r1] != blInv[r2] || timeInv[r1] != timeInv[r2]
  }

  /**
   * Reference definition of one cell of the table: the highest row that
   * addresses (bl, t), or Absent when no row does.
   */
  function Cell(timeInv: seq<int>, blInv: seq<int>, bl: int, t: int): (r: int)
    requires |timeInv| == |blInv|
    ensures Absent <= r < |timeInv|
    ensures r != Absent ==> blInv[r] == bl && timeInv[r] == t
    ensures forall r' :: r < r' < |timeInv| ==> blInv[r'] != bl || timeInv[r'] != t
    decreases |timeInv|
  {
    var n := |timeInv|;
    if n == 0 then Absent
    else if blInv[n - 1] == bl && timeInv[n - 1] == t then n - 1
    else Cell(timeInv[..n - 1], blInv[..n - 1], bl, t)
  }

  /** Without duplicates, the cell a row addresses holds that row. */
  lemma RowInItsCell(timeInv: seq<int>, blInv: seq<int>, r: int)
    requires |timeInv| == |blInv| && NoDuplicates(timeInv, blInv)
    requires 0 <= r < |timeInv|
    ensures Cell(timeInv, blInv, blInv[r], timeInv[r]) == r
  {
  }

  /** The last row addressing a cell, once the prefix of r rows ends. */
  lemma CellExtend(timeInv: seq<int>, blInv: seq<int>, r: nat, bl: int, t: int)
    requires |timeInv| == |blInv| && r < |timeInv|
    ensures Cell(timeInv[..r + 1], blInv[..r + 1], bl, t)
         == if blInv[r] == bl && timeInv[r] == t then r else Cell(timeInv[..r], blInv[..r], bl, t)
  {
    assert timeInv[..r + 1][..r] == timeInv[..r];
    assert blInv[..r + 1][..r] == blInv[..r];
  }

  /**
   * The fill loop: allocate the nbl x ntime table at Absent, then store
   * each row in its cell, failing on a cell that is already occupied.
   */
  method BuildRowLookup(timeInv: seq<int>, blInv: seq<int>, ntime: nat, nbl: nat)
    returns (res: Result<array2<int>>)
    requires IndicesInRange(timeInv, blInv, ntime, nbl)
    ensures res.Err? <==> !NoDuplicates(timeInv, blInv)
    ensures res.Ok? ==> res.value.Length0 == nbl && res.value.Length1 == ntime
    ensures res.Ok? ==> forall bl, t :: 0 <= bl < nbl && 0 <= t < ntime ==>
      res.value[bl, t] == Cell(timeInv, blInv, bl, t)
    ensures res.Ok? ==> forall r :: 0 <= r < |timeInv| ==> res.value[blInv[r], timeInv[r]] == r
    ensures res.Ok? ==> forall bl, t :: 0 <= bl < nbl && 0 <= t < ntime && res.value[bl, t] == Absent ==>
      forall r :: 0 <= r < |timeInv| ==> !Addresses(timeInv, blInv, r, bl, t)
  {
    var table := new int[nbl, ntime]((_, _) => Absent);
    var r := 0;
    while r < |timeInv|
      invariant 0 <= r <= |timeInv|
      invariant table.Length0 == nbl && table.Length1 == ntime
      invariant NoDuplicates(timeInv[..r], blInv[..r])
      invariant forall bl, t :: 0 <= bl < nbl && 0 <= t < ntime ==>
        table[bl, t] == Cell(timeInv[..r], blInv[..r], bl, t)
    {
      var t := timeInv[r];
      var bl := blInv[r];
      if table[bl, t] != Absent {
        var earlier := table[bl, t];
        assert timeInv[..r][earlier] == timeInv[earlier] && blInv[..r][earlier] == blInv[earlier];
        assert blInv[earlier] == blInv[r] && timeInv[earlier] == timeInv[r];
        return Err(DuplicateSample);
      }
      forall r1 | 0 <= r1 < r
        ensures blInv[r1] != bl || timeInv[r1] != t
      {
        assert timeInv[..r][r1] == timeInv[r1] && blInv[..r][r1] == blInv[r1];
      }
      table[bl, t] := r;
      forall b, u | 0 <= b < nbl && 0 <= u < ntime
        ensures table[b, u] == Cell(timeInv[..r + 1], blInv[..r + 1], b, u)
      {
        CellExtend(timeInv, blInv, r, b, u);
      }
      r := r + 1;
    }
    assert timeInv[..r] == timeInv && blInv[..r] == blInv;
    forall r1 | 0 <= r1 < |timeInv|
      ensures table[blInv[r1], timeInv[r1]] == r1
    {
      RowInItsCell(timeInv, blInv, r1);
    }
    return Ok(table);
  }
}
