# Baseline-dependent averaging: row lookup and time-bin scan

This project models the discrete core of `_impl` in
`africanus/averaging/bda_mapping.py`, the baseline-dependent averaging
(BDA) mapper. The model has three modules, one per stage of the function.

- `RowLookup` (`row_lookup.dfy`) is the fill loop. Every row has a time
  index and a baseline index. `BuildRowLookup` allocates a dense
  `nbl x ntime` table (`array2<int>`) with every cell at -1. It then stores
  each row in the cell that the row's two indices address. A cell that is
  already occupied is the duplicate `(TIME, ANTENNA1, ANTENNA2)` error,
  returned as `Err(DuplicateSample)`. `Cell` is an independent reference
  definition of a single cell: the highest row that addresses it, or -1.
- `BinScan` (`bin_scan.dfy`) is the per-baseline state machine.
  `ScanBaselines` holds the nested baseline/time loops. For each baseline it
  starts a fresh `BinState` (fields `tbin`, `bin_count`, and the bin's lower
  time, u and v). It skips absent cells. On each present row it:
  - records the lower values, if this is the first row of the baseline;
  - closes the bin otherwise, if the row is decorrelated: `tbin + 1`, and
    the lower values reset to this row;
  - otherwise lets the row join;
  - then increments `bin_count` in every case.

  `Scan` and `Step` are the reference definitions the method is proved
  against. The lemmas state the scan's invariants over the resulting `Visit`
  trace.
- `BdaMapping` (`bda_mapping.dfy`) puts the two stages together
  (`MapRows`). It proves that, once the duplicate check passes, every row
  is visited exactly once, by the scan of its own baseline, at its own time
  index.

The decorrelation estimate `sinc(dphi)` is floating-point trigonometry, so
the model takes it as a parameter `est: (Sample, BinState) -> real`. What
the model keeps is the comparison at line 224: a row closes the bin when
`est(row, state) < decorrelation`. A row whose estimate equals the
threshold therefore joins the bin. `_impl` returns nothing. To state its properties, the
model returns the filled table and, per baseline, the trace of visited rows
with the bin state before and after each row.

## Model

| member | source | states |
|---|---|---|
| `RowLookup.Cell` | africanus/averaging/bda_mapping.py:178-188 | The settled value of a cell is -1 or a row index. A row index in a cell addresses that cell. No later row addresses it. A cell is -1 exactly when no row addresses it. |
| `RowLookup.RowInItsCell` | africanus/averaging/bda_mapping.py:181-188 | If no two rows share a cell, the cell each row addresses holds that row. |
| `RowLookup.BuildRowLookup` | africanus/averaging/bda_mapping.py:178-188 | It fails with the duplicate error exactly when two distinct rows share a `(bl, t)` pair. On success: the table is `nbl x ntime`; each cell equals `Cell`; `table[bl_inv[r], time_inv[r]] == r` for every row; a cell that stays -1 is addressed by no row. |
| `BinScan.LowerTime` | africanus/averaging/bda_mapping.py:204-209 | A row's lower time edge is its time minus half its interval, so adding half the interval gives the time back; for a non-negative interval it is not later than the row's time. |
| `BinScan.Closes` | africanus/averaging/bda_mapping.py:208-224 | A row closes the bin only when the bin already holds a row and the estimate is below the threshold, so the first row of a baseline never closes a bin. |
| `BinScan.Step` | africanus/averaging/bda_mapping.py:204-259 | One present row: `tbin` rises by 1 exactly when the row closes the bin, and is unchanged otherwise. `bin_count` is at least 1 afterwards. An opening or closing row leaves `bin_count == 1` and the bin's lower values equal to its own. A joining row leaves the lower values unchanged and adds 1 to `bin_count`. |
| `BinScan.Scan` | africanus/averaging/bda_mapping.py:190-259 | Reference definition of one baseline's scan. Every visit's time index lies within the baseline's cells, and its row is a valid row. |
| `BinScan.ScanBaselines` | africanus/averaging/bda_mapping.py:190-259 | The nested loops return one run per baseline. Each run equals `Scan` of that baseline's row of the table, started from the initial state. |
| `BinScan.VisitsArePresentCells` | africanus/averaging/bda_mapping.py:198-202 | The scan visits time indices in strictly ascending order. Each visit carries the row its cell holds. Every cell other than -1 is visited, so absent cells are exactly the ones skipped. |
| `BinScan.ScanIsChained` | africanus/averaging/bda_mapping.py:190-202 | The first visited row sees the initial state (`tbin == 0`, `bin_count == 0`). Each later row sees exactly the state the previous visited row left, so skipped cells change nothing. Each row's new state is `Step` of the old one. The baseline ends in the last row's state. |
| `BinScan.BaselineCounters` | africanus/averaging/bda_mapping.py:191-259 | At the end of a baseline: `bin_count` is 0 exactly when no row was present; `tbin` equals the number of rows that failed the decorrelation test; `tbin + bin_count` is at most the number of present rows, so `tbin` is at most that number minus one. |
| `BinScan.TbinMonotone` | africanus/averaging/bda_mapping.py:224-226 | The first row is in bin 0. `tbin` rises by exactly 1 on a row that fails the decorrelation test and is unchanged otherwise. `tbin` never decreases along a baseline and grows by at most 1 per row. |
| `BinScan.BinsAreRuns` | africanus/averaging/bda_mapping.py:208-259 | After every row, `bin_count >= 1`. `bin_count` is the length of the current run of rows sharing one `tbin`. The run's opening row left `bin_count == 1`, whether it was the baseline's first row or a bin-closing row. The bin's lower time, u and v are the opening row's own values, and joining rows leave them unchanged. The run before it ends with the previous `tbin`. |
| `BinScan.SingleBinWithoutDecorrelation` | africanus/averaging/bda_mapping.py:224-259 | If no visited row of a baseline fails the decorrelation test, every present row is in bin 0, and the k-th row leaves `bin_count == k + 1`. |
| `BinScan.SingleBinForConstantUv` | africanus/averaging/bda_mapping.py:215-259 | If every present row of a baseline has the same u and v, and the estimate is 1.0 whenever a row has no drift against its bin (sinc of a zero phase, line 220), then with a threshold of at most 1.0 the whole baseline is one bin: every row is in bin 0 and the k-th row leaves `bin_count == k + 1`. |
| `BinScan.OwnBinUnderFullDecorrelation` | africanus/averaging/bda_mapping.py:224-231 | If every visited row after the first is decorrelated from its bin, the k-th present row of a baseline is in bin k and leaves `bin_count == 1`. |
| `BdaMapping.MapRows` | africanus/averaging/bda_mapping.py:167-259 | The model's only error is the duplicate cell, and the mapping fails exactly then. Otherwise it returns `nbl` runs, each the scan of that baseline's cells of the filled table. |
| `BdaMapping.EveryRowVisitedOnce` | africanus/averaging/bda_mapping.py:181-202 | If there are no duplicates: every visited row belongs to the scanned baseline at the visited time index; every row is visited by its own baseline's scan; no baseline visits a row twice. |

## Left out

- BdaMapping.MapRows: the error paths other than the duplicate cell are not modelled. These are a `ZeroDivisionError` when `dt` is zero (lines 216-217), or when the Newton iterate reaches zero (line 244). A Newton loop that never ends (line 242) is not modelled either. The model's only error is the duplicate cell.
- `duv_dt` and `row_mapper` (bda_mapping.py:35-164): these are astropy sidereal-time and coordinate calls plus floating-point trigonometry, with no discrete logic.
- The value of the decorrelation estimate (lines 169, 215-220), i.e. `l = m = sqrt(lm_max/2)`, `dt`, `du_dt`, `dv_dt`, `dphi` and `sinc(dphi)`, is a parameter `est`. The default `lm_max = 1` lives inside it. A `dt` of zero, which would raise a division error in the source, is not modelled. The threshold `decorrelation` (default 0.98) is a parameter.
- The join branch's phase and Newton–Raphson loop (lines 233-256) are left out. They only feed the diagnostic `print` and change no scan state. Their possible non-termination, or division by zero when the iterate reaches 0, is not modelled.
- `unique_time` and `unique_baselines` (lines 11, 170-171) are not part of this model. Their outputs `time_inv` and `bl_inv` are inputs, with values in `[0, ntime)` and `[0, nbl)`. `ntime` and `nbl` are also inputs.
- The `print` tracing (lines 225, 256), the unused `sentinel` (line 176) and `bin_flag_count` (lines 193, 231) are diagnostics or dead state.
- `atemkeng_mapper` (lines 262-263) is a one-line wrapper.
- Machine widths: `row_lookup` is int32, and `tbin` and `bin_count` are `numba.int32`. The model uses unbounded integers, so wrap-around beyond 2^31 - 1 rows is not captured.
- `BinScan.LowerTime` is `time - interval * 0.5` computed in exact reals, not in IEEE doubles. Time, interval, u and v are only copied and compared through `est`, so rounding would change only the values stored, not the branching the model proves.
- The w coordinate, channel binning and frequency-width derivation are not modelled, because the code contains none of them. The code reads only `uvw[r, 0]` and `uvw[r, 1]`.
- The code never flushes the last open bin at the end of a baseline. The model does not add a flush either: a baseline's last bin is simply the final state of its run.
- `africanus/gridding/perleypolyhedron/gridder.py` is not part of this model. It is floating-point gridding that dispatches to policy modules whose source is not available.
