/**
 * Cell-wise extreme-value fitting of one tile of the ensemble, and the
 * bootstrap estimate of its confidence bounds.
 *
 * The ensemble of a tile is a three-dimensional array Vr[n, i, j]:
 * realization n, row i, column j. The GEV fitter (estimate_EVD, an L-moments
 * fit that is not part of this model) is a function parameter bound by
 * FitterContract; random.choice is replaced by an explicit chooser that
 * names, for every cell, resample and draw, the index it picks.
 */
module CellFit {
  import opened Numeric

  /** The missing-data sentinel written to every cell without a fit. */
  const NoData: real := -9999.0

  /** Number of bootstrap resamples per cell. */
  const Resamples: nat := 200

  /** The fitter's settings: return periods in years, minimum record count, years per simulation. */
  datatype Config = Config(years: seq<real>, minRecords: nat, yrsPerSim: real)

  /** What estimate_EVD returns: one wind speed per return period, and location, scale and shape. */
  datatype Fit = Fit(w: seq<real>, loc: real, scale: real, shp: real)

  /** estimate_EVD(sample, years, nodata, minRecords, yrsPerSim), with nodata fixed to NoData. */
  type Fitter = (seq<real>, Config) -> Fit

  /** random.choice inside the bootstrap: choose(i, j, n, m) is the index drawn for cell (i, j), resample n, draw m. */
  type Chooser = (nat, nat, nat, nat) -> nat

  /** The all-sentinel fit of a cell that is degenerate or has too few records. */
  function Sentinel(cfg: Config): (r: Fit)
    ensures |r.w| == |cfg.years|
    ensures forall y :: 0 <= y < |r.w| ==> r.w[y] == NoData
    ensures r.loc == NoData && r.scale == NoData && r.shp == NoData
  {
    Fit(seq(|cfg.years|, _ => NoData), NoData, NoData, NoData)
  }

  /**
   * What the model assumes of estimate_EVD: one speed per return period,
   * and the sentinel everywhere when fewer than minRecords samples exceed zero.
   */
  ghost predicate FitterContract(fit: Fitter, cfg: Config) {
    forall s :: |fit(s, cfg).w| == |cfg.years|
             && (CountPositive(s) < cfg.minRecords ==> fit(s, cfg) == Sentinel(cfg))
  }

  /** Draws are indices into a column of nsim values. */
  ghost predicate ChooserInRange(choose: Chooser, nsim: nat) {
    forall i, j, n, m :: choose(i, j, n, m) < nsim
  }

  // ----- the per-cell specification -----

  /** The loop body of _calculate for one already sorted column. */
  function FitSorted(s: seq<real>, cfg: Config, fit: Fitter): (r: Fit)
    requires |s| > 0
    ensures FitterContract(fit, cfg) ==> |r.w| == |cfg.years|
  {
    if MaxOf(s) > 0.0 then fit(s, cfg) else Sentinel(cfg)
  }

  /** The fit of one cell from its ensemble as loaded: sorted ascending, then fitted unless degenerate. */
  function CellResult(col: seq<real>, cfg: Config, fit: Fitter): (r: Fit)
    requires |col| > 0
    ensures FitterContract(fit, cfg) ==> |r.w| == |cfg.years|
  {
    FitSorted(Sort(col), cfg, fit)
  }

  /** A cell whose ensemble maximum is not positive keeps the sentinel in every output. */
  lemma DegenerateCell(col: seq<real>, cfg: Config, fit: Fitter)
    requires |col| > 0 && MaxOf(col) <= 0.0
    ensures CellResult(col, cfg, fit) == Sentinel(cfg)
  {
    SortKeepsMax(col);
  }

  /** An all-zero (or all non-positive) ensemble yields the sentinel. */
  lemma NoStormCell(col: seq<real>, cfg: Config, fit: Fitter)
    requires |col| > 0 && forall k :: 0 <= k < |col| ==> col[k] <= 0.0
    ensures CellResult(col, cfg, fit) == Sentinel(cfg)
  {
    DegenerateCell(col, cfg, fit);
  }

  /** Any other cell receives exactly the fitter's result on the sorted ensemble. */
  lemma FittedCell(col: seq<real>, cfg: Config, fit: Fitter)
    requires |col| > 0 && MaxOf(col) > 0.0
    ensures CellResult(col, cfg, fit) == fit(Sort(col), cfg)
  {
    SortKeepsMax(col);
  }

  /** Fewer than minRecords positive values give the sentinel even when the maximum is positive. */
  lemma TooFewRecords(col: seq<real>, cfg: Config, fit: Fitter)
    requires |col| > 0 && FitterContract(fit, cfg) && CountPositive(col) < cfg.minRecords
    ensures CellResult(col, cfg, fit) == Sentinel(cfg)
  {
    SortKeepsCountPositive(col);
  }

  /** Every cell result carries one wind speed per return period. */
  lemma CellResultShape(col: seq<real>, cfg: Config, fit: Fitter)
    requires |col| > 0 && FitterContract(fit, cfg)
    ensures |CellResult(col, cfg, fit).w| == |cfg.years|
  {
  }

  // ----- the bootstrap specification -----

  /** One resample with replacement: [col[choose(i, j, n, m)] for m in range(len(col))]. */
  function Resample(col: seq<real>, choose: Chooser, i: nat, j: nat, n: nat): (r: seq<real>)
    requires ChooserInRange(choose, |col|)
    ensures |r| == |col|
    ensures forall m :: 0 <= m < |r| ==> r[m] in col
  {
    seq(|col|, m requires 0 <= m < |col| => col[choose(i, j, n, m)])
  }

  /** The return-period speeds fitted to resample n (column n of the scratch matrix w). */
  function Estimate(col: seq<real>, cfg: Config, fit: Fitter, choose: Chooser, i: nat, j: nat, n: nat): (r: seq<real>)
    requires ChooserInRange(choose, |col|)
    ensures FitterContract(fit, cfg) ==> |r| == |cfg.years|
    ensures FitterContract(fit, cfg) && CountPositive(Resample(col, choose, i, j, n)) < cfg.minRecords ==>
              r == Sentinel(cfg).w
  {
    SortKeepsCountPositive(Resample(col, choose, i, j, n));
    fit(Sort(Resample(col, choose, i, j, n)), cfg).w
  }

  /** Row y of w: the estimates of return period y over all resamples. */
  function BootRow(col: seq<real>, cfg: Config, fit: Fitter, choose: Chooser, i: nat, j: nat, y: nat): (r: seq<real>)
    requires ChooserInRange(choose, |col|) && FitterContract(fit, cfg) && y < |cfg.years|
    ensures |r| == Resamples
  {
    seq(Resamples, n requires 0 <= n < Resamples => Estimate(col, cfg, fit, choose, i, j, n)[y])
  }

  /** Lower (5th percentile) and upper (95th percentile) bounds of one cell, per return period. */
  datatype Bounds = Bounds(lo: seq<real>, hi: seq<real>)

  function BootBounds(col: seq<real>, cfg: Config, fit: Fitter, choose: Chooser, i: nat, j: nat): (b: Bounds)
    requires ChooserInRange(choose, |col|) && FitterContract(fit, cfg)
    ensures |b.lo| == |b.hi| == |cfg.years|
  {
    Bounds(seq(|cfg.years|, y requires 0 <= y < |cfg.years| => Score(BootRow(col, cfg, fit, choose, i, j, y), 5.0)),
           seq(|cfg.years|, y requires 0 <= y < |cfg.years| => Score(BootRow(col, cfg, fit, choose, i, j, y), 95.0)))
  }

  /** The confidence bounds of cell (i, j): bootstrapped when the cell is valid, the sentinel otherwise. */
  function CIResult(col: seq<real>, cfg: Config, fit: Fitter, choose: Chooser, i: nat, j: nat): (b: Bounds)
    requires |col| > 0 && ChooserInRange(choose, |col|) && FitterContract(fit, cfg)
    ensures |b.lo| == |b.hi| == |cfg.years|
  {
    if MaxOf(col) > 0.0 then BootBounds(col, cfg, fit, choose, i, j)
    else Bounds(Sentinel(cfg).w, Sentinel(cfg).w)
  }

  /** For every valid cell and return period the lower bound does not exceed the upper bound. */
  lemma BoundsOrdered(col: seq<real>, cfg: Config, fit: Fitter, choose: Chooser, i: nat, j: nat, y: nat)
    requires |col| > 0 && ChooserInRange(choose, |col|) && FitterContract(fit, cfg)
    requires y < |cfg.years|
    ensures var b := CIResult(col, cfg, fit, choose, i, j);
            |b.lo| == |b.hi| == |cfg.years| && b.lo[y] <= b.hi[y]
  {
    if MaxOf(col) > 0.0 {
      ScoreMonotone(BootRow(col, cfg, fit, choose, i, j, y), 5.0, 95.0);
    }
  }


  /** A cell whose ensemble maximum is not positive keeps the sentinel in both bounds. */
  lemma DegenerateBounds(col: seq<real>, cfg: Config, fit: Fitter, choose: Chooser, i: nat, j: nat)
    requires |col| > 0 && ChooserInRange(choose, |col|) && FitterContract(fit, cfg)
    requires MaxOf(col) <= 0.0
    ensures CIResult(col, cfg, fit, choose, i, j) == Bounds(Sentinel(cfg).w, Sentinel(cfg).w)
  {
  }

  /** Reading a percentile off the sorted row gives the percentile of the row. */
  lemma ScoreOfSortedRow(row: seq<real>, per: real)
    requires |row| > 0 && 0.0 <= per <= 100.0
    ensures Score(Sort(row), per) == Score(row, per)
  {
    SortSorted(Sort(row));
  }

  // ----- arrays -----

  /** Vr[:, i, j]: the ensemble of one cell. */
  function Column(a: array3<real>, i: nat, j: nat): (r: seq<real>)
    reads a
    requires i < a.Length1 && j < a.Length2
    ensures |r| == a.Length0
    ensures forall n :: 0 <= n < a.Length0 ==> r[n] == a[n, i, j]
  {
    seq(a.Length0, n requires 0 <= n < a.Length0 reads a => a[n, i, j])
  }

  /** w[y, :]: one row of a matrix. */
  function Row(a: array2<real>, y: nat): (r: seq<real>)
    reads a
    requires y < a.Length0
    ensures |r| == a.Length1
    ensures forall n :: 0 <= n < a.Length1 ==> r[n] == a[y, n]
  {
    seq(a.Length1, n requires 0 <= n < a.Length1 reads a => a[y, n])
  }

  /** a[:, i, j] = s: overwrites one cell's column and nothing else. */
  method SetColumn(a: array3<real>, i: nat, j: nat, s: seq<real>)
    requires i < a.Length1 && j < a.Length2 && |s| == a.Length0
    modifies a
    ensures forall n :: 0 <= n < a.Length0 ==> a[n, i, j] == s[n]
    ensures forall n, i', j' :: 0 <= n < a.Length0 && 0 <= i' < a.Length1 && 0 <= j' < a.Length2 ==>
              (i' != i || j' != j) ==> a[n, i', j'] == old(a[n, i', j'])
  {
    for n := 0 to a.Length0
      invariant forall n' :: 0 <= n' < n ==> a[n', i, j] == s[n']
      invariant forall n', i', j' :: 0 <= n' < a.Length0 && 0 <= i' < a.Length1 && 0 <= j' < a.Length2 ==>
                  (i' != i || j' != j || n' >= n) ==> a[n', i', j'] == old(a[n', i', j'])
    {
      a[n, i, j] := s[n];
    }
  }

  /** w[:, n] = s: overwrites one column of a matrix and nothing else. */
  method SetMatrixColumn(a: array2<real>, n: nat, s: seq<real>)
    requires n < a.Length1 && |s| == a.Length0
    modifies a
    ensures forall y :: 0 <= y < a.Length0 ==> a[y, n] == s[y]
    ensures forall y, n' :: 0 <= y < a.Length0 && 0 <= n' < a.Length1 && n' != n ==> a[y, n'] == old(a[y, n'])
  {
    for y := 0 to a.Length0
      invariant forall y' :: 0 <= y' < y ==> a[y', n] == s[y']
      invariant forall y', n' :: 0 <= y' < a.Length0 && 0 <= n' < a.Length1 && (n' != n || y' >= y) ==>
                  a[y', n'] == old(a[y', n'])
    {
      a[y, n] := s[y];
    }
  }

  /** w[y, :].sort(): sorts one row in place and leaves the other rows alone. */
  method SortRow(a: array2<real>, y: nat)
    requires y < a.Length0
    modifies a
    ensures Row(a, y) == Sort(old(Row(a, y)))
    ensures forall y', n :: 0 <= y' < a.Length0 && 0 <= n < a.Length1 && y' != y ==> a[y', n] == old(a[y', n])
  {
    var s := Sort(Row(a, y));
    for n := 0 to a.Length1
      invariant forall n' :: 0 <= n' < n ==> a[y, n'] == s[n']
      invariant forall y', n' :: 0 <= y' < a.Length0 && 0 <= n' < a.Length1 && (y' != y || n' >= n) ==>
                  a[y', n'] == old(a[y', n'])
    {
      a[y, n] := s[n];
    }
    assert Row(a, y) == s;
  }

  /** Vr.sort(axis=0): sorts every cell's column in place. */
  method SortColumns(a: array3<real>)
    modifies a
    ensures forall i, j :: 0 <= i < a.Length1 && 0 <= j < a.Length2 ==>
              Column(a, i, j) == Sort(old(Column(a, i, j)))
  {
    for i := 0 to a.Length1
      invariant forall n, i', j' :: 0 <= n < a.Length0 && 0 <= i' < i && 0 <= j' < a.Length2 ==>
                  a[n, i', j'] == Sort(old(Column(a, i', j')))[n]
      invariant forall n, i', j' :: 0 <= n < a.Length0 && i <= i' < a.Length1 && 0 <= j' < a.Length2 ==>
                  a[n, i', j'] == old(a[n, i', j'])
    {
      for j := 0 to a.Length2
        invariant forall n, i', j' :: 0 <= n < a.Length0 && 0 <= i' < a.Length1 && 0 <= j' < a.Length2 ==>
                    (i' < i || (i' == i && j' < j)) ==> a[n, i', j'] == Sort(old(Column(a, i', j')))[n]
        invariant forall n, i', j' :: 0 <= n < a.Length0 && 0 <= i' < a.Length1 && 0 <= j' < a.Length2 ==>
                    (i' > i || (i' == i && j' >= j)) ==> a[n, i', j'] == old(a[n, i', j'])
      {
        assert Column(a, i, j) == old(Column(a, i, j));
        SetColumn(a, i, j, Sort(Column(a, i, j)));
      }
    }
    forall i, j | 0 <= i < a.Length1 && 0 <= j < a.Length2
      ensures Column(a, i, j) == Sort(old(Column(a, i, j)))
    {
    }
  }

  // ----- _calculate -----

  /** The four outputs of _calculate: Rp[y, i, j] and loc, scale, shp [i, j], all distinct arrays. */
  ghost predicate Outputs(Rp: array3<real>, loc2D: array2<real>, scale2D: array2<real>, shp2D: array2<real>,
                          nyr: nat, ny: nat, nx: nat)
  {
    && Rp.Length0 == nyr && Rp.Length1 == ny && Rp.Length2 == nx
    && loc2D.Length0 == scale2D.Length0 == shp2D.Length0 == ny
    && loc2D.Length1 == scale2D.Length1 == shp2D.Length1 == nx
    && loc2D != scale2D && loc2D != shp2D && scale2D != shp2D
  }

  /** Cell (i, j) of the outputs holds the fit f. */
  ghost predicate CellIs(Rp: array3<real>, loc2D: array2<real>, scale2D: array2<real>, shp2D: array2<real>,
                         i: nat, j: nat, f: Fit)
    reads Rp, loc2D, scale2D, shp2D
  {
    && i < Rp.Length1 && j < Rp.Length2 && Rp.Length0 == |f.w|
    && i < loc2D.Length0 && i < scale2D.Length0 && i < shp2D.Length0
    && j < loc2D.Length1 && j < scale2D.Length1 && j < shp2D.Length1
    && (forall y :: 0 <= y < Rp.Length0 ==> Rp[y, i, j] == f.w[y])
    && loc2D[i, j] == f.loc && scale2D[i, j] == f.scale && shp2D[i, j] == f.shp
  }

  /** Rp[:, i, j], loc2D[i, j], scale2D[i, j], shp2D[i, j] = f: writes one cell's fit and nothing else. */
  method StoreFit(Rp: array3<real>, loc2D: array2<real>, scale2D: array2<real>, shp2D: array2<real>,
                  i: nat, j: nat, f: Fit)
    requires Outputs(Rp, loc2D, scale2D, shp2D, |f.w|, Rp.Length1, Rp.Length2)
    requires i < Rp.Length1 && j < Rp.Length2
    modifies Rp, loc2D, scale2D, shp2D
    ensures CellIs(Rp, loc2D, scale2D, shp2D, i, j, f)
    ensures forall y, i', j' :: 0 <= y < Rp.Length0 && 0 <= i' < Rp.Length1 && 0 <= j' < Rp.Length2 ==>
              (i' != i || j' != j) ==> Rp[y, i', j'] == old(Rp[y, i', j'])
    ensures forall i', j' :: 0 <= i' < Rp.Length1 && 0 <= j' < Rp.Length2 ==> (i' != i || j' != j) ==>
              && loc2D[i', j'] == old(loc2D[i', j'])
              && scale2D[i', j'] == old(scale2D[i', j'])
              && shp2D[i', j'] == old(shp2D[i', j'])
  {
    SetColumn(Rp, i, j, f.w);
    loc2D[i, j] := f.loc;
    scale2D[i, j] := f.scale;
    shp2D[i, j] := f.shp;
  }

  /** The inner loop of _calculate over row i of an already sorted ensemble, whose outputs hold the sentinel. */
  method FitRow(Vr: array3<real>, cfg: Config, fit: Fitter, i: nat,
                Rp: array3<real>, loc2D: array2<real>, scale2D: array2<real>, shp2D: array2<real>)
    requires Vr.Length0 > 0 && FitterContract(fit, cfg) && i < Vr.Length1 && Vr != Rp
    requires Outputs(Rp, loc2D, scale2D, shp2D, |cfg.years|, Vr.Length1, Vr.Length2)
    requires forall y, j :: 0 <= y < Rp.Length0 && 0 <= j < Rp.Length2 ==> Rp[y, i, j] == NoData
    requires forall j :: 0 <= j < Rp.Length2 ==>
               loc2D[i, j] == NoData && scale2D[i, j] == NoData && shp2D[i, j] == NoData
    modifies Rp, loc2D, scale2D, shp2D
    ensures forall j :: 0 <= j < Vr.Length2 ==>
              CellIs(Rp, loc2D, scale2D, shp2D, i, j, FitSorted(Column(Vr, i, j), cfg, fit))
    ensures forall y, i', j' :: 0 <= y < Rp.Length0 && 0 <= i' < Rp.Length1 && 0 <= j' < Rp.Length2 ==>
              i' != i ==> Rp[y, i', j'] == old(Rp[y, i', j'])
    ensures forall i', j' :: 0 <= i' < Rp.Length1 && 0 <= j' < Rp.Length2 ==> i' != i ==>
              && loc2D[i', j'] == old(loc2D[i', j'])
              && scale2D[i', j'] == old(scale2D[i', j'])
              && shp2D[i', j'] == old(shp2D[i', j'])
  {
    for j := 0 to Vr.Length2
      invariant forall j' :: 0 <= j' < j ==>
                  CellIs(Rp, loc2D, scale2D, shp2D, i, j', FitSorted(Column(Vr, i, j'), cfg, fit))
      invariant forall y, j' :: 0 <= y < Rp.Length0 && j <= j' < Rp.Length2 ==> Rp[y, i, j'] == NoData
      invariant forall j' :: j <= j' < Rp.Length2 ==>
                  loc2D[i, j'] == NoData && scale2D[i, j'] == NoData && shp2D[i, j'] == NoData
      invariant forall y, i', j' :: 0 <= y < Rp.Length0 && 0 <= i' < Rp.Length1 && 0 <= j' < Rp.Length2 ==>
                  i' != i ==> Rp[y, i', j'] == old(Rp[y, i', j'])
      invariant forall i', j' :: 0 <= i' < Rp.Length1 && 0 <= j' < Rp.Length2 ==> i' != i ==>
                  && loc2D[i', j'] == old(loc2D[i', j'])
                  && scale2D[i', j'] == old(scale2D[i', j'])
                  && shp2D[i', j'] == old(shp2D[i', j'])
    {
      var col := Column(Vr, i, j);
      label before:
      if MaxOf(col) > 0.0 {
        StoreFit(Rp, loc2D, scale2D, shp2D, i, j, fit(col, cfg));
      }
      forall j' | 0 <= j' < j
        ensures CellIs(Rp, loc2D, scale2D, shp2D, i, j', FitSorted(Column(Vr, i, j'), cfg, fit))
      {
        assert old@before(CellIs(Rp, loc2D, scale2D, shp2D, i, j', FitSorted(Column(Vr, i, j'), cfg, fit)));
      }
    }
  }

  /**
   * The cell loop of _calculate over an ensemble that is already sorted:
   * outputs start at the sentinel and every cell whose maximum is positive
   * receives the fitter's (w, loc, scale, shp).
   */
  method FitCells(Vr: array3<real>, cfg: Config, fit: Fitter)
    returns (Rp: array3<real>, loc2D: array2<real>, scale2D: array2<real>, shp2D: array2<real>)
    requires Vr.Length0 > 0 && FitterContract(fit, cfg)
    ensures fresh(Rp) && fresh(loc2D) && fresh(scale2D) && fresh(shp2D)
    ensures Outputs(Rp, loc2D, scale2D, shp2D, |cfg.years|, Vr.Length1, Vr.Length2)
    ensures forall i, j :: 0 <= i < Vr.Length1 && 0 <= j < Vr.Length2 ==>
              CellIs(Rp, loc2D, scale2D, shp2D, i, j, FitSorted(Column(Vr, i, j), cfg, fit))
  {
    var ny, nx := Vr.Length1, Vr.Length2;
    Rp := new real[|cfg.years|, ny, nx]((_, _, _) => NoData);
    loc2D := new real[ny, nx]((_, _) => NoData);
    scale2D := new real[ny, nx]((_, _) => NoData);
    shp2D := new real[ny, nx]((_, _) => NoData);
    for i := 0 to ny
      invariant forall i', j :: 0 <= i' < i && 0 <= j < nx ==>
                  CellIs(Rp, loc2D, scale2D, shp2D, i', j, FitSorted(Column(Vr, i', j), cfg, fit))
      invariant forall y, i', j :: 0 <= y < Rp.Length0 && i <= i' < ny && 0 <= j < nx ==> Rp[y, i', j] == NoData
      invariant forall i', j :: i <= i' < ny && 0 <= j < nx ==>
                  loc2D[i', j] == NoData && scale2D[i', j] == NoData && shp2D[i', j] == NoData
    {
      label before:
      FitRow(Vr, cfg, fit, i, Rp, loc2D, scale2D, shp2D);
      forall i', j | 0 <= i' < i && 0 <= j < nx
        ensures CellIs(Rp, loc2D, scale2D, shp2D, i', j, FitSorted(Column(Vr, i', j), cfg, fit))
      {
        assert old@before(CellIs(Rp, loc2D, scale2D, shp2D, i', j, FitSorted(Column(Vr, i', j), cfg, fit)));
      }
    }
  }

  /**
   * _calculate: sorts the ensemble in place along the realization axis,
   * then fits every cell. The caller's Vr stays sorted, so the confidence
   * intervals computed afterwards resample sorted columns.
   */
  method Calculate(Vr: array3<real>, cfg: Config, fit: Fitter)
    returns (Rp: array3<real>, loc2D: array2<real>, scale2D: array2<real>, shp2D: array2<real>)
    requires Vr.Length0 > 0 && FitterContract(fit, cfg)
    modifies Vr
    ensures forall i, j :: 0 <= i < Vr.Length1 && 0 <= j < Vr.Length2 ==>
              Column(Vr, i, j) == Sort(old(Column(Vr, i, j)))
    ensures fresh(Rp) && fresh(loc2D) && fresh(scale2D) && fresh(shp2D)
    ensures Outputs(Rp, loc2D, scale2D, shp2D, |cfg.years|, Vr.Length1, Vr.Length2)
    ensures forall i, j :: 0 <= i < Vr.Length1 && 0 <= j < Vr.Length2 ==>
              CellIs(Rp, loc2D, scale2D, shp2D, i, j, CellResult(old(Column(Vr, i, j)), cfg, fit))
  {
    SortColumns(Vr);
    Rp, loc2D, scale2D, shp2D := FitCells(Vr, cfg, fit);
  }

  // ----- _calculateCI -----

  /** Fills column n of the scratch matrix w with the estimates of resample n, for every n. */
  method FillResamples(col: seq<real>, cfg: Config, fit: Fitter, choose: Chooser, i: nat, j: nat, w: array2<real>)
    requires ChooserInRange(choose, |col|) && FitterContract(fit, cfg)
    requires w.Length0 == |cfg.years| && w.Length1 == Resamples
    modifies w
    ensures forall y, n :: 0 <= y < w.Length0 && 0 <= n < Resamples ==>
              w[y, n] == Estimate(col, cfg, fit, choose, i, j, n)[y]
  {
    for n := 0 to Resamples
      invariant forall y, n' :: 0 <= y < w.Length0 && 0 <= n' < n ==>
                  w[y, n'] == Estimate(col, cfg, fit, choose, i, j, n')[y]
    {
      var vn := Resample(col, choose, i, j, n);
      vn := Sort(vn);
      var r := fit(vn, cfg);
      SetMatrixColumn(w, n, r.w);
    }
  }

  /** Sorts row y of w and reads its 95th and 5th percentiles into w95[y] and w05[y]. */
  method ReadRow(w: array2<real>, y: nat, w95: array<real>, w05: array<real>)
    requires y < w.Length0 && w.Length1 > 0 && y < w95.Length && y < w05.Length && w95 != w05
    modifies w, w95, w05
    ensures w95[y] == Score(old(Row(w, y)), 95.0) && w05[y] == Score(old(Row(w, y)), 5.0)
    ensures forall k :: 0 <= k < w95.Length && k != y ==> w95[k] == old(w95[k])
    ensures forall k :: 0 <= k < w05.Length && k != y ==> w05[k] == old(w05[k])
    ensures forall y', n :: 0 <= y' < w.Length0 && 0 <= n < w.Length1 && y' != y ==> w[y', n] == old(w[y', n])
  {
    ghost var row0 := Row(w, y);
    SortRow(w, y);
    var row := Row(w, y);
    ScoreOfSortedRow(row0, 95.0);
    ScoreOfSortedRow(row0, 5.0);
    w95[y] := Score(row, 95.0);
    w05[y] := Score(row, 5.0);
  }

  /** Sorts every row of w and reads its 95th and 5th percentiles into w95 and w05. */
  method ReadPercentiles(w: array2<real>, w95: array<real>, w05: array<real>)
    requires w.Length1 > 0 && w95.Length == w05.Length == w.Length0 && w95 != w05
    modifies w, w95, w05
    ensures forall y :: 0 <= y < w.Length0 ==>
              w95[y] == Score(old(Row(w, y)), 95.0) && w05[y] == Score(old(Row(w, y)), 5.0)
  {
    for y := 0 to w.Length0
      invariant forall y' :: 0 <= y' < y ==>
                  w95[y'] == Score(old(Row(w, y')), 95.0) && w05[y'] == Score(old(Row(w, y')), 5.0)
      invariant forall y', n :: y <= y' < w.Length0 && 0 <= n < w.Length1 ==> w[y', n] == old(w[y', n])
    {
      assert Row(w, y) == old(Row(w, y));
      ReadRow(w, y, w95, w05);
    }
  }

  /**
   * The bootstrap of one valid cell: 200 resamples fitted into the columns
   * of the shared scratch matrix w, then every row sorted and its 5th and
   * 95th percentiles read into w05 and w95. Whatever w held before is
   * overwritten: the result does not depend on it.
   */
  method CellBootstrap(col: seq<real>, cfg: Config, fit: Fitter, choose: Chooser, i: nat, j: nat,
                       w: array2<real>, w95: array<real>, w05: array<real>)
    requires ChooserInRange(choose, |col|) && FitterContract(fit, cfg)
    requires w.Length0 == |cfg.years| && w.Length1 == Resamples
    requires w95.Length == w05.Length == |cfg.years| && w95 != w05
    modifies w, w95, w05
    ensures w95[..] == BootBounds(col, cfg, fit, choose, i, j).hi
    ensures w05[..] == BootBounds(col, cfg, fit, choose, i, j).lo
  {
    FillResamples(col, cfg, fit, choose, i, j, w);
    forall y | 0 <= y < w.Length0
      ensures Row(w, y) == BootRow(col, cfg, fit, choose, i, j, y)
    {
    }
    ReadPercentiles(w, w95, w05);
  }

  /** Cell (i, j) of the bound arrays holds b. */
  ghost predicate BoundsAre(Rp95: array3<real>, Rp05: array3<real>, i: nat, j: nat, b: Bounds)
    reads Rp95, Rp05
  {
    && i < Rp95.Length1 && j < Rp95.Length2 && i < Rp05.Length1 && j < Rp05.Length2
    && Rp95.Length0 == Rp05.Length0 == |b.hi| == |b.lo|
    && (forall y :: 0 <= y < Rp95.Length0 ==> Rp95[y, i, j] == b.hi[y] && Rp05[y, i, j] == b.lo[y])
  }

  /** The inner loop of _calculateCI over row i, sharing the scratch arrays w, w95, w05. */
  method BoundsRow(Vr: array3<real>, cfg: Config, fit: Fitter, choose: Chooser, i: nat,
                   Rp95: array3<real>, Rp05: array3<real>, w: array2<real>, w95: array<real>, w05: array<real>)
    requires Vr.Length0 > 0 && FitterContract(fit, cfg) && ChooserInRange(choose, Vr.Length0)
    requires i < Vr.Length1
    requires Rp95.Length0 == Rp05.Length0 == |cfg.years|
    requires Rp95.Length1 == Rp05.Length1 == Vr.Length1 && Rp95.Length2 == Rp05.Length2 == Vr.Length2
    requires Rp95 != Rp05 && Vr != Rp95 && Vr != Rp05
    requires w.Length0 == |cfg.years| && w.Length1 == Resamples
    requires w95.Length == w05.Length == |cfg.years| && w95 != w05
    requires forall y, j :: 0 <= y < Rp95.Length0 && 0 <= j < Vr.Length2 ==>
               Rp95[y, i, j] == NoData && Rp05[y, i, j] == NoData
    modifies Rp95, Rp05, w, w95, w05
    ensures forall j :: 0 <= j < Vr.Length2 ==>
              BoundsAre(Rp95, Rp05, i, j, CIResult(Column(Vr, i, j), cfg, fit, choose, i, j))
    ensures forall y, i', j' :: 0 <= y < Rp95.Length0 && 0 <= i' < Rp95.Length1 && 0 <= j' < Rp95.Length2 ==>
              i' != i ==> Rp95[y, i', j'] == old(Rp95[y, i', j']) && Rp05[y, i', j'] == old(Rp05[y, i', j'])
  {
    for j := 0 to Vr.Length2
      invariant forall j' :: 0 <= j' < j ==>
                  BoundsAre(Rp95, Rp05, i, j', CIResult(Column(Vr, i, j'), cfg, fit, choose, i, j'))
      invariant forall y, j' :: 0 <= y < Rp95.Length0 && j <= j' < Vr.Length2 ==>
                  Rp95[y, i, j'] == NoData && Rp05[y, i, j'] == NoData
      invariant forall y, i', j' :: 0 <= y < Rp95.Length0 && 0 <= i' < Rp95.Length1 && 0 <= j' < Rp95.Length2 ==>
                  i' != i ==> Rp95[y, i', j'] == old(Rp95[y, i', j']) && Rp05[y, i', j'] == old(Rp05[y, i', j'])
    {
      var col := Column(Vr, i, j);
      label before:
      if MaxOf(col) > 0.0 {
        CellBootstrap(col, cfg, fit, choose, i, j, w, w95, w05);
        SetColumn(Rp95, i, j, w95[..]);
        SetColumn(Rp05, i, j, w05[..]);
        assert BoundsAre(Rp95, Rp05, i, j, BootBounds(col, cfg, fit, choose, i, j));
      } else {
        assert BoundsAre(Rp95, Rp05, i, j, Bounds(Sentinel(cfg).w, Sentinel(cfg).w));
      }
      forall j' | 0 <= j' <= j
        ensures BoundsAre(Rp95, Rp05, i, j', CIResult(Column(Vr, i, j'), cfg, fit, choose, i, j'))
      {
        if j' < j {
          assert old@before(BoundsAre(Rp95, Rp05, i, j', CIResult(Column(Vr, i, j'), cfg, fit, choose, i, j')));
        } else {
          assert BoundsAre(Rp95, Rp05, i, j, CIResult(col, cfg, fit, choose, i, j));
        }
      }
    }
  }

  /**
   * _calculateCI: bounds start at the sentinel; every cell whose maximum
   * is positive gets the bootstrap 5th and 95th percentiles of each return
   * period. The ensemble is only read.
   */
  method CalculateCI(Vr: array3<real>, cfg: Config, fit: Fitter, choose: Chooser)
    returns (Rp95: array3<real>, Rp05: array3<real>)
    requires Vr.Length0 > 0 && FitterContract(fit, cfg) && ChooserInRange(choose, Vr.Length0)
    ensures fresh(Rp95) && fresh(Rp05)
    ensures Rp95.Length0 == Rp05.Length0 == |cfg.years|
    ensures Rp95.Length1 == Rp05.Length1 == Vr.Length1 && Rp95.Length2 == Rp05.Length2 == Vr.Length2
    ensures forall i, j :: 0 <= i < Vr.Length1 && 0 <= j < Vr.Length2 ==>
              BoundsAre(Rp95, Rp05, i, j, CIResult(Column(Vr, i, j), cfg, fit, choose, i, j))
  {
    var ny, nx, nyr := Vr.Length1, Vr.Length2, |cfg.years|;
    Rp95 := new real[nyr, ny, nx]((_, _, _) => NoData);
    Rp05 := new real[nyr, ny, nx]((_, _, _) => NoData);
    var w := new real[nyr, Resamples]((_, _) => 0.0);
    var w95 := new real[nyr](_ => 0.0);
    var w05 := new real[nyr](_ => 0.0);
    for i := 0 to ny
      invariant forall i', j :: 0 <= i' < i && 0 <= j < nx ==>
                  BoundsAre(Rp95, Rp05, i', j, CIResult(Column(Vr, i', j), cfg, fit, choose, i', j))
      invariant forall y, i', j :: 0 <= y < nyr && i <= i' < ny && 0 <= j < nx ==>
                  Rp95[y, i', j] == NoData && Rp05[y, i', j] == NoData
    {
      label before:
      BoundsRow(Vr, cfg, fit, choose, i, Rp95, Rp05, w, w95, w05);
      forall i', j | 0 <= i' < i && 0 <= j < nx
        ensures BoundsAre(Rp95, Rp05, i', j, CIResult(Column(Vr, i', j), cfg, fit, choose, i', j))
      {
        assert old@before(BoundsAre(Rp95, Rp05, i', j, CIResult(Column(Vr, i', j), cfg, fit, choose, i', j)));
      }
    }
  }
}
