/**
 * The hazard driver: the window of the wind-field grid is cut into tiles of
 * 20 by 20 cells; for each tile the ensemble of simulated maximum wind
 * speeds is loaded, fitted cell by cell, optionally bootstrapped, and
 * written back into the matching region of the output grids. At the end
 * the range of every output grid is recorded.
 *
 * The simulated wind fields are a function parameter (the 'vmax' variable
 * of simulation n at grid row lat and column lon); the output file is an
 * object holding one array per output variable.
 */
module HazardInterface {
  import opened Common
  import opened Numeric
  import opened Tiling
  import opened GridLimits
  import opened CellFit

  /** Tile width and height used by calculateWindHazard. */
  const TileStep: nat := 20

  /** vmax of simulation n at grid row lat, grid column lon. */
  type Field = (nat, nat, nat) -> real

  /** random.choice for every tile: chooser(k) drives the bootstrap of tile k. */
  type ChooserFamily = nat -> Chooser

  /** The ensemble of one grid cell: its wind speed in each of the nsim simulations. */
  function FieldColumn(field: Field, nsim: nat, lat: nat, lon: nat): (r: seq<real>)
    ensures |r| == nsim
    ensures forall n :: 0 <= n < nsim ==> r[n] == field(n, lat, lon)
  {
    seq(nsim, n requires 0 <= n < nsim => field(n, lat, lon))
  }

  /** Number of window columns (longitudes) and rows (latitudes): imax - imin + 1 and jmax - jmin + 1. */
  function XDim(win: Window): nat
    requires win.imin <= win.imax
  {
    win.imax - win.imin + 1
  }

  function YDim(win: Window): nat
    requires win.jmin <= win.jmax
  {
    win.jmax - win.jmin + 1
  }

  /** Grid row and grid column of window cell (y, x). */
  function Lat(win: Window, y: nat): nat { win.jmin + y }
  function Lon(win: Window, x: nat): nat { win.imin + x }

  /** The fit that cell (y, x) of the window must hold: its ensemble, sorted and fitted. */
  function HazardAt(field: Field, nsim: nat, win: Window, cfg: Config, fit: Fitter, y: nat, x: nat): (r: Fit)
    requires nsim > 0
    ensures FitterContract(fit, cfg) ==> |r.w| == |cfg.years|
  {
    CellResult(FieldColumn(field, nsim, Lat(win, y), Lon(win, x)), cfg, fit)
  }

  /** The grid row and column of position (a, b) of tile t. */
  function TileRow(t: Tile, a: nat): nat
    requires 0 <= t.yStart
  {
    t.yStart + a
  }

  function TileCol(t: Tile, b: nat): nat
    requires 0 <= t.xStart
  {
    t.xStart + b
  }

  /** The fit expected at position (a, b) of tile t: the fit of the cell it lies over. */
  function TileFit(field: Field, nsim: nat, win: Window, cfg: Config, fit: Fitter, t: Tile, a: nat, b: nat): Fit
    requires nsim > 0 && 0 <= t.yStart && 0 <= t.xStart
  {
    HazardAt(field, nsim, win, cfg, fit, t.yStart + a, t.xStart + b)
  }

  /** The ensemble of position (a, b) of tile t once _calculate has sorted it in place. */
  function TileColumn(field: Field, nsim: nat, win: Window, t: Tile, a: nat, b: nat): (r: seq<real>)
    requires 0 <= t.yStart && 0 <= t.xStart
    ensures |r| == nsim
  {
    Sort(FieldColumn(field, nsim, Lat(win, t.yStart + a), Lon(win, t.xStart + b)))
  }

  /**
   * The bounds that position (a, b) of tile t must hold: the bootstrap
   * resamples the ensemble that _calculate has already sorted in place,
   * and the draws are indexed by the position inside the tile.
   */
  function BoundsAt(field: Field, nsim: nat, win: Window, cfg: Config, fit: Fitter, choose: Chooser,
                    t: Tile, a: nat, b: nat): (r: Bounds)
    requires nsim > 0 && FitterContract(fit, cfg) && ChooserInRange(choose, nsim)
    requires 0 <= t.yStart && 0 <= t.xStart
    ensures |r.lo| == |r.hi| == |cfg.years|
  {
    CIResult(TileColumn(field, nsim, win, t, a, b), cfg, fit, choose, a, b)
  }

  /** (y, x) lies in the h by w block whose corner is (y0, x0). */
  predicate InBlock(y0: int, x0: int, h: int, w: int, y: int, x: int) {
    y0 <= y < y0 + h && x0 <= x < x0 + w
  }

  /** dst[y0:y0+h, x0:x0+w] = src: the block receives src and the rest of dst keeps its values. */
  method CopyBlock2(dst: array2<real>, src: array2<real>, y0: nat, x0: nat)
    requires dst != src && y0 + src.Length0 <= dst.Length0 && x0 + src.Length1 <= dst.Length1
    modifies dst
    ensures forall y, x :: 0 <= y < dst.Length0 && 0 <= x < dst.Length1 ==>
              dst[y, x] == if InBlock(y0, x0, src.Length0, src.Length1, y, x) then src[y - y0, x - x0] else old(dst[y, x])
  {
    for a := 0 to src.Length0
      invariant forall y, x :: 0 <= y < dst.Length0 && 0 <= x < dst.Length1 ==>
                  dst[y, x] == if InBlock(y0, x0, a, src.Length1, y, x) then src[y - y0, x - x0] else old(dst[y, x])
    {
      for b := 0 to src.Length1
        invariant forall y, x :: 0 <= y < dst.Length0 && 0 <= x < dst.Length1 ==>
                    dst[y, x] == if InBlock(y0, x0, a, src.Length1, y, x) || InBlock(y0 + a, x0, 1, b, y, x)
                                 then src[y - y0, x - x0] else old(dst[y, x])
      {
        dst[y0 + a, x0 + b] := src[a, b];
      }
    }
  }

  /** dst[:, y0:y0+h, x0:x0+w] = src: every layer of the block receives src, the rest keeps its values. */
  method CopyBlock3(dst: array3<real>, src: array3<real>, y0: nat, x0: nat)
    requires dst != src && src.Length0 == dst.Length0
    requires y0 + src.Length1 <= dst.Length1 && x0 + src.Length2 <= dst.Length2
    modifies dst
    ensures forall l, y, x :: 0 <= l < dst.Length0 && 0 <= y < dst.Length1 && 0 <= x < dst.Length2 ==>
              dst[l, y, x] == if InBlock(y0, x0, src.Length1, src.Length2, y, x) then src[l, y - y0, x - x0]
                              else old(dst[l, y, x])
  {
    for a := 0 to src.Length1
      invariant forall l, y, x :: 0 <= l < dst.Length0 && 0 <= y < dst.Length1 && 0 <= x < dst.Length2 ==>
                  dst[l, y, x] == if InBlock(y0, x0, a, src.Length2, y, x) then src[l, y - y0, x - x0]
                                  else old(dst[l, y, x])
    {
      for b := 0 to src.Length2
        invariant forall l, y, x :: 0 <= l < dst.Length0 && 0 <= y < dst.Length1 && 0 <= x < dst.Length2 ==>
                    dst[l, y, x] == if InBlock(y0, x0, a, src.Length2, y, x) || InBlock(y0 + a, x0, 1, b, y, x)
                                    then src[l, y - y0, x - x0] else old(dst[l, y, x])
      {
        SetColumn(dst, y0 + a, x0 + b, Column(src, a, b));
      }
    }
  }

  /** Sorting the ensemble before the bootstrap does not change which cells are bootstrapped. */
  lemma SortedEnsembleValidity(col: seq<real>, cfg: Config, fit: Fitter, choose: Chooser, i: nat, j: nat)
    requires |col| > 0 && ChooserInRange(choose, |col|) && FitterContract(fit, cfg)
    ensures MaxOf(col) <= 0.0 ==>
              CIResult(Sort(col), cfg, fit, choose, i, j) == Bounds(Sentinel(cfg).w, Sentinel(cfg).w)
    ensures MaxOf(col) > 0.0 ==> CIResult(Sort(col), cfg, fit, choose, i, j) == BootBounds(Sort(col), cfg, fit, choose, i, j)
  {
    SortKeepsMax(col);
  }

  /**
   * The output file: location, scale and shape [lat, lon], and the return
   * period wind speed with its 95th and 5th percentile bounds [years, lat, lon].
   */
  class HazardStore {
    const nyr: nat
    const ny: nat
    const nx: nat
    const loc: array2<real>
    const scale: array2<real>
    const shp: array2<real>
    const wspd: array3<real>
    const wspd95: array3<real>
    const wspd05: array3<real>

    ghost predicate Valid() {
      && loc.Length0 == scale.Length0 == shp.Length0 == ny
      && loc.Length1 == scale.Length1 == shp.Length1 == nx
      && wspd.Length0 == wspd95.Length0 == wspd05.Length0 == nyr
      && wspd.Length1 == wspd95.Length1 == wspd05.Length1 == ny
      && wspd.Length2 == wspd95.Length2 == wspd05.Length2 == nx
      && loc != scale && loc != shp && scale != shp
      && wspd != wspd95 && wspd != wspd05 && wspd95 != wspd05
    }

    /** Cell (y, x) of the location, scale, shape and wind speed grids holds the fit f. */
    ghost predicate CellHolds(y: nat, x: nat, f: Fit)
      reads loc, scale, shp, wspd
      requires Valid()
    {
      && y < ny && x < nx && |f.w| == nyr
      && (forall yr :: 0 <= yr < nyr ==> wspd[yr, y, x] == f.w[yr])
      && loc[y, x] == f.loc && scale[y, x] == f.scale && shp[y, x] == f.shp
    }

    /** Cell (y, x) of the percentile grids holds the bounds b. */
    ghost predicate BoundsHold(y: nat, x: nat, b: Bounds)
      reads wspd95, wspd05
      requires Valid()
    {
      && y < ny && x < nx && |b.hi| == |b.lo| == nyr
      && (forall yr :: 0 <= yr < nyr ==> wspd95[yr, y, x] == b.hi[yr] && wspd05[yr, y, x] == b.lo[yr])
    }

    /** The grids are created filled with the missing-data value. */
    constructor(nyr: nat, ny: nat, nx: nat)
      ensures Valid() && this.nyr == nyr && this.ny == ny && this.nx == nx
      ensures forall y, x :: 0 <= y < ny && 0 <= x < nx ==>
                loc[y, x] == NoData && scale[y, x] == NoData && shp[y, x] == NoData
      ensures forall yr, y, x :: 0 <= yr < nyr && 0 <= y < ny && 0 <= x < nx ==>
                wspd[yr, y, x] == NoData && wspd95[yr, y, x] == NoData && wspd05[yr, y, x] == NoData
    {
      this.nyr, this.ny, this.nx := nyr, ny, nx;
      loc := new real[ny, nx]((_, _) => NoData);
      scale := new real[ny, nx]((_, _) => NoData);
      shp := new real[ny, nx]((_, _) => NoData);
      wspd := new real[nyr, ny, nx]((_, _, _) => NoData);
      wspd95 := new real[nyr, ny, nx]((_, _, _) => NoData);
      wspd05 := new real[nyr, ny, nx]((_, _, _) => NoData);
    }

    /**
     * var[y1:y2, x1:x2] = tile for the three parameter grids and
     * var[:, y1:y2, x1:x2] = Rp for the wind speed: the tile's region
     * receives the tile's values and every other cell keeps its value.
     */
    method WriteTile(t: Tile, Rp: array3<real>, loc2D: array2<real>, scale2D: array2<real>, shp2D: array2<real>)
      requires Valid()
      requires 0 <= t.xStart <= t.xEnd < nx && 0 <= t.yStart <= t.yEnd < ny
      requires Outputs(Rp, loc2D, scale2D, shp2D, nyr, t.yEnd - t.yStart + 1, t.xEnd - t.xStart + 1)
      requires Rp != wspd && loc2D != loc && loc2D != scale && loc2D != shp
      requires scale2D != loc && scale2D != scale && scale2D != shp
      requires shp2D != loc && shp2D != scale && shp2D != shp
      modifies loc, scale, shp, wspd
      ensures forall y, x :: 0 <= y < ny && 0 <= x < nx ==>
                && loc[y, x] == (if Contains(t, x, y) then loc2D[y - t.yStart, x - t.xStart] else old(loc[y, x]))
                && scale[y, x] == (if Contains(t, x, y) then scale2D[y - t.yStart, x - t.xStart] else old(scale[y, x]))
                && shp[y, x] == (if Contains(t, x, y) then shp2D[y - t.yStart, x - t.xStart] else old(shp[y, x]))
      ensures forall yr, y, x :: 0 <= yr < nyr && 0 <= y < ny && 0 <= x < nx ==>
                wspd[yr, y, x] == (if Contains(t, x, y) then Rp[yr, y - t.yStart, x - t.xStart] else old(wspd[yr, y, x]))
    {
      CopyBlock2(loc, loc2D, t.yStart, t.xStart);
      CopyBlock2(scale, scale2D, t.yStart, t.xStart);
      CopyBlock2(shp, shp2D, t.yStart, t.xStart);
      CopyBlock3(wspd, Rp, t.yStart, t.xStart);
    }

    /** wspd95[:, y1:y2, x1:x2] = Rp95 and wspd05[:, y1:y2, x1:x2] = Rp05. */
    method WriteBoundsTile(t: Tile, Rp95: array3<real>, Rp05: array3<real>)
      requires Valid()
      requires 0 <= t.xStart <= t.xEnd < nx && 0 <= t.yStart <= t.yEnd < ny
      requires Rp95.Length0 == Rp05.Length0 == nyr
      requires Rp95.Length1 == Rp05.Length1 == t.yEnd - t.yStart + 1
      requires Rp95.Length2 == Rp05.Length2 == t.xEnd - t.xStart + 1
      requires Rp95 != wspd95 && Rp95 != wspd05 && Rp05 != wspd95 && Rp05 != wspd05
      modifies wspd95, wspd05
      ensures forall yr, y, x :: 0 <= yr < nyr && 0 <= y < ny && 0 <= x < nx ==>
                && wspd95[yr, y, x] == (if Contains(t, x, y) then Rp95[yr, y - t.yStart, x - t.xStart] else old(wspd95[yr, y, x]))
                && wspd05[yr, y, x] == (if Contains(t, x, y) then Rp05[yr, y - t.yStart, x - t.xStart] else old(wspd05[yr, y, x]))
      ensures forall yr, a, b :: 0 <= yr < nyr && 0 <= a < Rp95.Length1 && 0 <= b < Rp95.Length2 ==>
                wspd95[yr, t.yStart + a, t.xStart + b] == Rp95[yr, a, b] && wspd05[yr, t.yStart + a, t.xStart + b] == Rp05[yr, a, b]
    {
      CopyBlock3(wspd95, Rp95, t.yStart, t.xStart);
      CopyBlock3(wspd05, Rp05, t.yStart, t.xStart);
      forall yr, a, b | 0 <= yr < nyr && 0 <= a < Rp95.Length1 && 0 <= b < Rp95.Length2
        ensures wspd95[yr, t.yStart + a, t.xStart + b] == Rp95[yr, a, b] && wspd05[yr, t.yStart + a, t.xStart + b] == Rp05[yr, a, b]
      {
        assert Contains(t, t.xStart + b, t.yStart + a);
      }
    }
  }

  /** No file among the first n names is missing. */
  ghost predicate AllPresent(fileList: seq<string>, present: string -> bool, n: nat)
    requires n <= |fileList|
  {
    forall i :: 0 <= i < n ==> present(fileList[i])
  }

  /**
   * The input-file loop of _loadData: the first nsim names of the listing,
   * in order. A missing file ends the program (sys.exit); running off the
   * end of the listing raises IndexError.
   */
  method SelectInputFiles(fileList: seq<string>, present: string -> bool, nsim: nat) returns (r: Result<seq<string>>)
    ensures r.Ok? <==> nsim <= |fileList| && AllPresent(fileList, present, nsim)
    ensures r.Ok? ==> r.value == fileList[..nsim]
    ensures r.Err? && r.error == SystemExit <==>
              exists i :: 0 <= i < nsim && i < |fileList| && !present(fileList[i])
    ensures r.Err? ==> r.error == SystemExit || r.error == IndexError
  {
    var inputFileList: seq<string> := [];
    var i := 0;
    while |inputFileList| < nsim
      invariant i == |inputFileList| <= nsim && i <= |fileList|
      invariant inputFileList == fileList[..i] && AllPresent(fileList, present, i)
      decreases nsim - i
    {
      if i >= |fileList| {
        return Err(IndexError);
      }
      if present(fileList[i]) {
        inputFileList := inputFileList + [fileList[i]];
        i := i + 1;
      } else {
        return Err(SystemExit);
      }
    }
    return Ok(inputFileList);
  }

  /**
   * _loadData: the ensemble of tile t, Vr[n, a, b] being simulation n at
   * window row t.yStart + a and window column t.xStart + b.
   */
  method LoadTile(field: Field, nsim: nat, win: Window, t: Tile) returns (Vr: array3<real>)
    requires 0 <= t.xStart <= t.xEnd && 0 <= t.yStart <= t.yEnd
    ensures fresh(Vr)
    ensures Vr.Length0 == nsim && Vr.Length1 == t.yEnd - t.yStart + 1 && Vr.Length2 == t.xEnd - t.xStart + 1
    ensures forall a, b :: 0 <= a < Vr.Length1 && 0 <= b < Vr.Length2 ==>
              Column(Vr, a, b) == FieldColumn(field, nsim, Lat(win, t.yStart + a), Lon(win, t.xStart + b))
  {
    Vr := new real[nsim, t.yEnd - t.yStart + 1, t.xEnd - t.xStart + 1]((n: nat, a: nat, b: nat) =>
      field(n, Lat(win, t.yStart + a), Lon(win, t.xStart + b)));
    forall a, b | 0 <= a < Vr.Length1 && 0 <= b < Vr.Length2
      ensures Column(Vr, a, b) == FieldColumn(field, nsim, Lat(win, t.yStart + a), Lon(win, t.xStart + b))
    {
    }
  }

  /** The store's six grids: what calculateWindHazard may change. */
  ghost function Grids(store: HazardStore): set<object> {
    {store.loc, store.scale, store.shp, store.wspd, store.wspd95, store.wspd05}
  }

  /** A tile position's ensemble, once sorted, is the column TileColumn names. */
  lemma TileColumnSorted(field: Field, nsim: nat, win: Window, t: Tile, a: nat, b: nat,
                         before: seq<real>, after: seq<real>)
    requires 0 <= t.yStart && 0 <= t.xStart
    requires before == FieldColumn(field, nsim, Lat(win, t.yStart + a), Lon(win, t.xStart + b))
    requires after == Sort(before)
    ensures after == TileColumn(field, nsim, win, t, a, b)
  {
    var y, x := Lat(win, t.yStart + a), Lon(win, t.xStart + b);
    assert TileColumn(field, nsim, win, t, a, b) == Sort(FieldColumn(field, nsim, y, x));
  }

  /** _calculate on the tile's ensemble: Vr is left sorted and the tile arrays hold each cell's fit. */
  method FitTileArrays(Vr: array3<real>, field: Field, nsim: nat, win: Window, cfg: Config, fit: Fitter, t: Tile)
    returns (Rp: array3<real>, loc2D: array2<real>, scale2D: array2<real>, shp2D: array2<real>)
    requires 0 <= t.xStart && 0 <= t.yStart
    requires nsim > 0 && Vr.Length0 == nsim && FitterContract(fit, cfg)
    requires forall a, b :: 0 <= a < Vr.Length1 && 0 <= b < Vr.Length2 ==>
               Column(Vr, a, b) == FieldColumn(field, nsim, Lat(win, t.yStart + a), Lon(win, t.xStart + b))
    modifies Vr
    ensures fresh(Rp) && fresh(loc2D) && fresh(scale2D) && fresh(shp2D)
    ensures Outputs(Rp, loc2D, scale2D, shp2D, |cfg.years|, Vr.Length1, Vr.Length2)
    ensures forall a, b :: 0 <= a < Vr.Length1 && 0 <= b < Vr.Length2 ==>
              Column(Vr, a, b) == TileColumn(field, nsim, win, t, a, b)
    ensures forall a, b :: 0 <= a < Vr.Length1 && 0 <= b < Vr.Length2 ==>
              CellIs(Rp, loc2D, scale2D, shp2D, a, b, TileFit(field, nsim, win, cfg, fit, t, a, b))
  {
    Rp, loc2D, scale2D, shp2D := Calculate(Vr, cfg, fit);
    forall a, b | 0 <= a < Vr.Length1 && 0 <= b < Vr.Length2
      ensures Column(Vr, a, b) == TileColumn(field, nsim, win, t, a, b)
    {
      TileColumnSorted(field, nsim, win, t, a, b, old(Column(Vr, a, b)), Column(Vr, a, b));
    }
    forall a, b | 0 <= a < Vr.Length1 && 0 <= b < Vr.Length2
      ensures CellIs(Rp, loc2D, scale2D, shp2D, a, b, TileFit(field, nsim, win, cfg, fit, t, a, b))
    {
      assert old(Column(Vr, a, b)) == FieldColumn(field, nsim, Lat(win, t.yStart + a), Lon(win, t.xStart + b));
    }
  }

  /** _calculate on the tile's ensemble, written back into the tile's region: Vr is left sorted. */
  method FitTile(store: HazardStore, Vr: array3<real>, field: Field, nsim: nat, win: Window, cfg: Config, fit: Fitter,
                 t: Tile)
    requires store.Valid() && store.nyr == |cfg.years|
    requires 0 <= t.xStart <= t.xEnd < store.nx && 0 <= t.yStart <= t.yEnd < store.ny
    requires nsim > 0 && Vr.Length0 == nsim
    requires Vr.Length1 == t.yEnd - t.yStart + 1 && Vr.Length2 == t.xEnd - t.xStart + 1
    requires Vr !in Grids(store) && FitterContract(fit, cfg)
    requires forall a, b :: 0 <= a < Vr.Length1 && 0 <= b < Vr.Length2 ==>
               Column(Vr, a, b) == FieldColumn(field, nsim, Lat(win, t.yStart + a), Lon(win, t.xStart + b))
    modifies Vr, store.loc, store.scale, store.shp, store.wspd
    ensures forall a, b :: 0 <= a < Vr.Length1 && 0 <= b < Vr.Length2 ==>
              Column(Vr, a, b) == TileColumn(field, nsim, win, t, a, b)
    ensures forall a, b :: 0 <= a < Vr.Length1 && 0 <= b < Vr.Length2 ==>
              store.CellHolds(t.yStart + a, t.xStart + b, TileFit(field, nsim, win, cfg, fit, t, a, b))
    ensures forall y, x :: 0 <= y < store.ny && 0 <= x < store.nx && !Contains(t, x, y) ==>
              && store.loc[y, x] == old(store.loc[y, x]) && store.scale[y, x] == old(store.scale[y, x])
              && store.shp[y, x] == old(store.shp[y, x])
    ensures forall yr, y, x :: 0 <= yr < store.nyr && 0 <= y < store.ny && 0 <= x < store.nx && !Contains(t, x, y) ==>
              store.wspd[yr, y, x] == old(store.wspd[yr, y, x])
  {
    var Rp, loc2D, scale2D, shp2D := FitTileArrays(Vr, field, nsim, win, cfg, fit, t);
    store.WriteTile(t, Rp, loc2D, scale2D, shp2D);
    forall a, b | 0 <= a < Vr.Length1 && 0 <= b < Vr.Length2
      ensures store.CellHolds(t.yStart + a, t.xStart + b, TileFit(field, nsim, win, cfg, fit, t, a, b))
    {
      assert Contains(t, t.xStart + b, t.yStart + a);
    }
  }

  /** _calculateCI on the tile's sorted ensemble, written back into the tile's region. */
  method BootstrapTile(store: HazardStore, Vr: array3<real>, field: Field, nsim: nat, win: Window, cfg: Config,
                       fit: Fitter, choose: Chooser, t: Tile)
    requires store.Valid() && store.nyr == |cfg.years|
    requires 0 <= t.xStart <= t.xEnd < store.nx && 0 <= t.yStart <= t.yEnd < store.ny
    requires nsim > 0 && Vr.Length0 == nsim
    requires Vr.Length1 == t.yEnd - t.yStart + 1 && Vr.Length2 == t.xEnd - t.xStart + 1
    requires FitterContract(fit, cfg) && ChooserInRange(choose, nsim)
    requires forall a, b :: 0 <= a < Vr.Length1 && 0 <= b < Vr.Length2 ==>
               Column(Vr, a, b) == TileColumn(field, nsim, win, t, a, b)
    modifies store.wspd95, store.wspd05
    ensures forall a, b :: 0 <= a < Vr.Length1 && 0 <= b < Vr.Length2 ==>
              store.BoundsHold(t.yStart + a, t.xStart + b, BoundsAt(field, nsim, win, cfg, fit, choose, t, a, b))
    ensures forall yr, y, x :: 0 <= yr < store.nyr && 0 <= y < store.ny && 0 <= x < store.nx && !Contains(t, x, y) ==>
              store.wspd95[yr, y, x] == old(store.wspd95[yr, y, x]) &&
              store.wspd05[yr, y, x] == old(store.wspd05[yr, y, x])
  {
    var Rp95, Rp05 := TileBoundsArrays(Vr, field, nsim, win, cfg, fit, choose, t);
    store.WriteBoundsTile(t, Rp95, Rp05);
    forall a, b | 0 <= a < Vr.Length1 && 0 <= b < Vr.Length2
      ensures store.BoundsHold(t.yStart + a, t.xStart + b, BoundsAt(field, nsim, win, cfg, fit, choose, t, a, b))
    {
      assert BoundsAre(Rp95, Rp05, a, b, BoundsAt(field, nsim, win, cfg, fit, choose, t, a, b));
    }
  }

  /** _calculateCI on the tile's sorted ensemble: fresh arrays holding BoundsAt at every tile position. */
  method TileBoundsArrays(Vr: array3<real>, field: Field, nsim: nat, win: Window, cfg: Config,
                          fit: Fitter, choose: Chooser, t: Tile)
    returns (Rp95: array3<real>, Rp05: array3<real>)
    requires 0 <= t.xStart && 0 <= t.yStart
    requires nsim > 0 && Vr.Length0 == nsim
    requires FitterContract(fit, cfg) && ChooserInRange(choose, nsim)
    requires forall a, b :: 0 <= a < Vr.Length1 && 0 <= b < Vr.Length2 ==>
               Column(Vr, a, b) == TileColumn(field, nsim, win, t, a, b)
    ensures fresh(Rp95) && fresh(Rp05)
    ensures Rp95.Length0 == Rp05.Length0 == |cfg.years|
    ensures Rp95.Length1 == Rp05.Length1 == Vr.Length1 && Rp95.Length2 == Rp05.Length2 == Vr.Length2
    ensures forall a, b :: 0 <= a < Vr.Length1 && 0 <= b < Vr.Length2 ==>
              BoundsAre(Rp95, Rp05, a, b, BoundsAt(field, nsim, win, cfg, fit, choose, t, a, b))
  {
    Rp95, Rp05 := CalculateCI(Vr, cfg, fit, choose);
    forall a, b | 0 <= a < Vr.Length1 && 0 <= b < Vr.Length2
      ensures BoundsAre(Rp95, Rp05, a, b, BoundsAt(field, nsim, win, cfg, fit, choose, t, a, b))
    {
      var col := Column(Vr, a, b);
      assert BoundsAre(Rp95, Rp05, a, b, CIResult(col, cfg, fit, choose, a, b));
      assert BoundsAt(field, nsim, win, cfg, fit, choose, t, a, b) == CIResult(col, cfg, fit, choose, a, b);
    }
  }

  /**
   * One pass of the tile loop of calculateWindHazard: load tile k, fit it,
   * bootstrap it when confidence intervals are requested, and write the
   * results into the tile's region of the grids. The expected fits and
   * bounds are named by the ghost functions hazard and bounds.
   */
  method ProcessTile(store: HazardStore, field: Field, nsim: nat, win: Window, cfg: Config, fit: Fitter,
                     chooser: ChooserFamily, calcCI: bool, k: nat, t: Tile,
                     ghost hazard: (nat, nat) -> Fit, ghost bounds: (nat, nat, nat) -> Bounds)
    requires store.Valid() && store.nyr == |cfg.years|
    requires 0 <= t.xStart <= t.xEnd < store.nx && 0 <= t.yStart <= t.yEnd < store.ny
    requires nsim > 0 && FitterContract(fit, cfg) && ChooserInRange(chooser(k), nsim)
    requires forall y, x {:trigger HazardAt(field, nsim, win, cfg, fit, y, x)} ::
               hazard(y, x) == HazardAt(field, nsim, win, cfg, fit, y, x)
    requires forall a, b {:trigger BoundsAt(field, nsim, win, cfg, fit, chooser(k), t, a, b)} ::
               bounds(k, a, b) == BoundsAt(field, nsim, win, cfg, fit, chooser(k), t, a, b)
    modifies Grids(store)
    ensures forall a, b :: 0 <= a <= t.yEnd - t.yStart && 0 <= b <= t.xEnd - t.xStart ==>
              store.CellHolds(TileRow(t, a), TileCol(t, b), hazard(TileRow(t, a), TileCol(t, b)))
    ensures calcCI ==> forall a, b :: 0 <= a <= t.yEnd - t.yStart && 0 <= b <= t.xEnd - t.xStart ==>
              store.BoundsHold(t.yStart + a, t.xStart + b, bounds(k, a, b))
    ensures forall y, x :: 0 <= y < store.ny && 0 <= x < store.nx && !Contains(t, x, y) ==>
              && store.loc[y, x] == old(store.loc[y, x]) && store.scale[y, x] == old(store.scale[y, x])
              && store.shp[y, x] == old(store.shp[y, x])
    ensures forall yr, y, x :: 0 <= yr < store.nyr && 0 <= y < store.ny && 0 <= x < store.nx ==>
              (!Contains(t, x, y) ==> store.wspd[yr, y, x] == old(store.wspd[yr, y, x])) &&
              (!Contains(t, x, y) || !calcCI ==>
                 store.wspd95[yr, y, x] == old(store.wspd95[yr, y, x]) &&
                 store.wspd05[yr, y, x] == old(store.wspd05[yr, y, x]))
  {
    var Vr := LoadTile(field, nsim, win, t);
    FitTileNamed(store, Vr, field, nsim, win, cfg, fit, t, hazard);
    if calcCI {
      BootstrapCells(store, Vr, field, nsim, win, cfg, fit, chooser, k, t, bounds);
    }
  }

  /** _calculate on the loaded tile, written back: the tile's cells hold the fits named by hazard. */
  method FitTileNamed(store: HazardStore, Vr: array3<real>, field: Field, nsim: nat, win: Window, cfg: Config,
                      fit: Fitter, t: Tile, ghost hazard: (nat, nat) -> Fit)
    requires store.Valid() && store.nyr == |cfg.years|
    requires 0 <= t.xStart <= t.xEnd < store.nx && 0 <= t.yStart <= t.yEnd < store.ny
    requires nsim > 0 && Vr.Length0 == nsim
    requires Vr.Length1 == t.yEnd - t.yStart + 1 && Vr.Length2 == t.xEnd - t.xStart + 1
    requires Vr !in Grids(store) && FitterContract(fit, cfg)
    requires forall a, b :: 0 <= a < Vr.Length1 && 0 <= b < Vr.Length2 ==>
               Column(Vr, a, b) == FieldColumn(field, nsim, Lat(win, t.yStart + a), Lon(win, t.xStart + b))
    requires forall y, x {:trigger HazardAt(field, nsim, win, cfg, fit, y, x)} ::
               hazard(y, x) == HazardAt(field, nsim, win, cfg, fit, y, x)
    modifies Vr, store.loc, store.scale, store.shp, store.wspd
    ensures forall a, b :: 0 <= a < Vr.Length1 && 0 <= b < Vr.Length2 ==>
              Column(Vr, a, b) == TileColumn(field, nsim, win, t, a, b)
    ensures forall a, b :: 0 <= a <= t.yEnd - t.yStart && 0 <= b <= t.xEnd - t.xStart ==>
              store.CellHolds(TileRow(t, a), TileCol(t, b), hazard(TileRow(t, a), TileCol(t, b)))
    ensures forall y, x :: 0 <= y < store.ny && 0 <= x < store.nx && !Contains(t, x, y) ==>
              && store.loc[y, x] == old(store.loc[y, x]) && store.scale[y, x] == old(store.scale[y, x])
              && store.shp[y, x] == old(store.shp[y, x])
    ensures forall yr, y, x :: 0 <= yr < store.nyr && 0 <= y < store.ny && 0 <= x < store.nx && !Contains(t, x, y) ==>
              store.wspd[yr, y, x] == old(store.wspd[yr, y, x])
  {
    FitTile(store, Vr, field, nsim, win, cfg, fit, t);
    forall a, b | 0 <= a <= t.yEnd - t.yStart && 0 <= b <= t.xEnd - t.xStart
      ensures store.CellHolds(TileRow(t, a), TileCol(t, b), hazard(TileRow(t, a), TileCol(t, b)))
    {
      assert store.CellHolds(t.yStart + a, t.xStart + b, TileFit(field, nsim, win, cfg, fit, t, a, b));
      assert TileRow(t, a) == t.yStart + a && TileCol(t, b) == t.xStart + b;
    }
  }

  /** _calculateCI on the tile's sorted ensemble: the tile's cells hold the bounds named by bounds. */
  method BootstrapCells(store: HazardStore, Vr: array3<real>, field: Field, nsim: nat, win: Window, cfg: Config,
                        fit: Fitter, chooser: ChooserFamily, k: nat, t: Tile, ghost bounds: (nat, nat, nat) -> Bounds)
    requires store.Valid() && store.nyr == |cfg.years|
    requires 0 <= t.xStart <= t.xEnd < store.nx && 0 <= t.yStart <= t.yEnd < store.ny
    requires nsim > 0 && Vr.Length0 == nsim
    requires Vr.Length1 == t.yEnd - t.yStart + 1 && Vr.Length2 == t.xEnd - t.xStart + 1
    requires FitterContract(fit, cfg) && ChooserInRange(chooser(k), nsim)
    requires forall a, b :: 0 <= a < Vr.Length1 && 0 <= b < Vr.Length2 ==>
               Column(Vr, a, b) == TileColumn(field, nsim, win, t, a, b)
    requires forall a, b {:trigger BoundsAt(field, nsim, win, cfg, fit, chooser(k), t, a, b)} ::
               bounds(k, a, b) == BoundsAt(field, nsim, win, cfg, fit, chooser(k), t, a, b)
    modifies store.wspd95, store.wspd05
    ensures forall a, b :: 0 <= a <= t.yEnd - t.yStart && 0 <= b <= t.xEnd - t.xStart ==>
              store.BoundsHold(t.yStart + a, t.xStart + b, bounds(k, a, b))
    ensures forall yr, y, x :: 0 <= yr < store.nyr && 0 <= y < store.ny && 0 <= x < store.nx && !Contains(t, x, y) ==>
              store.wspd95[yr, y, x] == old(store.wspd95[yr, y, x]) &&
              store.wspd05[yr, y, x] == old(store.wspd05[yr, y, x])
  {
    BootstrapTile(store, Vr, field, nsim, win, cfg, fit, chooser(k), t);
    forall a, b | 0 <= a <= t.yEnd - t.yStart && 0 <= b <= t.xEnd - t.xStart
      ensures store.BoundsHold(t.yStart + a, t.xStart + b, bounds(k, a, b))
    {
      assert store.BoundsHold(t.yStart + a, t.xStart + b, BoundsAt(field, nsim, win, cfg, fit, chooser(k), t, a, b));
    }
  }

  /** The tiles lie in the grid and no two of them share a cell. */
  ghost predicate Partition(tiles: seq<Tile>, nx: nat, ny: nat) {
    && (forall k :: 0 <= k < |tiles| ==>
          0 <= tiles[k].xStart <= tiles[k].xEnd < nx && 0 <= tiles[k].yStart <= tiles[k].yEnd < ny)
    && (forall k1, k2, x, y :: 0 <= k1 < k2 < |tiles| && Contains(tiles[k1], x, y) ==> !Contains(tiles[k2], x, y))
  }

  /** One pass of the tile loop: tile k is processed and the tiles before it keep their results. */
  method ProcessNextTile(store: HazardStore, field: Field, nsim: nat, win: Window, cfg: Config, fit: Fitter,
                         chooser: ChooserFamily, calcCI: bool, k: nat, t: Tile,
                         ghost tiles: seq<Tile>, ghost hazard: (nat, nat) -> Fit, ghost bounds: (nat, nat, nat) -> Bounds)
    requires store.Valid() && store.nyr == |cfg.years|
    requires k < |tiles| && t == tiles[k] && Partition(tiles, store.nx, store.ny)
    requires nsim > 0 && FitterContract(fit, cfg) && forall k :: ChooserInRange(chooser(k), nsim)
    requires forall y, x {:trigger HazardAt(field, nsim, win, cfg, fit, y, x)} ::
               hazard(y, x) == HazardAt(field, nsim, win, cfg, fit, y, x)
    requires forall k, a, b {:trigger BoundsAt(field, nsim, win, cfg, fit, chooser(k), tiles[k], a, b)} ::
               0 <= k < |tiles| ==> bounds(k, a, b) == BoundsAt(field, nsim, win, cfg, fit, chooser(k), tiles[k], a, b)
    requires forall y, x, k' :: 0 <= y < store.ny && 0 <= x < store.nx && 0 <= k' < k && Contains(tiles[k'], x, y) ==>
               store.CellHolds(y, x, hazard(y, x))
    requires calcCI ==>
               forall k', a, b :: 0 <= k' < k && 0 <= a <= tiles[k'].yEnd - tiles[k'].yStart &&
                                  0 <= b <= tiles[k'].xEnd - tiles[k'].xStart ==>
                 store.BoundsHold(tiles[k'].yStart + a, tiles[k'].xStart + b, bounds(k', a, b))
    modifies Grids(store)
    ensures forall y, x, k' :: 0 <= y < store.ny && 0 <= x < store.nx && 0 <= k' <= k && Contains(tiles[k'], x, y) ==>
              store.CellHolds(y, x, hazard(y, x))
    ensures calcCI ==>
              forall k', a, b :: 0 <= k' <= k && 0 <= a <= tiles[k'].yEnd - tiles[k'].yStart &&
                                 0 <= b <= tiles[k'].xEnd - tiles[k'].xStart ==>
                store.BoundsHold(tiles[k'].yStart + a, tiles[k'].xStart + b, bounds(k', a, b))
    ensures !calcCI ==> forall yr, y, x :: 0 <= yr < store.nyr && 0 <= y < store.ny && 0 <= x < store.nx ==>
              store.wspd95[yr, y, x] == old(store.wspd95[yr, y, x]) &&
              store.wspd05[yr, y, x] == old(store.wspd05[yr, y, x])
  {
    label before:
    ProcessTile(store, field, nsim, win, cfg, fit, chooser, calcCI, k, t, hazard, bounds);
    forall y, x, k' | 0 <= y < store.ny && 0 <= x < store.nx && 0 <= k' <= k && Contains(tiles[k'], x, y)
      ensures store.CellHolds(y, x, hazard(y, x))
    {
      if k' == k {
        var a, b := y - t.yStart, x - t.xStart;
        assert store.CellHolds(TileRow(t, a), TileCol(t, b), hazard(TileRow(t, a), TileCol(t, b)));
      } else {
        assert !Contains(t, x, y);
        assert old@before(store.CellHolds(y, x, hazard(y, x)));
      }
    }
    if calcCI {
      forall k', a, b | 0 <= k' <= k && 0 <= a <= tiles[k'].yEnd - tiles[k'].yStart &&
                        0 <= b <= tiles[k'].xEnd - tiles[k'].xStart
        ensures store.BoundsHold(tiles[k'].yStart + a, tiles[k'].xStart + b, bounds(k', a, b))
      {
        if k' < k {
          assert Contains(tiles[k'], tiles[k'].xStart + b, tiles[k'].yStart + a);
          assert !Contains(t, tiles[k'].xStart + b, tiles[k'].yStart + a);
          assert old@before(store.BoundsHold(tiles[k'].yStart + a, tiles[k'].xStart + b, bounds(k', a, b)));
        }
      }
    }
  }

  /**
   * The tile loop of calculateWindHazard over the edge arrays, which hold
   * the tiles of a partition: every cell of a tile holds its fit and, with
   * confidence intervals on, the bootstrap bounds of that tile.
   */
  method ProcessTiles(store: HazardStore, field: Field, nsim: nat, win: Window, cfg: Config, fit: Fitter,
                      chooser: ChooserFamily, calcCI: bool, xs: array<int>, xe: array<int>, ys: array<int>, ye: array<int>,
                      ghost tiles: seq<Tile>, ghost hazard: (nat, nat) -> Fit, ghost bounds: (nat, nat, nat) -> Bounds)
    requires store.Valid() && store.nyr == |cfg.years|
    requires xs.Length == xe.Length == ys.Length == ye.Length == |tiles|
    requires forall k :: 0 <= k < |tiles| ==> Tile(xs[k], xe[k], ys[k], ye[k]) == tiles[k]
    requires Partition(tiles, store.nx, store.ny)
    requires nsim > 0 && FitterContract(fit, cfg) && forall k :: ChooserInRange(chooser(k), nsim)
    requires forall y, x {:trigger HazardAt(field, nsim, win, cfg, fit, y, x)} ::
               hazard(y, x) == HazardAt(field, nsim, win, cfg, fit, y, x)
    requires forall k, a, b {:trigger BoundsAt(field, nsim, win, cfg, fit, chooser(k), tiles[k], a, b)} ::
               0 <= k < |tiles| ==> bounds(k, a, b) == BoundsAt(field, nsim, win, cfg, fit, chooser(k), tiles[k], a, b)
    modifies Grids(store)
    ensures forall y, x, k :: 0 <= y < store.ny && 0 <= x < store.nx && 0 <= k < |tiles| && Contains(tiles[k], x, y) ==>
              store.CellHolds(y, x, hazard(y, x))
    ensures calcCI ==>
              forall k, a, b :: 0 <= k < |tiles| && 0 <= a <= tiles[k].yEnd - tiles[k].yStart &&
                                0 <= b <= tiles[k].xEnd - tiles[k].xStart ==>
                store.BoundsHold(tiles[k].yStart + a, tiles[k].xStart + b, bounds(k, a, b))
    ensures !calcCI ==> forall yr, y, x :: 0 <= yr < store.nyr && 0 <= y < store.ny && 0 <= x < store.nx ==>
              store.wspd95[yr, y, x] == old(store.wspd95[yr, y, x]) &&
              store.wspd05[yr, y, x] == old(store.wspd05[yr, y, x])
  {
    for k := 0 to xs.Length
      invariant forall y, x, k' :: 0 <= y < store.ny && 0 <= x < store.nx && 0 <= k' < k && Contains(tiles[k'], x, y) ==>
                  store.CellHolds(y, x, hazard(y, x))
      invariant calcCI ==>
                  forall k', a, b :: 0 <= k' < k && 0 <= a <= tiles[k'].yEnd - tiles[k'].yStart &&
                                     0 <= b <= tiles[k'].xEnd - tiles[k'].xStart ==>
                    store.BoundsHold(tiles[k'].yStart + a, tiles[k'].xStart + b, bounds(k', a, b))
      invariant !calcCI ==> forall yr, y, x :: 0 <= yr < store.nyr && 0 <= y < store.ny && 0 <= x < store.nx ==>
                  store.wspd95[yr, y, x] == old(store.wspd95[yr, y, x]) &&
                  store.wspd05[yr, y, x] == old(store.wspd05[yr, y, x])
    {
      var t := Tile(xs[k], xe[k], ys[k], ye[k]);
      assert t == tiles[k];
      ProcessNextTile(store, field, nsim, win, cfg, fit, chooser, calcCI, k, t, tiles, hazard, bounds);
    }
  }

  /** Bounds stored through the ghost function bounds are the bootstrap bounds it names. */
  lemma TileBoundsNamed(store: HazardStore, field: Field, nsim: nat, win: Window, cfg: Config, fit: Fitter,
                        chooser: ChooserFamily, tiles: seq<Tile>, bounds: (nat, nat, nat) -> Bounds)
    requires store.Valid()
    requires nsim > 0 && FitterContract(fit, cfg) && forall k :: ChooserInRange(chooser(k), nsim)
    requires forall k :: 0 <= k < |tiles| ==> 0 <= tiles[k].yStart && 0 <= tiles[k].xStart
    requires forall k, a, b {:trigger BoundsAt(field, nsim, win, cfg, fit, chooser(k), tiles[k], a, b)} ::
               0 <= k < |tiles| ==> bounds(k, a, b) == BoundsAt(field, nsim, win, cfg, fit, chooser(k), tiles[k], a, b)
    requires forall k, a, b :: 0 <= k < |tiles| && 0 <= a <= tiles[k].yEnd - tiles[k].yStart &&
                               0 <= b <= tiles[k].xEnd - tiles[k].xStart ==>
               store.BoundsHold(tiles[k].yStart + a, tiles[k].xStart + b, bounds(k, a, b))
    ensures forall k, a, b :: 0 <= k < |tiles| && 0 <= a <= tiles[k].yEnd - tiles[k].yStart &&
                              0 <= b <= tiles[k].xEnd - tiles[k].xStart ==>
              0 <= tiles[k].yStart && 0 <= tiles[k].xStart &&
              store.BoundsHold(tiles[k].yStart + a, tiles[k].xStart + b,
                               BoundsAt(field, nsim, win, cfg, fit, chooser(k), tiles[k], a, b))
  {
    forall k, a, b | 0 <= k < |tiles| && 0 <= a <= tiles[k].yEnd - tiles[k].yStart &&
                     0 <= b <= tiles[k].xEnd - tiles[k].xStart
      ensures store.BoundsHold(tiles[k].yStart + a, tiles[k].xStart + b,
                               BoundsAt(field, nsim, win, cfg, fit, chooser(k), tiles[k], a, b))
    {
      assert store.BoundsHold(tiles[k].yStart + a, tiles[k].xStart + b, bounds(k, a, b));
    }
  }

  /**
   * The tile loop with the expected fits and bounds named by their
   * definitions: HazardAt for every covered cell, BoundsAt for every
   * position of every tile.
   */
  method RunTiles(store: HazardStore, field: Field, nsim: nat, win: Window, cfg: Config, fit: Fitter,
                  chooser: ChooserFamily, calcCI: bool, xs: array<int>, xe: array<int>, ys: array<int>, ye: array<int>,
                  ghost tiles: seq<Tile>)
    requires store.Valid() && store.nyr == |cfg.years|
    requires xs.Length == xe.Length == ys.Length == ye.Length == |tiles|
    requires forall k :: 0 <= k < |tiles| ==> Tile(xs[k], xe[k], ys[k], ye[k]) == tiles[k]
    requires Partition(tiles, store.nx, store.ny)
    requires nsim > 0 && FitterContract(fit, cfg) && forall k :: ChooserInRange(chooser(k), nsim)
    modifies Grids(store)
    ensures forall y, x, k :: 0 <= y < store.ny && 0 <= x < store.nx && 0 <= k < |tiles| && Contains(tiles[k], x, y) ==>
              store.CellHolds(y, x, HazardAt(field, nsim, win, cfg, fit, y, x))
    ensures calcCI ==>
              forall k, a, b :: 0 <= k < |tiles| && 0 <= a <= tiles[k].yEnd - tiles[k].yStart &&
                                0 <= b <= tiles[k].xEnd - tiles[k].xStart ==>
                0 <= tiles[k].yStart && 0 <= tiles[k].xStart &&
                store.BoundsHold(tiles[k].yStart + a, tiles[k].xStart + b,
                                 BoundsAt(field, nsim, win, cfg, fit, chooser(k), tiles[k], a, b))
    ensures !calcCI ==> forall yr, y, x :: 0 <= yr < store.nyr && 0 <= y < store.ny && 0 <= x < store.nx ==>
              store.wspd95[yr, y, x] == old(store.wspd95[yr, y, x]) &&
              store.wspd05[yr, y, x] == old(store.wspd05[yr, y, x])
  {
    ghost var hazard := (y: nat, x: nat) => HazardAt(field, nsim, win, cfg, fit, y, x);
    ghost var bounds := (k: nat, a: nat, b: nat) =>
      if k < |tiles| && 0 <= tiles[k].yStart && 0 <= tiles[k].xStart
      then BoundsAt(field, nsim, win, cfg, fit, chooser(k), tiles[k], a, b)
      else Bounds([], []);
    ProcessTiles(store, field, nsim, win, cfg, fit, chooser, calcCI, xs, xe, ys, ye, tiles, hazard, bounds);
    forall y, x, k | 0 <= y < store.ny && 0 <= x < store.nx && 0 <= k < |tiles| && Contains(tiles[k], x, y)
      ensures store.CellHolds(y, x, HazardAt(field, nsim, win, cfg, fit, y, x))
    {
      assert store.CellHolds(y, x, hazard(y, x));
    }
    if calcCI {
      TileBoundsNamed(store, field, nsim, win, cfg, fit, chooser, tiles, bounds);
    }
  }

  /**
   * calculateWindHazard: the window is cut into 20 by 20 tiles and every
   * tile is processed in turn. Afterwards every cell of the window holds
   * the fit of its own ensemble, and with confidence intervals on every
   * cell holds the bootstrap bounds of the tile that contains it.
   */
  method CalculateWindHazard(store: HazardStore, field: Field, nsim: nat, win: Window, cfg: Config, fit: Fitter,
                             chooser: ChooserFamily, calcCI: bool)
    requires win.imin <= win.imax && win.jmin <= win.jmax
    requires store.Valid() && store.nx == XDim(win) && store.ny == YDim(win) && store.nyr == |cfg.years|
    requires nsim > 0 && FitterContract(fit, cfg) && forall k :: ChooserInRange(chooser(k), nsim)
    modifies Grids(store)
    ensures forall y, x :: 0 <= y < store.ny && 0 <= x < store.nx ==>
              store.CellHolds(y, x, HazardAt(field, nsim, win, cfg, fit, y, x))
    ensures calcCI ==>
              var tiles := SubsetEdges(XDim(win), YDim(win), TileStep, TileStep);
              forall k, a, b :: 0 <= k < |tiles| && 0 <= a <= tiles[k].yEnd - tiles[k].yStart &&
                                0 <= b <= tiles[k].xEnd - tiles[k].xStart ==>
                0 <= tiles[k].yStart && 0 <= tiles[k].xStart &&
                store.BoundsHold(tiles[k].yStart + a, tiles[k].xStart + b,
                                 BoundsAt(field, nsim, win, cfg, fit, chooser(k), tiles[k], a, b))
    ensures !calcCI ==> forall yr, y, x :: 0 <= yr < store.nyr && 0 <= y < store.ny && 0 <= x < store.nx ==>
              store.wspd95[yr, y, x] == old(store.wspd95[yr, y, x]) &&
              store.wspd05[yr, y, x] == old(store.wspd05[yr, y, x])
  {
    var xDim, yDim := XDim(win), YDim(win);
    var xs, xe, ys, ye := ReturnSubsetEdges(xDim, yDim, TileStep, TileStep);
    ghost var tiles := SubsetEdges(xDim, yDim, TileStep, TileStep);
    assert xs.Length == |tiles| by { TileCount(xDim, yDim, TileStep, TileStep); }
    forall k | 0 <= k < |tiles|
      ensures 0 <= tiles[k].xStart <= tiles[k].xEnd < xDim && 0 <= tiles[k].yStart <= tiles[k].yEnd < yDim
    {
      TileInBounds(xDim, yDim, TileStep, TileStep, k);
    }
    forall k1, k2, x, y | 0 <= k1 < k2 < |tiles| && Contains(tiles[k1], x, y)
      ensures !Contains(tiles[k2], x, y)
    {
      TilePartition(xDim, yDim, TileStep, TileStep, x, y, k1);
      TilePartition(xDim, yDim, TileStep, TileStep, x, y, k2);
    }
    RunTiles(store, field, nsim, win, cfg, fit, chooser, calcCI, xs, xe, ys, ye, tiles);
    forall y, x | 0 <= y < yDim && 0 <= x < xDim
      ensures store.CellHolds(y, x, HazardAt(field, nsim, win, cfg, fit, y, x))
    {
      var k := TileIndex(x, y, yDim, TileStep, TileStep);
      TileIndexInRange(xDim, yDim, TileStep, TileStep, x, y);
      TilePartition(xDim, yDim, TileStep, TileStep, x, y, k);
    }
  }

  /** [a.min(), a.max()] of a two-dimensional grid: both bound every entry and both occur in it. */
  ghost predicate IsRange2(a: array2<real>, lo: real, hi: real)
    reads a
  {
    && (forall i, j :: 0 <= i < a.Length0 && 0 <= j < a.Length1 ==> lo <= a[i, j] <= hi)
    && (exists i, j :: 0 <= i < a.Length0 && 0 <= j < a.Length1 && a[i, j] == lo)
    && (exists i, j :: 0 <= i < a.Length0 && 0 <= j < a.Length1 && a[i, j] == hi)
  }

  /** The same for a three-dimensional grid. */
  ghost predicate IsRange3(a: array3<real>, lo: real, hi: real)
    reads a
  {
    && (forall n, i, j :: 0 <= n < a.Length0 && 0 <= i < a.Length1 && 0 <= j < a.Length2 ==> lo <= a[n, i, j] <= hi)
    && (exists n, i, j :: 0 <= n < a.Length0 && 0 <= i < a.Length1 && 0 <= j < a.Length2 && a[n, i, j] == lo)
    && (exists n, i, j :: 0 <= n < a.Length0 && 0 <= i < a.Length1 && 0 <= j < a.Length2 && a[n, i, j] == hi)
  }

  /** The 'actual_range' attribute of a two-dimensional variable; min() of an empty array raises ValueError. */
  method Range2(a: array2<real>) returns (r: Result<(real, real)>)
    ensures r.Err? <==> a.Length0 == 0 || a.Length1 == 0
    ensures r.Err? ==> r.error == ValueError
    ensures r.Ok? ==> IsRange2(a, r.value.0, r.value.1)
  {
    if a.Length0 == 0 || a.Length1 == 0 {
      return Err(ValueError);
    }
    var lo, hi := a[0, 0], a[0, 0];
    ghost var li, lj, hi', hj := 0, 0, 0, 0;
    for i := 0 to a.Length0
      invariant forall i', j' :: 0 <= i' < i && 0 <= j' < a.Length1 ==> lo <= a[i', j'] <= hi
      invariant 0 <= li < a.Length0 && 0 <= lj < a.Length1 && a[li, lj] == lo
      invariant 0 <= hi' < a.Length0 && 0 <= hj < a.Length1 && a[hi', hj] == hi
    {
      for j := 0 to a.Length1
        invariant forall i', j' :: 0 <= i' < i && 0 <= j' < a.Length1 ==> lo <= a[i', j'] <= hi
        invariant forall j' :: 0 <= j' < j ==> lo <= a[i, j'] <= hi
        invariant 0 <= li < a.Length0 && 0 <= lj < a.Length1 && a[li, lj] == lo
        invariant 0 <= hi' < a.Length0 && 0 <= hj < a.Length1 && a[hi', hj] == hi
      {
        if a[i, j] < lo {
          lo, li, lj := a[i, j], i, j;
        }
        if a[i, j] > hi {
          hi, hi', hj := a[i, j], i, j;
        }
      }
    }
    r := Ok((lo, hi));
  }

  /** The 'actual_range' attribute of a three-dimensional variable. */
  method Range3(a: array3<real>) returns (r: Result<(real, real)>)
    ensures r.Err? <==> a.Length0 == 0 || a.Length1 == 0 || a.Length2 == 0
    ensures r.Err? ==> r.error == ValueError
    ensures r.Ok? ==> IsRange3(a, r.value.0, r.value.1)
  {
    if a.Length0 == 0 || a.Length1 == 0 || a.Length2 == 0 {
      return Err(ValueError);
    }
    var lo, hi := a[0, 0, 0], a[0, 0, 0];
    ghost var ln, li, lj, hn, hi', hj := 0, 0, 0, 0, 0, 0;
    for n := 0 to a.Length0
      invariant forall n', i', j' :: 0 <= n' < n && 0 <= i' < a.Length1 && 0 <= j' < a.Length2 ==>
                  lo <= a[n', i', j'] <= hi
      invariant 0 <= ln < a.Length0 && 0 <= li < a.Length1 && 0 <= lj < a.Length2 && a[ln, li, lj] == lo
      invariant 0 <= hn < a.Length0 && 0 <= hi' < a.Length1 && 0 <= hj < a.Length2 && a[hn, hi', hj] == hi
    {
      for i := 0 to a.Length1
        invariant forall n', i', j' :: 0 <= n' < n && 0 <= i' < a.Length1 && 0 <= j' < a.Length2 ==>
                    lo <= a[n', i', j'] <= hi
        invariant forall i', j' :: 0 <= i' < i && 0 <= j' < a.Length2 ==> lo <= a[n, i', j'] <= hi
        invariant 0 <= ln < a.Length0 && 0 <= li < a.Length1 && 0 <= lj < a.Length2 && a[ln, li, lj] == lo
        invariant 0 <= hn < a.Length0 && 0 <= hi' < a.Length1 && 0 <= hj < a.Length2 && a[hn, hi', hj] == hi
      {
        for j := 0 to a.Length2
          invariant forall n', i', j' :: 0 <= n' < n && 0 <= i' < a.Length1 && 0 <= j' < a.Length2 ==>
                      lo <= a[n', i', j'] <= hi
          invariant forall i', j' :: 0 <= i' < i && 0 <= j' < a.Length2 ==> lo <= a[n, i', j'] <= hi
          invariant forall j' :: 0 <= j' < j ==> lo <= a[n, i, j'] <= hi
          invariant 0 <= ln < a.Length0 && 0 <= li < a.Length1 && 0 <= lj < a.Length2 && a[ln, li, lj] == lo
          invariant 0 <= hn < a.Length0 && 0 <= hi' < a.Length1 && 0 <= hj < a.Length2 && a[hn, hi', hj] == hi
        {
          if a[n, i, j] < lo {
            lo, ln, li, lj := a[n, i, j], n, i, j;
          }
          if a[n, i, j] > hi {
            hi, hn, hi', hj := a[n, i, j], n, i, j;
          }
        }
      }
    }
    r := Ok((lo, hi));
  }

  /** The 'actual_range' attributes written at the end of calculateWindHazard. */
  datatype ActualRanges = ActualRanges(wspd: Result<(real, real)>, loc: Result<(real, real)>,
                                       scale: Result<(real, real)>, shp: Result<(real, real)>,
                                       wspd95: Option<Result<(real, real)>>, wspd05: Option<Result<(real, real)>>)

  /** Records the range of every output variable; the percentile grids only when they were computed. */
  method RecordRanges(store: HazardStore, calcCI: bool) returns (r: ActualRanges)
    requires store.Valid()
    ensures r.wspd.Ok? <==> store.nyr > 0 && store.ny > 0 && store.nx > 0
    ensures r.loc.Ok? <==> store.ny > 0 && store.nx > 0
    ensures r.scale.Ok? <==> store.ny > 0 && store.nx > 0
    ensures r.shp.Ok? <==> store.ny > 0 && store.nx > 0
    ensures r.wspd.Ok? ==> IsRange3(store.wspd, r.wspd.value.0, r.wspd.value.1)
    ensures r.loc.Ok? ==> IsRange2(store.loc, r.loc.value.0, r.loc.value.1)
    ensures r.scale.Ok? ==> IsRange2(store.scale, r.scale.value.0, r.scale.value.1)
    ensures r.shp.Ok? ==> IsRange2(store.shp, r.shp.value.0, r.shp.value.1)
    ensures r.wspd95.Some? <==> calcCI
    ensures r.wspd05.Some? <==> calcCI
    ensures r.wspd95.Some? ==> (r.wspd95.value.Ok? <==> store.nyr > 0 && store.ny > 0 && store.nx > 0)
    ensures r.wspd05.Some? ==> (r.wspd05.value.Ok? <==> store.nyr > 0 && store.ny > 0 && store.nx > 0)
    ensures r.wspd95.Some? && r.wspd95.value.Ok? ==>
              IsRange3(store.wspd95, r.wspd95.value.value.0, r.wspd95.value.value.1)
    ensures r.wspd05.Some? && r.wspd05.value.Ok? ==>
              IsRange3(store.wspd05, r.wspd05.value.value.0, r.wspd05.value.value.1)
  {
    var w := Range3(store.wspd);
    var l := Range2(store.loc);
    var s := Range2(store.scale);
    var h := Range2(store.shp);
    var w95, w05 := PercentileRanges(store, calcCI);
    r := ActualRanges(w, l, s, h, w95, w05);
  }

  /** The ranges of the two percentile grids, when they were computed. */
  method PercentileRanges(store: HazardStore, calcCI: bool)
    returns (w95: Option<Result<(real, real)>>, w05: Option<Result<(real, real)>>)
    requires store.Valid()
    ensures w95.Some? <==> calcCI
    ensures w05.Some? <==> calcCI
    ensures w95.Some? ==> (w95.value.Ok? <==> store.nyr > 0 && store.ny > 0 && store.nx > 0)
    ensures w05.Some? ==> (w05.value.Ok? <==> store.nyr > 0 && store.ny > 0 && store.nx > 0)
    ensures w95.Some? && w95.value.Ok? ==> IsRange3(store.wspd95, w95.value.value.0, w95.value.value.1)
    ensures w05.Some? && w05.value.Ok? ==> IsRange3(store.wspd05, w05.value.value.0, w05.value.value.1)
  {
    w95, w05 := None, None;
    if calcCI {
      var a := Range3(store.wspd95);
      var b := Range3(store.wspd05);
      w95, w05 := Some(a), Some(b);
    }
  }

  /**
   * After calculateWindHazard with confidence intervals on, no stored lower
   * bound (wspd05) exceeds the stored upper bound (wspd95) of the same cell
   * and return period.
   */
  lemma StoredBoundsOrdered(store: HazardStore, field: Field, nsim: nat, win: Window, cfg: Config, fit: Fitter,
                            choose: Chooser, t: Tile, a: nat, b: nat, yr: nat)
    requires store.Valid() && store.nyr == |cfg.years| && yr < store.nyr
    requires nsim > 0 && FitterContract(fit, cfg) && ChooserInRange(choose, nsim)
    requires 0 <= t.yStart && 0 <= t.xStart
    requires store.BoundsHold(t.yStart + a, t.xStart + b, BoundsAt(field, nsim, win, cfg, fit, choose, t, a, b))
    ensures store.wspd05[yr, t.yStart + a, t.xStart + b] <= store.wspd95[yr, t.yStart + a, t.xStart + b]
  {
    var col := TileColumn(field, nsim, win, t, a, b);
    BoundsOrdered(col, cfg, fit, choose, a, b, yr);
  }
}
