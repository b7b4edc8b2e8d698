/**
 * The spatial tiling of the hazard grid: an x_dim by y_dim domain is cut
 * into rectangles of at most x_step by y_step cells, column of tiles by
 * column of tiles, so that no working array has to hold the whole grid.
 */
module Tiling {

  /** One tile: the inclusive column range xStart..xEnd and row range yStart..yEnd. */
  datatype Tile = Tile(xStart: int, xEnd: int, yStart: int, yEnd: int)

  predicate Contains(t: Tile, x: int, y: int) {
    t.xStart <= x <= t.xEnd && t.yStart <= y <= t.yEnd
  }

  /** ceil(dim / float(step)) for a positive step. */
  function CeilDiv(dim: nat, step: nat): nat
    requires step > 0
  {
    (dim + step - 1) / step
  }

  /** CeilDiv is the ceiling: the fewest steps whose total reaches dim. */
  lemma CeilDivIsCeiling(dim: nat, step: nat)
    requires step > 0
    ensures CeilDiv(dim, step) * step >= dim
    ensures dim > 0 ==> (CeilDiv(dim, step) - 1) * step < dim
    ensures dim == 0 <==> CeilDiv(dim, step) == 0
  {
    var c := CeilDiv(dim, step);
    var r := (dim + step - 1) % step;
    assert dim + step - 1 == c * step + r;
    assert c * step == dim + step - 1 - r;
    if dim > 0 {
      assert (c - 1) * step == c * step - step;
    }
  }

  lemma MulLeMono(a: int, b: int, s: nat)
    requires a <= b
    ensures a * s <= b * s
  {
    assert b * s - a * s == (b - a) * s;
  }

  lemma LtFromMul(a: int, b: int, s: nat)
    requires s > 0 && a * s < b * s
    ensures a < b
  {
    assert b * s - a * s == (b - a) * s;
  }

  /** Splits a flat index into its quotient and remainder by `rows`. */
  lemma DivModUnique(i: nat, j: nat, rows: nat)
    requires j < rows
    ensures (i * rows + j) / rows == i && (i * rows + j) % rows == j
  {
    var a := i * rows + j;
    var q, r := a / rows, a % rows;
    assert a == q * rows + r;
    assert (i + 1) * rows == i * rows + rows;
    assert (q + 1) * rows == q * rows + rows;
    LtFromMul(q, i + 1, rows);
    LtFromMul(i, q + 1, rows);
  }

  /**
   * The k-th tile in the order the nested loops produce: outer loop over
   * tile columns i, inner loop over tile rows j, k = i * rows + j.
   */
  function TileAt(k: nat, xDim: nat, yDim: nat, xStep: nat, yStep: nat): (r: Tile)
    requires xStep > 0 && yStep > 0 && CeilDiv(yDim, yStep) > 0
    ensures r.xEnd < xDim && r.yEnd < yDim
    ensures r.xEnd - r.xStart < xStep && r.yEnd - r.yStart < yStep
  {
    var rows := CeilDiv(yDim, yStep);
    var i, j := k / rows, k % rows;
    assert (i + 1) * xStep == i * xStep + xStep && (j + 1) * yStep == j * yStep + yStep;
    Tile(i * xStep, Min((i + 1) * xStep, xDim) - 1, j * yStep, Min((j + 1) * yStep, yDim) - 1)
  }

  function Min(a: int, b: int): int { if a <= b then a else b }

  /** All tiles of the domain, in loop order: the reference the tiling method is proved against. */
  function SubsetEdges(xDim: nat, yDim: nat, xStep: nat, yStep: nat): (r: seq<Tile>)
    requires xStep > 0 && yStep > 0
    ensures |r| == CeilDiv(xDim, xStep) * CeilDiv(yDim, yStep)
  {
    var cols, rows := CeilDiv(xDim, xStep), CeilDiv(yDim, yStep);
    if rows == 0 then []
    else seq(cols * rows, k requires 0 <= k < cols * rows => TileAt(k, xDim, yDim, xStep, yStep))
  }

  /** The index of the tile that holds cell (x, y). */
  function TileIndex(x: nat, y: nat, yDim: nat, xStep: nat, yStep: nat): nat
    requires xStep > 0 && yStep > 0
  {
    var col: nat := x / xStep;
    var rows: nat := CeilDiv(yDim, yStep);
    col * rows + y / yStep
  }

  /** The number of tiles is ceil(x_dim/x_step) * ceil(y_dim/y_step). */
  lemma TileCount(xDim: nat, yDim: nat, xStep: nat, yStep: nat)
    requires xStep > 0 && yStep > 0
    ensures |SubsetEdges(xDim, yDim, xStep, yStep)| == CeilDiv(xDim, xStep) * CeilDiv(yDim, yStep)
    ensures |SubsetEdges(xDim, yDim, xStep, yStep)| == 0 <==> xDim == 0 || yDim == 0
  {
    var cols, rows := CeilDiv(xDim, xStep), CeilDiv(yDim, yStep);
    CeilDivIsCeiling(xDim, xStep);
    CeilDivIsCeiling(yDim, yStep);
    if cols > 0 && rows > 0 {
      assert cols * rows >= 1 * rows;
    }
  }

  /** One bound of a clipped range: the k-th step of a dimension lies inside it. */
  lemma StepInBounds(i: nat, dim: nat, step: nat)
    requires step > 0 && i < CeilDiv(dim, step)
    ensures 0 <= i * step <= Min((i + 1) * step, dim) - 1 <= dim - 1
    ensures Min((i + 1) * step, dim) - 1 - i * step < step
  {
    CeilDivIsCeiling(dim, step);
    MulLeMono(i, CeilDiv(dim, step) - 1, step);
    assert (i + 1) * step == i * step + step;
  }

  /** Every tile is clipped to the domain and is at most one step wide and high. */
  lemma TileInBounds(xDim: nat, yDim: nat, xStep: nat, yStep: nat, k: nat)
    requires xStep > 0 && yStep > 0
    requires k < |SubsetEdges(xDim, yDim, xStep, yStep)|
    ensures var t := SubsetEdges(xDim, yDim, xStep, yStep)[k];
            && 0 <= t.xStart <= t.xEnd <= xDim - 1 && t.xEnd - t.xStart + 1 <= xStep
            && 0 <= t.yStart <= t.yEnd <= yDim - 1 && t.yEnd - t.yStart + 1 <= yStep
  {
    var cols, rows := CeilDiv(xDim, xStep), CeilDiv(yDim, yStep);
    var i, j := k / rows, k % rows;
    assert k == i * rows + j;
    assert i < cols by {
      assert i * rows <= k < cols * rows;
      LtFromMul(i, cols, rows);
    }
    StepInBounds(i, xDim, xStep);
    StepInBounds(j, yDim, yStep);
  }

  /** The k-th entry of the tile sequence is the k-th tile of the loop order. */
  lemma SubsetEdgesAt(xDim: nat, yDim: nat, xStep: nat, yStep: nat, k: nat)
    requires xStep > 0 && yStep > 0
    requires k < |SubsetEdges(xDim, yDim, xStep, yStep)|
    ensures CeilDiv(yDim, yStep) > 0
    ensures SubsetEdges(xDim, yDim, xStep, yStep)[k] == TileAt(k, xDim, yDim, xStep, yStep)
  {
  }

  /** A coordinate lies in the i-th clipped step of its dimension exactly when v / step == i. */
  lemma InStep(v: nat, dim: nat, step: nat, i: nat)
    requires step > 0 && v < dim
    ensures (i * step <= v <= Min((i + 1) * step, dim) - 1) <==> v / step == i
  {
    assert (i + 1) * step == i * step + step;
    if i * step <= v <= Min((i + 1) * step, dim) - 1 {
      StepOwner(v, step, i);
    }
    if v / step == i {
      assert v == i * step + v % step;
    }
  }

  /** Cell (x, y) lies in tile k exactly when k is TileIndex(x, y): no gaps and no overlaps. */
  lemma TilePartition(xDim: nat, yDim: nat, xStep: nat, yStep: nat, x: nat, y: nat, k: nat)
    requires xStep > 0 && yStep > 0 && x < xDim && y < yDim
    requires k < |SubsetEdges(xDim, yDim, xStep, yStep)|
    ensures Contains(SubsetEdges(xDim, yDim, xStep, yStep)[k], x, y)
        <==> k == TileIndex(x, y, yDim, xStep, yStep)
  {
    SubsetEdgesAt(xDim, yDim, xStep, yStep, k);
    var t := TileAt(k, xDim, yDim, xStep, yStep);
    var own := TileIndex(x, y, yDim, xStep, yStep);
    assert Contains(t, x, y) ==> k == own by {
      OnlyOwnTile(xDim, yDim, xStep, yStep, x, y, k);
    }
    assert k == own ==> Contains(t, x, y) by {
      if k == own {
        OwnTileContains(xDim, yDim, xStep, yStep, x, y, k);
      }
    }
  }

  /** The tile in column i and row j of the tile layout sits at flat index i * rows + j. */
  lemma TileAtSplit(xDim: nat, yDim: nat, xStep: nat, yStep: nat, i: nat, j: nat)
    requires xStep > 0 && yStep > 0 && j < CeilDiv(yDim, yStep)
    ensures TileAt(i * CeilDiv(yDim, yStep) + j, xDim, yDim, xStep, yStep)
         == Tile(i * xStep, Min((i + 1) * xStep, xDim) - 1, j * yStep, Min((j + 1) * yStep, yDim) - 1)
  {
    DivModUnique(i, j, CeilDiv(yDim, yStep));
  }

  lemma OnlyOwnTile(xDim: nat, yDim: nat, xStep: nat, yStep: nat, x: nat, y: nat, k: nat)
    requires xStep > 0 && yStep > 0 && x < xDim && y < yDim && CeilDiv(yDim, yStep) > 0
    ensures Contains(TileAt(k, xDim, yDim, xStep, yStep), x, y)
        ==> k == TileIndex(x, y, yDim, xStep, yStep)
  {
    var rows := CeilDiv(yDim, yStep);
    var i, j := k / rows, k % rows;
    assert k == i * rows + j;
    InStep(x, xDim, xStep, i);
    InStep(y, yDim, yStep, j);
  }

  lemma OwnTileContains(xDim: nat, yDim: nat, xStep: nat, yStep: nat, x: nat, y: nat, k: nat)
    requires xStep > 0 && yStep > 0 && x < xDim && y < yDim && CeilDiv(yDim, yStep) > 0
    requires k == TileIndex(x, y, yDim, xStep, yStep)
    ensures Contains(TileAt(k, xDim, yDim, xStep, yStep), x, y)
  {
    var rows := CeilDiv(yDim, yStep);
    StepBelowCeiling(y, yDim, yStep);
    DivModUnique(x / xStep, y / yStep, rows);
    InStep(x, xDim, xStep, x / xStep);
    InStep(y, yDim, yStep, y / yStep);
  }

  /** The step that contains a coordinate is the coordinate divided by the step. */
  lemma StepOwner(v: nat, step: nat, i: nat)
    requires step > 0 && i * step <= v < (i + 1) * step
    ensures v / step == i
  {
    DivModUnique(i, v - i * step, step);
  }

  lemma StepBelowCeiling(v: nat, dim: nat, step: nat)
    requires step > 0 && v < dim
    ensures v / step < CeilDiv(dim, step)
  {
    CeilDivIsCeiling(dim, step);
    var q := v / step;
    assert q * step <= v;
    LtFromMul(q, CeilDiv(dim, step), step);
  }

  /** Every cell of the domain has its tile among the tiles produced. */
  lemma TileIndexInRange(xDim: nat, yDim: nat, xStep: nat, yStep: nat, x: nat, y: nat)
    requires xStep > 0 && yStep > 0 && x < xDim && y < yDim
    ensures TileIndex(x, y, yDim, xStep, yStep) < |SubsetEdges(xDim, yDim, xStep, yStep)|
  {
    var cols, rows := CeilDiv(xDim, xStep), CeilDiv(yDim, yStep);
    StepBelowCeiling(x, xDim, xStep);
    StepBelowCeiling(y, yDim, yStep);
    var i, j := x / xStep, y / yStep;
    assert i * rows + j < (i + 1) * rows;
    MulLeMono(i + 1, cols, rows);
  }

  /** A 45 by 45 domain in steps of 20 gives 9 tiles; the last column and row are 5 cells wide. */
  lemma FortyFiveByFortyFive()
    ensures var t := SubsetEdges(45, 45, 20, 20);
            && |t| == 9
            && t[0] == Tile(0, 19, 0, 19)
            && t[2] == Tile(0, 19, 40, 44)
            && t[6] == Tile(40, 44, 0, 19)
            && t[8] == Tile(40, 44, 40, 44)
  {
  }

  /**
   * _return_subset_edges: fills four preallocated arrays with the tile
   * edges in nested loops over tile columns and tile rows, advancing a
   * running counter k.
   */
  method ReturnSubsetEdges(xDim: nat, yDim: nat, xStep: nat, yStep: nat)
    returns (xStart: array<int>, xEnd: array<int>, yStart: array<int>, yEnd: array<int>)
    requires xStep > 0 && yStep > 0
    ensures fresh(xStart) && fresh(xEnd) && fresh(yStart) && fresh(yEnd)
    ensures xStart.Length == xEnd.Length == yStart.Length == yEnd.Length
         == CeilDiv(xDim, xStep) * CeilDiv(yDim, yStep)
    ensures forall k :: 0 <= k < xStart.Length ==>
              Tile(xStart[k], xEnd[k], yStart[k], yEnd[k]) == SubsetEdges(xDim, yDim, xStep, yStep)[k]
  {
    var cols, rows := CeilDiv(xDim, xStep), CeilDiv(yDim, yStep);
    var n := cols * rows;
    xStart, xEnd, yStart, yEnd := new int[n], new int[n], new int[n], new int[n];
    ghost var tiles := SubsetEdges(xDim, yDim, xStep, yStep);
    var k := 0;
    for i := 0 to cols
      invariant k == i * rows && k <= n
      invariant forall t :: 0 <= t < k ==>
                  Tile(xStart[t], xEnd[t], yStart[t], yEnd[t]) == tiles[t]
    {
      for j := 0 to rows
        invariant k == i * rows + j && k <= n
        invariant forall t :: 0 <= t < k ==>
                    Tile(xStart[t], xEnd[t], yStart[t], yEnd[t]) == tiles[t]
      {
        assert k < n by {
          assert k < (i + 1) * rows;
          MulLeMono(i + 1, cols, rows);
        }
        assert tiles[k] == Tile(i * xStep, Min((i + 1) * xStep, xDim) - 1,
                                j * yStep, Min((j + 1) * yStep, yDim) - 1) by {
          SubsetEdgesAt(xDim, yDim, xStep, yStep, k);
          TileAtSplit(xDim, yDim, xStep, yStep, i, j);
        }
        xStart[k] := i * xStep;
        xEnd[k] := Min((i + 1) * xStep, xDim) - 1;
        yStart[k] := j * yStep;
        yEnd[k] := Min((j + 1) * yStep, yDim) - 1;
        k := k + 1;
      }
    }
  }
}
