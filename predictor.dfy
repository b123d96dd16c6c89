/** Canopy-cover prediction for one tile (02_code/predict_canopy_cover.py).

    The pixels marked 1 in the mapping mask are the targets. Their predictor
    values form one row each, with a constant `gap` column added at the end.
    The model's predictions are scattered back into a grid filled with 255.
    The uncertainty of a pixel is the root mean squared deviation of the
    forest's trees from the model's prediction. The same grid buffer is
    reused for the uncertainty output. The model, its trees and the square
    root are parameters: `predict(row)`, `tree(e, row)` for tree e of
    `nTrees`, and `sqrt(x)`. Grids are flattened row-major. */
module CanopyPredictor {
  import opened Common

  /** The value the output grids hold outside the target pixels (line 107). */
  const NoData: real := 255.0

  /** Line 73: the target pixels, in row-major order. */
  function TargetPixels(mask: seq<int>): (px: seq<nat>)
    ensures StrictlyIncreasing(px)
    ensures forall p :: 0 <= p < |mask| ==> (p in px <==> mask[p] == 1)
    ensures forall i :: 0 <= i < |px| ==> px[i] < |mask|
  {
    Where(seq(|mask|, p requires 0 <= p < |mask| => mask[p] == 1))
  }

  /** The predictor row of the i-th target pixel: the layers in their
      configured order, then the gap column. */
  function Features(layers: seq<seq<real>>, px: seq<nat>, gap: int, i: nat): (r: seq<real>)
    requires i < |px| && forall v :: 0 <= v < |layers| ==> Indexes(px, |layers[v]|)
    ensures |r| == |layers| + 1
    ensures forall v :: 0 <= v < |layers| ==> px[i] < |layers[v]| && r[v] == layers[v][px[i]]
    ensures r[|layers|] == gap as real
  {
    var r := seq(|layers| + 1, v requires 0 <= v <= |layers| =>
      if v < |layers| then assert Indexes(px, |layers[v]|); layers[v][px[i]] else gap as real);
    assert forall v :: 0 <= v < |layers| ==> px[i] < |layers[v]| && r[v] == layers[v][px[i]] by {
      forall v | 0 <= v < |layers| ensures px[i] < |layers[v]| {
        assert Indexes(px, |layers[v]|);
      }
    }
    r
  }

  // ---------------------------------------------------------------------
  // Scattering values into a grid (lines 106-108 and 124)
  // ---------------------------------------------------------------------

  /** `grid[px] = vals`: the cells px[k] take vals[k], one after another. */
  function Scattered(grid: seq<real>, px: seq<nat>, vals: seq<real>): (g: seq<real>)
    requires |vals| == |px| && Indexes(px, |grid|)
    ensures |g| == |grid|
  {
    if px == [] then grid
    else
      var n := |px| - 1;
      Scattered(grid, px[..n], vals[..n])[px[n] := vals[n]]
  }

  /** With distinct cells in ascending order: target cell px[k] holds vals[k],
      and every other cell keeps its old value. */
  lemma {:induction false} ScatteredMeaning(grid: seq<real>, px: seq<nat>, vals: seq<real>)
    requires |vals| == |px| && Indexes(px, |grid|) && StrictlyIncreasing(px)
    ensures forall k :: 0 <= k < |px| ==> Scattered(grid, px, vals)[px[k]] == vals[k]
    ensures forall p :: 0 <= p < |grid| && p !in px ==> Scattered(grid, px, vals)[p] == grid[p]
    decreases |px|
  {
    if px != [] {
      var n := |px| - 1;
      ScatteredMeaning(grid, px[..n], vals[..n]);
      forall k | 0 <= k < n ensures Scattered(grid, px, vals)[px[k]] == vals[k] {
        assert px[k] < px[n];
        assert px[..n][k] == px[k] && vals[..n][k] == vals[k];
      }
      forall p | 0 <= p < |grid| && p !in px ensures Scattered(grid, px, vals)[p] == grid[p] {
        assert p !in px[..n];
      }
    }
  }

  method Scatter(oa: array<real>, px: seq<nat>, vals: seq<real>)
    requires |vals| == |px| && Indexes(px, oa.Length)
    modifies oa
    ensures oa[..] == Scattered(old(oa[..]), px, vals)
  {
    ghost var before := oa[..];
    for k := 0 to |px|
      invariant oa[..] == Scattered(before, px[..k], vals[..k])
    {
      assert px[..k + 1][..k] == px[..k] && vals[..k + 1][..k] == vals[..k];
      oa[px[k]] := vals[k];
    }
    assert px[..|px|] == px && vals[..|px|] == vals;
  }

  // ---------------------------------------------------------------------
  // Uncertainty (lines 114-119)
  // ---------------------------------------------------------------------

  /** The sum over the first e trees of the squared difference between the
      model's prediction y of a row and the tree's own. */
  function Deviation(y: real, row: seq<real>, tree: (nat, seq<real>) -> real, e: nat): (d: real)
    ensures d >= 0.0
  {
    if e == 0 then 0.0
    else Deviation(y, row, tree, e - 1) + Sq(y - tree(e - 1, row))
  }

  /** The deviation is 0 exactly when each of the trees gives the prediction itself. */
  lemma {:induction false} DeviationZeroIff(y: real, row: seq<real>, tree: (nat, seq<real>) -> real, e: nat)
    ensures Deviation(y, row, tree, e) == 0.0 <==> forall k :: 0 <= k < e ==> tree(k, row) == y
  {
    if e > 0 {
      DeviationZeroIff(y, row, tree, e - 1);
    }
  }

  /** Lines 118-119: the root mean square where the sum is positive; where it
      is not, the sum itself is left in place. A forest without trees has
      only zero sums, so the `nTrees > 0` guard changes nothing there. */
  function Uncertainty(acc: real, nTrees: nat, sqrt: real -> real): (u: real)
    ensures acc == 0.0 ==> u == 0.0
    ensures acc > 0.0 && nTrees > 0 && sqrt(acc / nTrees as real) > 0.0 ==> u > 0.0
  {
    if acc > 0.0 && nTrees > 0 then sqrt(acc / nTrees as real) else acc
  }

  /** A pixel's uncertainty is 0 exactly when every tree agrees with the
      prediction, given a square root that is positive on positive values. */
  lemma UncertaintyZeroIff(y: real, row: seq<real>, tree: (nat, seq<real>) -> real, nTrees: nat, sqrt: real -> real)
    requires forall x :: x > 0.0 ==> sqrt(x) > 0.0
    ensures Uncertainty(Deviation(y, row, tree, nTrees), nTrees, sqrt) == 0.0 <==>
              forall k :: 0 <= k < nTrees ==> tree(k, row) == y
  {
    DeviationZeroIff(y, row, tree, nTrees);
    var acc := Deviation(y, row, tree, nTrees);
    if acc > 0.0 && nTrees > 0 {
      assert acc / nTrees as real > 0.0;
    }
    if nTrees == 0 {
      assert acc == 0.0;
    }
  }

  /** Line 116 for one tree: `uncertainty += (prediction - tree_e(rows)) ** 2`. */
  method AddTree(acc: array<real>, pred: seq<real>, rows: seq<seq<real>>, tree: (nat, seq<real>) -> real, e: nat)
    requires |pred| == acc.Length && |rows| == acc.Length
    requires forall i :: 0 <= i < acc.Length ==> acc[i] == Deviation(pred[i], rows[i], tree, e)
    modifies acc
    ensures forall i :: 0 <= i < acc.Length ==> acc[i] == Deviation(pred[i], rows[i], tree, e + 1)
  {
    for i := 0 to acc.Length
      invariant forall j :: 0 <= j < i ==> acc[j] == Deviation(pred[j], rows[j], tree, e + 1)
      invariant forall j :: i <= j < acc.Length ==> acc[j] == Deviation(pred[j], rows[j], tree, e)
    {
      acc[i] := acc[i] + Sq(pred[i] - tree(e, rows[i]));
    }
  }

  /** Lines 118-119: the root mean square, in place, where the sum is positive. */
  method TakeRoots(u: array<real>, nTrees: nat, sqrt: real -> real)
    modifies u
    ensures forall i :: 0 <= i < u.Length ==> u[i] == Uncertainty(old(u[i]), nTrees, sqrt)
  {
    for i := 0 to u.Length
      invariant forall j :: 0 <= j < i ==> u[j] == Uncertainty(old(u[j]), nTrees, sqrt)
      invariant forall j :: i <= j < u.Length ==> u[j] == old(u[j])
    {
      if u[i] > 0.0 && nTrees > 0 {
        u[i] := sqrt(u[i] / nTrees as real);
      }
    }
  }

  /** Lines 114-117: the squared deviations of the trees, summed per row. */
  method SumSquares(pred: seq<real>, rows: seq<seq<real>>, tree: (nat, seq<real>) -> real, nTrees: nat)
    returns (u: array<real>)
    requires |rows| == |pred|
    ensures fresh(u) && u.Length == |pred|
    ensures forall i :: 0 <= i < |pred| ==> u[i] == Deviation(pred[i], rows[i], tree, nTrees)
  {
    u := new real[|pred|](_ => 0.0);
    for e := 0 to nTrees
      invariant forall i :: 0 <= i < u.Length ==> u[i] == Deviation(pred[i], rows[i], tree, e)
    {
      AddTree(u, pred, rows, tree, e);
    }
  }

  /** Lines 114-119: accumulate over the trees, then take the root mean square. */
  method Uncertainties(pred: seq<real>, rows: seq<seq<real>>, tree: (nat, seq<real>) -> real,
                       nTrees: nat, sqrt: real -> real) returns (u: array<real>)
    requires |rows| == |pred|
    ensures fresh(u) && u.Length == |pred|
    ensures u[..] == UncertaintyOf(pred, rows, tree, nTrees, sqrt)
  {
    u := SumSquares(pred, rows, tree, nTrees);
    TakeRoots(u, nTrees, sqrt);
  }

  // ---------------------------------------------------------------------
  // The predictor matrix (lines 91-95)
  // ---------------------------------------------------------------------

  /** Column v of the matrix takes layer v at the target pixels; the last
      column holds the gap. */
  method BuildPredictors(layers: seq<seq<real>>, px: seq<nat>, gap: int) returns (m: array2<real>)
    requires forall v :: 0 <= v < |layers| ==> Indexes(px, |layers[v]|)
    ensures fresh(m) && m.Length0 == |px| && m.Length1 == |layers| + 1
    ensures forall i :: 0 <= i < |px| ==> Row(m, i) == Features(layers, px, gap, i)
  {
    m := new real[|px|, |layers| + 1];
    for v := 0 to |layers|
      invariant forall i, w :: 0 <= i < |px| && 0 <= w < v ==> m[i, w] == layers[w][px[i]]
    {
      var col := seq(|px|, i requires 0 <= i < |px| => layers[v][px[i]]);
      StoreLayer(m, v, col);
    }
    StoreLayer(m, |layers|, seq(|px|, _ => gap as real));
    forall i | 0 <= i < |px| ensures Row(m, i) == Features(layers, px, gap, i) {
      assert forall w :: 0 <= w <= |layers| ==> Row(m, i)[w] == Features(layers, px, gap, i)[w];
    }
  }

  // ---------------------------------------------------------------------
  // The tile
  // ---------------------------------------------------------------------

  function Rows(layers: seq<seq<real>>, px: seq<nat>, gap: int): (r: seq<seq<real>>)
    requires forall v :: 0 <= v < |layers| ==> Indexes(px, |layers[v]|)
    ensures |r| == |px|
  {
    seq(|px|, i requires 0 <= i < |px| => Features(layers, px, gap, i))
  }

  function Predictions(rows: seq<seq<real>>, predict: seq<real> -> real): (y: seq<real>)
    ensures |y| == |rows|
  {
    seq(|rows|, i requires 0 <= i < |rows| => predict(rows[i]))
  }

  function UncertaintyOf(pred: seq<real>, rows: seq<seq<real>>, tree: (nat, seq<real>) -> real,
                         nTrees: nat, sqrt: real -> real): (u: seq<real>)
    requires |rows| == |pred|
    ensures |u| == |pred|
  {
    seq(|pred|, i requires 0 <= i < |pred| => Uncertainty(Deviation(pred[i], rows[i], tree, nTrees), nTrees, sqrt))
  }

  predicate SameShape(mask: seq<int>, layers: seq<seq<real>>)
  {
    forall v :: 0 <= v < |layers| ==> |layers[v]| == |mask|
  }

  /** The predictor rows of the targets, read back from the matrix. */
  method PredictorRows(layers: seq<seq<real>>, px: seq<nat>, gap: int) returns (rows: seq<seq<real>>)
    requires forall v :: 0 <= v < |layers| ==> Indexes(px, |layers[v]|)
    ensures rows == Rows(layers, px, gap)
  {
    var m := BuildPredictors(layers, px, gap);
    rows := seq(|px|, i requires 0 <= i < |px| reads m => Row(m, i));
  }

  /** Lines 106-107: a grid of n cells, all 255. */
  method NoDataGrid(n: nat) returns (oa: array<real>)
    ensures fresh(oa) && oa[..] == seq(n, _ => NoData)
  {
    oa := new real[n];
    Fill(oa, NoData);
  }

  /** The two output grids of a tile: canopy cover and its uncertainty. The
      second reuses the first's buffer, so both hold 255 off the targets. */
  method PredictTile(mask: seq<int>, layers: seq<seq<real>>, gap: int, predict: seq<real> -> real,
                     tree: (nat, seq<real>) -> real, nTrees: nat, sqrt: real -> real)
    returns (tcc: seq<real>, ci: seq<real>)
    requires SameShape(mask, layers)
    ensures var px := TargetPixels(mask);
            var rows := Rows(layers, px, gap);
            var y := Predictions(rows, predict);
            && tcc == Scattered(seq(|mask|, _ => NoData), px, y)
            && ci == Scattered(tcc, px, UncertaintyOf(y, rows, tree, nTrees, sqrt))
  {
    var px := TargetPixels(mask);
    var rows := PredictorRows(layers, px, gap);
    var y := Predictions(rows, predict);
    var oa := NoDataGrid(|mask|);
    Scatter(oa, px, y);
    tcc := oa[..];
    var u := Uncertainties(y, rows, tree, nTrees, sqrt);
    Scatter(oa, px, u[..]);
    ci := oa[..];
  }

  /** What the grids hold: target cell px[i] has the i-th prediction (and
      then its uncertainty); every other cell holds 255 in both. */
  lemma TileGrids(mask: seq<int>, layers: seq<seq<real>>, gap: int, predict: seq<real> -> real,
                  tree: (nat, seq<real>) -> real, nTrees: nat, sqrt: real -> real, p: nat)
    requires SameShape(mask, layers) && p < |mask|
    ensures var px := TargetPixels(mask);
            var rows := Rows(layers, px, gap);
            var y := Predictions(rows, predict);
            var tcc := Scattered(seq(|mask|, _ => NoData), px, y);
            var ci := Scattered(tcc, px, UncertaintyOf(y, rows, tree, nTrees, sqrt));
            && (mask[p] != 1 ==> tcc[p] == NoData && ci[p] == NoData)
            && (forall i :: 0 <= i < |px| ==> tcc[px[i]] == y[i])
            && (forall i :: 0 <= i < |px| ==> ci[px[i]] == UncertaintyOf(y, rows, tree, nTrees, sqrt)[i])
  {
    var px := TargetPixels(mask);
    var rows := Rows(layers, px, gap);
    var y := Predictions(rows, predict);
    var tcc := Scattered(seq(|mask|, _ => NoData), px, y);
    ScatteredMeaning(seq(|mask|, _ => NoData), px, y);
    ScatteredMeaning(tcc, px, UncertaintyOf(y, rows, tree, nTrees, sqrt));
  }
}
