/** Canopy change per decade (02_code/map_decadal_changes.py).

    Each yearly cover layer is clamped and turned into an area of canopy. The
    absolute year-to-year differences are summed into three decades, and
    every pixel records its largest decadal change and which decade (1, 2 or
    3) it fell in, with 0 for a pixel that never changed. Pixels are
    flattened row-major; the cube `ia` holds one row per pixel. */
module DecadalChanges {
  import opened Common

  /** First and last year of the three decades, both inclusive (line 85). */
  const FirstYears: seq<int> := [1992, 2000, 2011]
  const LastYears: seq<int> := [1999, 2010, 2018]

  function Abs(x: real): (r: real)
    ensures r >= 0.0 && (r == x || r == -x)
  {
    if x < 0.0 then -x else x
  }

  // ---------------------------------------------------------------------
  // Per-pixel rules
  // ---------------------------------------------------------------------

  /** One stored value (lines 77-78): cover above 100 counts as 0, and the
      rest is taken as a percentage of the pixel's area. */
  function StoredValue(x: real, area: real): (r: real)
    ensures x > 100.0 ==> r == 0.0
    ensures x <= 100.0 ==> r == x * 0.01 * area
  {
    ClampCover(x) * 0.01 * area
  }

  /** The stored series of pixel p, one value per layer. */
  function Stored(layers: seq<seq<real>>, area: seq<real>, p: nat): (s: seq<real>)
    requires SameGrid(layers, |area|) && p < |area|
    ensures |s| == |layers|
  {
    seq(|layers|, f requires 0 <= f < |layers| => StoredValue(layers[f][p], area[p]))
  }

  /** `np.abs(np.diff(x))`: one non-negative change per pair of consecutive layers. */
  function Changes(s: seq<real>): (c: seq<real>)
    ensures |c| == if |s| == 0 then 0 else |s| - 1
    ensures forall i :: 0 <= i < |c| ==> c[i] >= 0.0
  {
    seq(if |s| == 0 then 0 else |s| - 1, i requires 0 <= i < |s| - 1 => Abs(s[i + 1] - s[i]))
  }

  /** `years[1:len(files)]`: change i is labelled with the year of its later layer. */
  function Labels(years: seq<int>, nf: nat): (l: seq<int>)
    ensures |l| <= if nf == 0 then 0 else nf - 1
    ensures forall i :: 0 <= i < |l| ==> i + 1 < |years| && l[i] == years[i + 1]
  {
    var m := if |years| < nf then |years| else nf;
    if m <= 1 then [] else years[1..m]
  }

  /** Sum of the changes whose label lies in [lo, hi] (lines 88-89). */
  function DecadeSum(c: seq<real>, labels: seq<int>, lo: int, hi: int): (d: real)
    requires |labels| <= |c|
    ensures (forall i :: 0 <= i < |labels| ==> !(lo <= labels[i] <= hi)) ==> d == 0.0
  {
    if labels == [] then 0.0
    else
      var n := |labels| - 1;
      DecadeSum(c, labels[..n], lo, hi) + (if lo <= labels[n] <= hi then c[n] else 0.0)
  }

  /** The changes of the decade, with every change outside it replaced by 0. */
  function InDecade(c: seq<real>, labels: seq<int>, lo: int, hi: int): (m: seq<real>)
    requires |labels| <= |c|
    ensures |m| == |labels|
  {
    seq(|labels|, i requires 0 <= i < |labels| => if lo <= labels[i] <= hi then c[i] else 0.0)
  }

  /** The decade's sum is the plain sum of the masked changes. */
  lemma {:induction false} DecadeSumIsMaskedSum(c: seq<real>, labels: seq<int>, lo: int, hi: int)
    requires |labels| <= |c|
    ensures DecadeSum(c, labels, lo, hi) == Sum(InDecade(c, labels, lo, hi))
    decreases |labels|
  {
    if labels != [] {
      var n := |labels| - 1;
      DecadeSumIsMaskedSum(c, labels[..n], lo, hi);
      assert InDecade(c, labels, lo, hi)[..n] == InDecade(c, labels[..n], lo, hi);
    }
  }

  /** A change labelled outside the decade does not affect its sum. */
  lemma {:induction false} DecadeSumIgnoresOutside(c: seq<real>, labels: seq<int>, lo: int, hi: int, i: nat, x: real)
    requires |labels| <= |c| && i < |labels| && !(lo <= labels[i] <= hi)
    ensures DecadeSum(c[i := x], labels, lo, hi) == DecadeSum(c, labels, lo, hi)
    decreases |labels|
  {
    var n := |labels| - 1;
    if i < n {
      DecadeSumIgnoresOutside(c, labels[..n], lo, hi, i, x);
    } else {
      DecadeSumSamePrefix(c, c[i := x], labels[..n], lo, hi);
    }
  }

  lemma {:induction false} DecadeSumSamePrefix(c: seq<real>, d: seq<real>, labels: seq<int>, lo: int, hi: int)
    requires |labels| <= |c| && |labels| <= |d|
    requires forall i :: 0 <= i < |labels| ==> c[i] == d[i]
    ensures DecadeSum(c, labels, lo, hi) == DecadeSum(d, labels, lo, hi)
    decreases |labels|
  {
    if labels != [] {
      DecadeSumSamePrefix(c, d, labels[..|labels| - 1], lo, hi);
    }
  }

  lemma {:induction false} DecadeSumNonNegative(c: seq<real>, labels: seq<int>, lo: int, hi: int)
    requires |labels| <= |c| && forall i :: 0 <= i < |c| ==> c[i] >= 0.0
    ensures DecadeSum(c, labels, lo, hi) >= 0.0
    decreases |labels|
  {
    if labels != [] {
      DecadeSumNonNegative(c, labels[..|labels| - 1], lo, hi);
    }
  }

  /** `oa[p, :]`: the three decade sums of a pixel. */
  function DecadeTotals(c: seq<real>, labels: seq<int>): (t: seq<real>)
    requires |labels| <= |c|
    ensures |t| == 3
  {
    seq(3, r requires 0 <= r < 3 => DecadeSum(c, labels, FirstYears[r], LastYears[r]))
  }

  /** The decades do not overlap, so together they never count more than
      all the changes; they count exactly all of them when every label lies
      in 1992 .. 2018. */
  lemma {:induction false} DecadesWithinTotal(c: seq<real>, labels: seq<int>)
    requires |labels| <= |c| && forall i :: 0 <= i < |c| ==> c[i] >= 0.0
    ensures var t := DecadeTotals(c, labels);
            t[0] + t[1] + t[2] <= Sum(c[..|labels|])
    ensures (forall i :: 0 <= i < |labels| ==> 1992 <= labels[i] <= 2018) ==>
              var t := DecadeTotals(c, labels);
              t[0] + t[1] + t[2] == Sum(c[..|labels|])
    decreases |labels|
  {
    if labels != [] {
      var n := |labels| - 1;
      DecadesWithinTotal(c, labels[..n]);
      assert c[..|labels|][..n] == c[..n];
    }
  }

  /** `np.argmax`: the first position holding a greatest value. */
  function FirstArgMax(t: seq<real>): (i: nat)
    requires |t| > 0
    ensures i < |t|
    ensures forall j :: 0 <= j < |t| ==> t[j] <= t[i]
    ensures forall j :: 0 <= j < i ==> t[j] < t[i]
  {
    if |t| == 1 then 0
    else
      var k := FirstArgMax(t[..|t| - 1]);
      if t[|t| - 1] > t[k] then |t| - 1 else k
  }

  /** Lines 91-93: the argmax, moved up by one where the maximum is positive. */
  function PeakDecade(t: seq<real>): (r: int)
    requires |t| > 0
    ensures 0 <= r <= |t|
    ensures SeqMax(t) > 0.0 ==> 1 <= r && t[r - 1] == SeqMax(t)
  {
    var lr := FirstArgMax(t);
    if SeqMax(t) > 0.0 then lr + 1 else lr
  }

  /** For non-negative decade sums: 0 means no change at all; otherwise the
      result names the first decade with the largest change, counting from 1. */
  lemma PeakDecadeMeaning(t: seq<real>)
    requires |t| > 0 && forall r :: 0 <= r < |t| ==> t[r] >= 0.0
    ensures 0 <= PeakDecade(t) <= |t|
    ensures PeakDecade(t) == 0 <==> SeqMax(t) == 0.0
    ensures PeakDecade(t) > 0 ==> t[PeakDecade(t) - 1] == SeqMax(t)
    ensures PeakDecade(t) > 0 ==> forall r :: 0 <= r < PeakDecade(t) - 1 ==> t[r] < SeqMax(t)
  {
    var i := FirstArgMax(t);
    assert t[i] == SeqMax(t);
  }

  /** The largest decadal change of a pixel is never negative. */
  lemma MaxChangeNonNegative(c: seq<real>, labels: seq<int>)
    requires |labels| <= |c| && forall i :: 0 <= i < |c| ==> c[i] >= 0.0
    ensures SeqMax(DecadeTotals(c, labels)) >= 0.0
  {
    DecadeSumNonNegative(c, labels, FirstYears[0], LastYears[0]);
    assert DecadeTotals(c, labels)[0] >= 0.0;
  }

  /** Decade sums of pixel p in the model of the script. */
  function PixelTotals(layers: seq<seq<real>>, area: seq<real>, years: seq<int>, p: nat): (t: seq<real>)
    requires SameGrid(layers, |area|) && p < |area|
    ensures |t| == 3 && forall r :: 0 <= r < 3 ==> t[r] >= 0.0
  {
    var c := Changes(Stored(layers, area, p));
    var t := DecadeTotals(c, Labels(years, |layers|));
    forall r | 0 <= r < 3 ensures t[r] >= 0.0 {
      DecadeSumNonNegative(c, Labels(years, |layers|), FirstYears[r], LastYears[r]);
    }
    t
  }

  // ---------------------------------------------------------------------
  // The script on arrays
  // ---------------------------------------------------------------------

  /** Lines 75-79: each layer, stored as step f of the cube. */
  method LoadCube(layers: seq<seq<real>>, area: seq<real>) returns (ia: array2<real>)
    requires SameGrid(layers, |area|)
    ensures fresh(ia) && ia.Length0 == |area| && ia.Length1 == |layers|
    ensures forall p :: 0 <= p < |area| ==> Row(ia, p) == Stored(layers, area, p)
  {
    var npx := |area|;
    ia := new real[npx, |layers|];
    for f := 0 to |layers|
      invariant forall p, g :: 0 <= p < npx && 0 <= g < f ==> ia[p, g] == StoredValue(layers[g][p], area[p])
    {
      var a := seq(npx, p requires 0 <= p < npx => StoredValue(layers[f][p], area[p]));
      StoreLayer(ia, f, a);
    }
    forall p | 0 <= p < npx ensures Row(ia, p) == Stored(layers, area, p) {
      assert forall g :: 0 <= g < |layers| ==> Row(ia, p)[g] == Stored(layers, area, p)[g];
    }
  }

  /** Line 81: `np.abs(np.diff(ia, axis=2))`. */
  method AbsDiff(ia: array2<real>) returns (d: array2<real>)
    ensures fresh(d) && d.Length0 == ia.Length0 && d.Length1 == if ia.Length1 == 0 then 0 else ia.Length1 - 1
    ensures forall p :: 0 <= p < ia.Length0 ==> Row(d, p) == Changes(Row(ia, p))
  {
    var nc := if ia.Length1 == 0 then 0 else ia.Length1 - 1;
    d := new real[ia.Length0, nc];
    for p := 0 to ia.Length0
      invariant forall q, i :: 0 <= q < p && 0 <= i < nc ==> d[q, i] == Abs(ia[q, i + 1] - ia[q, i])
    {
      for i := 0 to nc
        invariant forall q, j :: 0 <= q < p && 0 <= j < nc ==> d[q, j] == Abs(ia[q, j + 1] - ia[q, j])
        invariant forall j :: 0 <= j < i ==> d[p, j] == Abs(ia[p, j + 1] - ia[p, j])
      {
        d[p, i] := Abs(ia[p, i + 1] - ia[p, i]);
      }
    }
    forall p | 0 <= p < ia.Length0 ensures Row(d, p) == Changes(Row(ia, p)) {
      assert forall i :: 0 <= i < nc ==> Row(d, p)[i] == Changes(Row(ia, p))[i];
    }
  }

  /** Lines 84-89: decade r's sums written into layer r of `oa`. */
  method SumDecades(d: array2<real>, labels: seq<int>) returns (oa: array2<real>)
    requires |labels| <= d.Length1
    ensures fresh(oa) && oa.Length0 == d.Length0 && oa.Length1 == 3
    ensures forall p :: 0 <= p < d.Length0 ==> Row(oa, p) == DecadeTotals(Row(d, p), labels)
  {
    oa := new real[d.Length0, 3];
    for r := 0 to 3
      invariant forall p, g :: 0 <= p < d.Length0 && 0 <= g < r ==>
                  oa[p, g] == DecadeSum(Row(d, p), labels, FirstYears[g], LastYears[g])
    {
      var col := seq(d.Length0, p requires 0 <= p < d.Length0 reads d =>
                     DecadeSum(Row(d, p), labels, FirstYears[r], LastYears[r]));
      StoreLayer(oa, r, col);
    }
    forall p | 0 <= p < d.Length0 ensures Row(oa, p) == DecadeTotals(Row(d, p), labels) {
      assert forall g :: 0 <= g < 3 ==> Row(oa, p)[g] == DecadeTotals(Row(d, p), labels)[g];
    }
  }

  /** Lines 91-92: the largest decade sum of each pixel and its first position. */
  method Peaks(oa: array2<real>) returns (mx: array<real>, lr: array<int>)
    requires oa.Length1 > 0
    ensures fresh(mx) && fresh(lr) && mx.Length == oa.Length0 && lr.Length == oa.Length0
    ensures forall p :: 0 <= p < oa.Length0 ==> mx[p] == SeqMax(Row(oa, p)) && lr[p] == FirstArgMax(Row(oa, p))
  {
    mx := new real[oa.Length0];
    lr := new int[oa.Length0];
    for p := 0 to oa.Length0
      invariant forall q :: 0 <= q < p ==> mx[q] == SeqMax(Row(oa, q)) && lr[q] == FirstArgMax(Row(oa, q))
    {
      var t := Row(oa, p);
      mx[p] := SeqMax(t);
      lr[p] := FirstArgMax(t);
    }
  }

  /** Line 93: `lr[np.where(mx > 0)] += 1`, in place. */
  method Promote(mx: array<real>, lr: array<int>)
    requires mx.Length == lr.Length
    modifies lr
    ensures forall p :: 0 <= p < lr.Length ==> lr[p] == if mx[p] > 0.0 then old(lr[p]) + 1 else old(lr[p])
  {
    for p := 0 to lr.Length
      invariant forall q :: 0 <= q < lr.Length ==> lr[q] == if q < p && mx[q] > 0.0 then old(lr[q]) + 1 else old(lr[q])
    {
      if mx[p] > 0.0 {
        lr[p] := lr[p] + 1;
      }
    }
  }

  /** The whole script: the largest decadal change and its decade per pixel. */
  method MapDecadalChanges(layers: seq<seq<real>>, area: seq<real>, years: seq<int>)
    returns (mx: array<real>, lr: array<int>)
    requires SameGrid(layers, |area|)
    ensures mx.Length == |area| && lr.Length == |area|
    ensures forall p :: 0 <= p < |area| ==>
              mx[p] == SeqMax(PixelTotals(layers, area, years, p)) &&
              lr[p] == PeakDecade(PixelTotals(layers, area, years, p))
  {
    var ia := LoadCube(layers, area);
    var d := AbsDiff(ia);
    var labels := Labels(years, |layers|);
    var oa := SumDecades(d, labels);
    mx, lr := Peaks(oa);
    Promote(mx, lr);
    forall p | 0 <= p < |area| ensures Row(oa, p) == PixelTotals(layers, area, years, p) {
      assert Row(d, p) == Changes(Stored(layers, area, p));
    }
  }
}
