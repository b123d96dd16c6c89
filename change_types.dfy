/** Classification of long-term canopy-cover change (02_code/map_change_types.py).

    Every input layer is one year's canopy-cover raster, flattened row-major
    to `npx` pixels. Per pixel the script clamps invalid values, counts the
    steps at which the value changes, computes the minimum and maximum,
    obtains a slope and p-value (from the Mann-Kendall test, from a fixed
    single-break encoding, or the nodata value 999) and finally labels the
    pixel with one of five change codes by a cascade of masked overwrites. */
module ChangeTypes {
  import opened Common

  /** Result of the trend test for one series; the test itself is an oracle. */
  datatype Trend = Trend(slope: real, p: real)

  /** Nodata value of the slope and p-value layers. */
  const NoTrend: real := 999.0

  const NotForest: int := 1
  const StableForest: int := 2
  const Loss: int := 3
  const Gain: int := 4
  const Disturbed: int := 5

  /** The time series of pixel p after values above 100 are set to 0. */
  function Series(layers: seq<seq<real>>, p: nat): seq<real>
    requires forall f :: 0 <= f < |layers| ==> p < |layers[f]|
  {
    seq(|layers|, f requires 0 <= f < |layers| => ClampCover(layers[f][p]))
  }

  /** A layer after the clamp of line 74. */
  function ClampedLayer(layer: seq<real>): (r: seq<real>)
    ensures |r| == |layer|
    ensures forall p :: 0 <= p < |layer| ==> r[p] == ClampCover(layer[p]) && r[p] <= 100.0
  {
    seq(|layer|, p requires 0 <= p < |layer| => ClampCover(layer[p]))
  }

  // ---------------------------------------------------------------------
  // Change count
  // ---------------------------------------------------------------------

  /** Number of steps of the series whose value differs from the previous step. */
  function ChangeCount(s: seq<real>): nat
    decreases |s|
  {
    if |s| <= 1 then 0
    else ChangeCount(s[..|s| - 1]) + (if s[|s| - 1] != s[|s| - 2] then 1 else 0)
  }

  /** The steps f >= 1 at which the value differs from step f - 1. */
  function ChangeSteps(s: seq<real>): set<nat>
  {
    set f: nat | 1 <= f < |s| && ChangesAt(s, f)
  }

  predicate ChangesAt(s: seq<real>, f: nat)
    requires 1 <= f < |s|
  {
    s[f] != s[f - 1]
  }

  /** The counter agrees with the set of changing steps. */
  lemma {:induction false} ChangeCountIsChangeSteps(s: seq<real>)
    ensures ChangeCount(s) == |ChangeSteps(s)|
    decreases |s|
  {
    if |s| <= 1 {
      assert ChangeSteps(s) == {};
    } else {
      var init := s[..|s| - 1];
      ChangeCountIsChangeSteps(init);
      var last: nat := |s| - 1;
      if s[last] != s[last - 1] {
        assert ChangeSteps(s) == ChangeSteps(init) + {last};
        assert last !in ChangeSteps(init);
      } else {
        assert ChangeSteps(s) == ChangeSteps(init);
      }
    }
  }

  /** 0 <= ca <= nf - 1. */
  lemma {:induction false} ChangeCountBound(s: seq<real>)
    requires |s| > 0
    ensures ChangeCount(s) <= |s| - 1
    decreases |s|
  {
    if |s| > 1 {
      ChangeCountBound(s[..|s| - 1]);
    }
  }

  /** No step changes exactly when the series is constant. */
  lemma {:induction false} NoChangeIffConstant(s: seq<real>)
    requires |s| > 0
    ensures ChangeCount(s) == 0 <==> forall i :: 0 <= i < |s| ==> s[i] == s[0]
    decreases |s|
  {
    if |s| > 1 {
      var init := s[..|s| - 1];
      NoChangeIffConstant(init);
      if forall i :: 0 <= i < |s| ==> s[i] == s[0] {
        assert forall i :: 0 <= i < |init| ==> init[i] == init[0];
        assert s[|s| - 1] == s[|s| - 2];
      }
      if ChangeCount(s) == 0 {
        assert forall i :: 0 <= i < |init| ==> init[i] == init[0];
        forall i | 0 <= i < |s| ensures s[i] == s[0] {
          if i < |s| - 1 { assert s[i] == init[i]; } else { assert s[i - 1] == init[i - 1]; }
        }
      }
    }
  }

  /** Extending a prefix by one step adds one exactly when that step changes. */
  lemma ChangeCountStep(s: seq<real>, f: nat)
    requires 1 <= f < |s|
    ensures ChangeCount(s[..f + 1]) == ChangeCount(s[..f]) + (if s[f] != s[f - 1] then 1 else 0)
  {
    assert s[..f + 1][..f] == s[..f];
  }

  /** A series whose minimum is below its maximum changes at least once. */
  lemma VariedSeriesChanges(s: seq<real>)
    requires |s| > 0 && SeqMin(s) < SeqMax(s)
    ensures ChangeCount(s) >= 1
  {
    NoChangeIffConstant(s);
    var i :| 0 <= i < |s| && s[i] == SeqMin(s);
    var j :| 0 <= j < |s| && s[j] == SeqMax(s);
    assert s[i] != s[0] || s[j] != s[0];
  }

  // ---------------------------------------------------------------------
  // Slope and p-value
  // ---------------------------------------------------------------------

  /** The series sent to the trend test: varied, with more than one change. */
  predicate RoutedToTrendTest(s: seq<real>)
  {
    |s| > 0 && SeqMin(s) < SeqMax(s) && ChangeCount(s) > 1
  }

  /** Varied with exactly one change: a clear break. */
  predicate SingleBreak(s: seq<real>)
  {
    |s| > 0 && SeqMin(s) < SeqMax(s) && ChangeCount(s) == 1
  }

  /** Final slope and p-value of a pixel: the test's answer for routed series,
      slope -1 and p 1 for a break (the second assignment replaces the first,
      whatever the direction of the break), and 999 otherwise. */
  function PixelTrend(s: seq<real>, mk: seq<real> -> Trend): (r: Trend)
    ensures RoutedToTrendTest(s) ==> r == mk(s)
    ensures !RoutedToTrendTest(s) ==> r == Trend(-1.0, 1.0) || r == Trend(NoTrend, NoTrend)
  {
    if SingleBreak(s) then Trend(-1.0, 1.0)
    else if RoutedToTrendTest(s) then mk(s)
    else Trend(NoTrend, NoTrend)
  }

  /** Every varied series is either routed to the test or a single break,
      so the value 999 survives only on constant series. */
  lemma NoTrendOnlyWhenConstant(s: seq<real>, mk: seq<real> -> Trend)
    requires |s| > 0
    ensures SeqMin(s) == SeqMax(s) ==> PixelTrend(s, mk) == Trend(NoTrend, NoTrend)
    ensures SeqMin(s) < SeqMax(s) ==> SingleBreak(s) || RoutedToTrendTest(s)
  {
    if SeqMin(s) < SeqMax(s) {
      VariedSeriesChanges(s);
    }
  }

  // ---------------------------------------------------------------------
  // Classification cascade
  // ---------------------------------------------------------------------

  /** Code of a pixel after the first `stage` masked overwrites; the code of
      stage k is k itself. */
  function CodeAfter(stage: nat, mn: real, mx: real, t: Trend, pval: real): int
    decreases stage
  {
    if stage == 0 then 0
    else
      var prior := CodeAfter(stage - 1, mn, mx, t, pval);
      if Fires(stage, mn, mx, t, pval, prior) then stage else prior
  }

  function ClassCode(mn: real, mx: real, t: Trend, pval: real): (c: int)
    ensures 1 <= c <= 5
  {
    CodeAfter(5, mn, mx, t, pval)
  }

  /** What each code means, as the order of the overwrites decides it. */
  lemma ClassCodeMeaning(mn: real, mx: real, t: Trend, pval: real)
    ensures 1 <= ClassCode(mn, mx, t, pval) <= 5
    ensures ClassCode(mn, mx, t, pval) == Loss <==> t.p < pval && t.slope < 0.0
    ensures ClassCode(mn, mx, t, pval) == Gain <==> t.p < pval && t.slope > 0.0
    ensures ClassCode(mn, mx, t, pval) == NotForest <==>
              mn == mx && mn == 0.0 && !(t.p < pval && t.slope != 0.0)
    ensures ClassCode(mn, mx, t, pval) == StableForest <==>
              mn == mx && mn > 0.0 && !(t.p < pval && t.slope != 0.0)
    ensures ClassCode(mn, mx, t, pval) == Disturbed <==>
              !(mn == mx && mn >= 0.0) && !(t.p < pval && t.slope != 0.0)
  {
  }

  /** Code 5 never replaces a code set by an earlier overwrite. */
  lemma DisturbedNeverOverwrites(mn: real, mx: real, t: Trend, pval: real)
    requires CodeAfter(4, mn, mx, t, pval) != 0
    ensures ClassCode(mn, mx, t, pval) == CodeAfter(4, mn, mx, t, pval)
  {
  }

  function PixelCode(s: seq<real>, pval: real, mk: seq<real> -> Trend): int
    requires |s| > 0
  {
    ClassCode(SeqMin(s), SeqMax(s), PixelTrend(s, mk), pval)
  }

  /** Constant series keep 999 and are labelled 1 at cover 0 and 2 at positive
      cover when pval <= 999 (a constant negative series falls to 5); with
      pval above 999 the nodata slope reads as a significant gain. */
  lemma ConstantPixelCode(s: seq<real>, pval: real, mk: seq<real> -> Trend)
    requires |s| > 0 && SeqMin(s) == SeqMax(s)
    ensures pval <= NoTrend && s[0] == 0.0 ==> PixelCode(s, pval, mk) == NotForest
    ensures pval <= NoTrend && s[0] > 0.0 ==> PixelCode(s, pval, mk) == StableForest
    ensures pval <= NoTrend && s[0] < 0.0 ==> PixelCode(s, pval, mk) == Disturbed
    ensures pval > NoTrend ==> PixelCode(s, pval, mk) == Gain
  {
    NoTrendOnlyWhenConstant(s, mk);
    assert SeqMin(s) <= s[0] <= SeqMax(s);
    ClassCodeMeaning(SeqMin(s), SeqMax(s), PixelTrend(s, mk), pval);
  }

  /** A single break is labelled 5 for 0 < pval <= 1, and a loss for pval > 1. */
  lemma SingleBreakCode(s: seq<real>, pval: real, mk: seq<real> -> Trend)
    requires SingleBreak(s)
    ensures 0.0 < pval <= 1.0 ==> PixelCode(s, pval, mk) == Disturbed
    ensures pval > 1.0 ==> PixelCode(s, pval, mk) == Loss
  {
    ClassCodeMeaning(SeqMin(s), SeqMax(s), PixelTrend(s, mk), pval);
  }

  /** A routed pixel's code depends only on the test's answer. */
  lemma RoutedPixelCode(s: seq<real>, pval: real, mk: seq<real> -> Trend)
    requires RoutedToTrendTest(s)
    ensures var t := mk(s);
      && (PixelCode(s, pval, mk) == Loss <==> t.p < pval && t.slope < 0.0)
      && (PixelCode(s, pval, mk) == Gain <==> t.p < pval && t.slope > 0.0)
      && (PixelCode(s, pval, mk) == Disturbed <==> t.p >= pval || t.slope == 0.0)
  {
    ClassCodeMeaning(SeqMin(s), SeqMax(s), PixelTrend(s, mk), pval);
  }

  // ---------------------------------------------------------------------
  // The script's steps over the grid
  // ---------------------------------------------------------------------

  function Routing(layers: seq<seq<real>>, npx: nat): seq<bool>
    requires SameGrid(layers, npx)
  {
    seq(npx, p requires 0 <= p < npx => RoutedToTrendTest(Series(layers, p)))
  }

  /** The cube holds the clamped layers: ia[p, f] is step f of pixel p. */
  ghost predicate HoldsCube(layers: seq<seq<real>>, npx: nat, ia: array2<real>)
    reads ia
  {
    && SameGrid(layers, npx)
    && ia.Length0 == npx && ia.Length1 == |layers|
    && forall p, f :: 0 <= p < npx && 0 <= f < |layers| ==> ia[p, f] == ClampCover(layers[f][p])
  }

  ghost predicate HoldsCounts(layers: seq<seq<real>>, npx: nat, ca: array<nat>)
    reads ca
  {
    SameGrid(layers, npx) && ca.Length == npx &&
    forall p :: 0 <= p < npx ==> ca[p] == ChangeCount(Series(layers, p))
  }

  ghost predicate HoldsRange(layers: seq<seq<real>>, npx: nat, mn: array<real>, mx: array<real>)
    reads mn, mx
  {
    |layers| > 0 && SameGrid(layers, npx) && mn.Length == npx && mx.Length == npx &&
    forall p :: 0 <= p < npx ==> mn[p] == SeqMin(Series(layers, p)) && mx[p] == SeqMax(Series(layers, p))
  }

  lemma RowIsSeries(layers: seq<seq<real>>, npx: nat, ia: array2<real>, p: nat)
    requires HoldsCube(layers, npx, ia) && p < npx
    ensures Row(ia, p) == Series(layers, p)
  {
  }

  /** Steps 0 .. f - 1 of the cube are loaded. */
  ghost predicate CubeUpTo(layers: seq<seq<real>>, npx: nat, ia: array2<real>, f: nat)
    reads ia
  {
    && SameGrid(layers, npx) && f <= |layers|
    && ia.Length0 == npx && ia.Length1 == |layers|
    && forall p, g :: 0 <= p < npx && 0 <= g < f ==> ia[p, g] == ClampCover(layers[g][p])
  }

  /** The counters cover steps 0 .. f - 1. */
  ghost predicate CountsUpTo(layers: seq<seq<real>>, npx: nat, ca: array<nat>, f: nat)
    reads ca
  {
    SameGrid(layers, npx) && f <= |layers| && ca.Length == npx &&
    forall p :: 0 <= p < npx ==> ca[p] == ChangeCount(Series(layers, p)[..f])
  }

  /** Lines 71-87: load each layer, clamp it, store it as step f of the cube
      and count the pixels' changes against the previous layer. */
  method LoadLayers(layers: seq<seq<real>>, npx: nat) returns (ia: array2<real>, ca: array<nat>)
    requires SameGrid(layers, npx)
    ensures fresh(ia) && fresh(ca)
    ensures HoldsCube(layers, npx, ia) && HoldsCounts(layers, npx, ca)
  {
    var nf := |layers|;
    ia := new real[npx, nf];
    ca := new nat[npx](_ => 0);
    var b: seq<real> := [];
    for f := 0 to nf
      invariant CubeUpTo(layers, npx, ia, f) && CountsUpTo(layers, npx, ca, f)
      invariant f > 0 ==> b == ClampedLayer(layers[f - 1])
    {
      var a := ClampedLayer(layers[f]);
      StoreLayer(ia, f, a);
      if f > 0 {
        CountChanges(layers, f, ca, a, b);
      }
      b := a;
    }
    forall p | 0 <= p < npx ensures ca[p] == ChangeCount(Series(layers, p)) {
      assert Series(layers, p)[..nf] == Series(layers, p);
    }
  }

  /** `ca[a != b] += 1` for layer f against layer f - 1. */
  method CountChanges(layers: seq<seq<real>>, f: nat, ca: array<nat>, a: seq<real>, b: seq<real>)
    requires SameGrid(layers, ca.Length) && 1 <= f < |layers|
    requires a == ClampedLayer(layers[f]) && b == ClampedLayer(layers[f - 1])
    requires CountsUpTo(layers, ca.Length, ca, f)
    modifies ca
    ensures CountsUpTo(layers, ca.Length, ca, f + 1)
  {
    for p := 0 to ca.Length
      invariant forall q :: 0 <= q < p ==> ca[q] == ChangeCount(Series(layers, q)[..f + 1])
      invariant forall q :: p <= q < ca.Length ==> ca[q] == ChangeCount(Series(layers, q)[..f])
    {
      ChangeCountStep(Series(layers, p), f);
      if a[p] != b[p] {
        ca[p] := ca[p] + 1;
      }
    }
  }

  /** Lines 93-94: minimum and maximum of each pixel's series. */
  method CoverRange(layers: seq<seq<real>>, npx: nat, ia: array2<real>) returns (mn: array<real>, mx: array<real>)
    requires |layers| > 0 && HoldsCube(layers, npx, ia)
    ensures fresh(mn) && fresh(mx)
    ensures HoldsRange(layers, npx, mn, mx)
  {
    mn := new real[npx];
    mx := new real[npx];
    for p := 0 to npx
      invariant forall q :: 0 <= q < p ==>
                  mn[q] == SeqMin(Series(layers, q)) && mx[q] == SeqMax(Series(layers, q))
    {
      var row := Row(ia, p);
      RowIsSeries(layers, npx, ia, p);
      mn[p], mx[p] := SeqMin(row), SeqMax(row);
    }
  }

  /** The routing mask of line 101 computed from the stored arrays. */
  function StoredRouting(mn: array<real>, mx: array<real>, ca: array<nat>): seq<bool>
    reads mn, mx, ca
    requires mn.Length == mx.Length == ca.Length
  {
    seq(mn.Length, p requires 0 <= p < mn.Length reads mn, mx, ca => mn[p] < mx[p] && ca[p] > 1)
  }

  lemma RoutedMask(layers: seq<seq<real>>, npx: nat, mn: array<real>, mx: array<real>, ca: array<nat>)
    requires HoldsRange(layers, npx, mn, mx) && HoldsCounts(layers, npx, ca)
    ensures StoredRouting(mn, mx, ca) == Routing(layers, npx)
  {
  }

  /** Lines 96-108: slope and p-value start at 999; the routed pixels, in
      row-major order, receive the trend test's answer. */
  method RunTrendTests(layers: seq<seq<real>>, npx: nat, ia: array2<real>, mn: array<real>, mx: array<real>,
                       ca: array<nat>, mk: seq<real> -> Trend)
    returns (slope: array<real>, pvalue: array<real>, tested: seq<nat>)
    requires HoldsCube(layers, npx, ia) && HoldsCounts(layers, npx, ca) && HoldsRange(layers, npx, mn, mx)
    ensures fresh(slope) && fresh(pvalue) && slope != pvalue
    ensures slope.Length == pvalue.Length == npx
    ensures tested == Where(Routing(layers, npx))
    ensures forall p :: 0 <= p < npx ==>
              Trend(slope[p], pvalue[p]) ==
                if RoutedToTrendTest(Series(layers, p)) then mk(Series(layers, p)) else Trend(NoTrend, NoTrend)
  {
    slope := new real[npx](_ => NoTrend);
    pvalue := new real[npx](_ => NoTrend);
    RoutedMask(layers, npx, mn, mx, ca);
    tested := Where(StoredRouting(mn, mx, ca));
    ApplyTests(ia, tested, slope, pvalue, mk);
    forall p | 0 <= p < npx
      ensures Trend(slope[p], pvalue[p]) ==
                if RoutedToTrendTest(Series(layers, p)) then mk(Series(layers, p)) else Trend(NoTrend, NoTrend)
    {
      RowIsSeries(layers, npx, ia, p);
      assert p in tested <==> Routing(layers, npx)[p];
    }
  }

  /** Lines 101-108: the test runs once per listed pixel on its stored series. */
  method ApplyTests(ia: array2<real>, tested: seq<nat>, slope: array<real>, pvalue: array<real>,
                    mk: seq<real> -> Trend)
    requires slope != pvalue && slope.Length == pvalue.Length == ia.Length0
    requires forall j :: 0 <= j < |tested| ==> tested[j] < ia.Length0
    modifies slope, pvalue
    ensures forall q :: 0 <= q < slope.Length ==>
              Trend(slope[q], pvalue[q]) == if q in tested then mk(Row(ia, q)) else Trend(old(slope[q]), old(pvalue[q]))
  {
    ghost var done: set<nat> := {};
    for i := 0 to |tested|
      invariant done == set j | 0 <= j < i :: tested[j]
      invariant forall q :: 0 <= q < slope.Length ==>
                  Trend(slope[q], pvalue[q]) == if q in done then mk(Row(ia, q)) else Trend(old(slope[q]), old(pvalue[q]))
    {
      var p := tested[i];
      var t := mk(Row(ia, p));
      slope[p] := t.slope;
      pvalue[p] := t.p;
      done := done + {p};
    }
    forall q | 0 <= q < slope.Length
      ensures q in done <==> q in tested
    {
      if q in tested {
        var j :| 0 <= j < |tested| && tested[j] == q;
      }
    }
  }

  /** `a[px] = v`: the listed cells take v, the others keep their value. */
  method AssignAt(a: array<real>, px: seq<nat>, v: real)
    requires forall j :: 0 <= j < |px| ==> px[j] < a.Length
    modifies a
    ensures forall q :: 0 <= q < a.Length ==> a[q] == if q in px then v else old(a[q])
  {
    for i := 0 to |px|
      invariant forall q :: 0 <= q < a.Length ==> a[q] == if q in px[..i] then v else old(a[q])
    {
      a[px[i]] := v;
      assert px[..i + 1] == px[..i] + [px[i]];
    }
    assert px[..|px|] == px;
  }

  /** One masked assignment `slope[px] = v; pvalue[px] = w` over the pixels
      px with a single break. */
  method AssignBreak(mn: array<real>, mx: array<real>, ca: array<nat>, slope: array<real>, pvalue: array<real>,
                     v: real, w: real)
    requires mn.Length == mx.Length == ca.Length == slope.Length == pvalue.Length
    requires slope != pvalue && slope != mn && slope != mx && pvalue != mn && pvalue != mx
    modifies slope, pvalue
    ensures forall p :: 0 <= p < slope.Length ==>
              if mn[p] < mx[p] && ca[p] == 1 then slope[p] == v && pvalue[p] == w
              else slope[p] == old(slope[p]) && pvalue[p] == old(pvalue[p])
  {
    var px := Where(SingleBreakMask(mn[..], mx[..], ca[..]));
    AssignAt(slope, px, v);
    AssignAt(pvalue, px, w);
    forall p | 0 <= p < slope.Length && mn[p] < mx[p] && ca[p] == 1 ensures p in px {
      assert SingleBreakMask(mn[..], mx[..], ca[..])[p];
    }
  }

  /** The pixels that vary and have exactly one break (lines 111 and 114). */
  function SingleBreakMask(mn: seq<real>, mx: seq<real>, ca: seq<nat>): (b: seq<bool>)
    requires |mn| == |mx| == |ca|
    ensures |b| == |mn| && forall p :: 0 <= p < |mn| ==> (b[p] <==> mn[p] < mx[p] && ca[p] == 1)
  {
    seq(|mn|, p requires 0 <= p < |mn| => mn[p] < mx[p] && ca[p] == 1)
  }

  /** Lines 93-116: minimum, maximum, trend test and the two break
      assignments (slope 1 then slope -1, p-value 1 both times). */
  method EvaluateChanges(layers: seq<seq<real>>, npx: nat, ia: array2<real>, ca: array<nat>,
                         mk: seq<real> -> Trend)
    returns (mn: array<real>, mx: array<real>, slope: array<real>, pvalue: array<real>, tested: seq<nat>)
    requires |layers| > 0 && HoldsCube(layers, npx, ia) && HoldsCounts(layers, npx, ca)
    ensures fresh(mn) && fresh(mx) && fresh(slope) && fresh(pvalue)
    ensures HoldsRange(layers, npx, mn, mx)
    ensures slope.Length == pvalue.Length == npx
    ensures forall p :: 0 <= p < npx ==>
              Trend(slope[p], pvalue[p]) == PixelTrend(Series(layers, p), mk)
    ensures tested == Where(Routing(layers, npx))
  {
    mn, mx := CoverRange(layers, npx, ia);
    slope, pvalue, tested := RunTrendTests(layers, npx, ia, mn, mx, ca, mk);
    AssignBreak(mn, mx, ca, slope, pvalue, 1.0, 1.0);
    AssignBreak(mn, mx, ca, slope, pvalue, -1.0, 1.0);
  }

  /** Whether the overwrite of the given stage fires, given the code so far. */
  predicate Fires(stage: nat, mn: real, mx: real, t: Trend, pval: real, prior: int)
  {
    if stage == 1 then mn == mx && mn == 0.0
    else if stage == 2 then mn == mx && mn > 0.0
    else if stage == 3 then t.p < pval && t.slope < 0.0
    else if stage == 4 then t.p < pval && t.slope > 0.0
    else if stage == 5 then (t.p >= pval || t.slope == 0.0) && prior == 0
    else false
  }

  /** One masked overwrite of the change map (one of lines 125-129). */
  method Overwrite(oa: array<int>, stage: nat, mn: array<real>, mx: array<real>, slope: array<real>,
                   pvalue: array<real>, pval: real)
    requires 1 <= stage <= 5
    requires oa.Length == mn.Length == mx.Length == slope.Length == pvalue.Length
    requires forall q :: 0 <= q < oa.Length ==>
               oa[q] == CodeAfter(stage - 1, mn[q], mx[q], Trend(slope[q], pvalue[q]), pval)
    modifies oa
    ensures forall q :: 0 <= q < oa.Length ==>
              oa[q] == CodeAfter(stage, mn[q], mx[q], Trend(slope[q], pvalue[q]), pval)
  {
    for p := 0 to oa.Length
      invariant forall q :: 0 <= q < p ==>
                  oa[q] == CodeAfter(stage, mn[q], mx[q], Trend(slope[q], pvalue[q]), pval)
      invariant forall q :: p <= q < oa.Length ==>
                  oa[q] == CodeAfter(stage - 1, mn[q], mx[q], Trend(slope[q], pvalue[q]), pval)
    {
      if Fires(stage, mn[p], mx[p], Trend(slope[p], pvalue[p]), pval, oa[p]) {
        oa[p] := stage;
      }
    }
  }

  /** Lines 124-129: the change map starts at 0 and receives the five masked
      overwrites in order. */
  method Classify(mn: array<real>, mx: array<real>, slope: array<real>, pvalue: array<real>, pval: real)
    returns (oa: array<int>)
    requires mn.Length == mx.Length == slope.Length == pvalue.Length
    ensures oa.Length == mn.Length
    ensures forall p :: 0 <= p < oa.Length ==>
              oa[p] == ClassCode(mn[p], mx[p], Trend(slope[p], pvalue[p]), pval)
  {
    oa := new int[mn.Length](_ => 0);
    Overwrite(oa, 1, mn, mx, slope, pvalue, pval);
    Overwrite(oa, 2, mn, mx, slope, pvalue, pval);
    Overwrite(oa, 3, mn, mx, slope, pvalue, pval);
    Overwrite(oa, 4, mn, mx, slope, pvalue, pval);
    Overwrite(oa, 5, mn, mx, slope, pvalue, pval);
  }

  /** The whole classification: change map, slope and p-value layers, and the
      pixels handed to the trend test (exactly the routed ones, row-major). */
  method MapChangeTypes(layers: seq<seq<real>>, npx: nat, pval: real, mk: seq<real> -> Trend)
    returns (oa: array<int>, slope: array<real>, pvalue: array<real>, tested: seq<nat>)
    requires |layers| > 0 && SameGrid(layers, npx)
    ensures oa.Length == slope.Length == pvalue.Length == npx
    ensures forall p :: 0 <= p < npx ==> oa[p] == PixelCode(Series(layers, p), pval, mk)
    ensures forall p :: 0 <= p < npx ==>
              Trend(slope[p], pvalue[p]) == PixelTrend(Series(layers, p), mk)
    ensures tested == Where(Routing(layers, npx))
  {
    var ia, ca := LoadLayers(layers, npx);
    var mn, mx;
    mn, mx, slope, pvalue, tested := EvaluateChanges(layers, npx, ia, ca, mk);
    oa := Classify(mn, mx, slope, pvalue, pval);
  }
}
