/** Stratified, change-aware sample selection
    (02_code/collect_canopy_cover_samples.py).

    The tile's layers are flattened row-major with `width` columns. The script
    fixes a total number of samples from the size of the usable region. It
    shares that number out among the land-cover classes, in proportion to each
    class's count of changing (and of stable) pixels. For every class it then
    picks changing pixels along their ranks by magnitude of change, and picks
    stable pixels uniformly. Finally it turns the picked pixels into
    coordinates. The random draws are inputs: `skew(v, k)` is the k-th
    skew-normal draw made for class v, and `unif(v, k)` is the k-th value of
    [0, 1) behind the uniform draw. */
module CanopySampler {
  import opened Common

  /** The layers of one tile, each holding one value per pixel. */
  datatype Tile = Tile(width: nat, landMask: seq<int>, landCover: seq<int>,
                       startCover: seq<real>, endCover: seq<real>, gains: seq<real>)

  predicate ValidTile(t: Tile)
  {
    && t.width > 0
    && |t.landCover| == |t.landMask|
    && |t.startCover| == |t.landMask|
    && |t.endCover| == |t.landMask|
    && |t.gains| == |t.landMask|
  }

  /** Origin of the tile's window (the centre of its first cell, as
      `rt.transform.xy` returns by default) and the pixel size. */
  datatype Window = Window(x0: real, y0: real, pr: real)

  /** The random draws, keyed by class index and by position in the draw. */
  datatype Draws = Draws(skew: (nat, nat) -> real, unif: (nat, nat) -> real)

  /** The uniform generator's guarantee: every unit draw lies in [0, 1). */
  ghost predicate ValidDraws(d: Draws)
  {
    forall v: nat, k: nat :: 0.0 <= d.unif(v, k) < 1.0
  }

  /** A sample location. */
  datatype Point = Point(x: real, y: real)

  /** `start_tcc - end_tcc`: positive values are losses of cover (line 194). */
  function ForestChange(t: Tile): (fc: seq<real>)
    requires ValidTile(t)
    ensures |fc| == |t.landMask|
  {
    seq(|t.landMask|, p requires 0 <= p < |t.landMask| => t.startCover[p] - t.endCover[p])
  }

  // ---------------------------------------------------------------------
  // How many samples (lines 203-204)
  // ---------------------------------------------------------------------

  /** Pixels inside the land mask, without gains and with a land-cover class. */
  function RegionMask(t: Tile): (b: seq<bool>)
    requires ValidTile(t)
    ensures |b| == |t.landMask|
  {
    seq(|t.landMask|, p requires 0 <= p < |t.landMask| =>
      t.landMask[p] == 1 && t.gains[p] == 0.0 && t.landCover[p] > 0)
  }

  function RegionSize(t: Tile): nat
    requires ValidTile(t)
  {
    |Where(RegionMask(t))|
  }

  /** `ceil(region_size / 2500 / 2)`: one sample per 5000 region pixels, rounded up. */
  function TargetSamples(t: Tile): (nr: nat)
    requires ValidTile(t)
    ensures 5000 * nr >= RegionSize(t)
    ensures nr > 0 ==> 5000 * (nr - 1) < RegionSize(t)
    ensures nr == 0 <==> RegionSize(t) == 0
  {
    CeilDiv(RegionSize(t), 5000)
  }

  // ---------------------------------------------------------------------
  // Classes and their shares (lines 207-218)
  // ---------------------------------------------------------------------

  function Less(a: int, b: int): bool
  {
    a < b
  }

  /** The land-cover values of the pixels inside the land mask with a class. */
  function MaskedCover(t: Tile): (s: seq<int>)
    requires ValidTile(t)
  {
    var w := Where(seq(|t.landMask|, p requires 0 <= p < |t.landMask| =>
                     t.landMask[p] == 1 && t.landCover[p] > 0));
    seq(|w|, i requires 0 <= i < |w| => t.landCover[w[i]])
  }

  /** `np.unique` of the masked classes: distinct, ascending. */
  function Classes(t: Tile): seq<int>
    requires ValidTile(t)
  {
    Unique(MaskedCover(t), Less)
  }

  /** The classes are strictly ascending, and they are exactly the classes of
      the pixels inside the land mask with a positive class. */
  lemma ClassesMeaning(t: Tile, c: int)
    requires ValidTile(t)
    ensures SortedStrictly(Classes(t), Less)
    ensures c in Classes(t) <==>
              exists p :: 0 <= p < |t.landMask| && t.landMask[p] == 1 && t.landCover[p] > 0 && t.landCover[p] == c
  {
    assert StrictTotalOrder(Less);
    UniqueCorrect(MaskedCover(t), Less);
    var b := seq(|t.landMask|, p requires 0 <= p < |t.landMask| => t.landMask[p] == 1 && t.landCover[p] > 0);
    var w := Where(b);
    var s := MaskedCover(t);
    if c in s {
      var i :| 0 <= i < |s| && s[i] == c;
      assert b[w[i]];
    }
    if exists p :: 0 <= p < |t.landMask| && t.landMask[p] == 1 && t.landCover[p] > 0 && t.landCover[p] == c {
      var p :| 0 <= p < |t.landMask| && t.landMask[p] == 1 && t.landCover[p] > 0 && t.landCover[p] == c;
      assert b[p];
      var i :| 0 <= i < |w| && w[i] == p;
      assert s[i] == c;
    }
  }

  /** The pixels labelled cls that change (fc > 0) or stay (fc == 0), over
      the whole tile: `nd.sum(..., labels=land_cover)` does not apply the mask. */
  function TallyMask(t: Tile, fc: seq<real>, cls: int, changing: bool): (b: seq<bool>)
    requires ValidTile(t) && |fc| == |t.landMask|
    ensures |b| == |t.landMask|
  {
    seq(|t.landMask|, p requires 0 <= p < |t.landMask| =>
      t.landCover[p] == cls && (if changing then fc[p] > 0.0 else fc[p] == 0.0))
  }

  function Tallies(t: Tile, fc: seq<real>, classes: seq<int>, changing: bool): (r: seq<nat>)
    requires ValidTile(t) && |fc| == |t.landMask|
    ensures |r| == |classes|
  {
    seq(|classes|, v requires 0 <= v < |classes| => |Where(TallyMask(t, fc, classes[v], changing))|)
  }

  function Total(s: seq<nat>): nat
  {
    if s == [] then 0 else Total(s[..|s| - 1]) + s[|s| - 1]
  }

  /** A class's share of the total (`change / np.sum(change)`). */
  function Share(c: nat, total: nat): real
    requires total > 0
  {
    c as real / total as real
  }

  function Shares(s: seq<nat>, total: nat): (r: seq<real>)
    requires total > 0
    ensures |r| == |s|
  {
    seq(|s|, v requires 0 <= v < |s| => Share(s[v], total))
  }

  /** The shares against any positive total add up to Total(s) / total. */
  lemma {:induction false} SharesSumTo(s: seq<nat>, total: nat)
    requires total > 0
    ensures Product(Sum(Shares(s, total)), total as real) == Total(s) as real
    decreases |s|
  {
    if s != [] {
      var init := s[..|s| - 1];
      SharesSumTo(init, total);
      assert Shares(s, total)[..|s| - 1] == Shares(init, total);
      var a := Sum(Shares(init, total));
      var x := s[|s| - 1] as real / total as real;
      assert x * total as real == s[|s| - 1] as real;
      assert (a + x) * total as real == a * total as real + x * total as real;
    }
  }

  /** Shares taken against their own total add up to one. */
  lemma SharesSumToOne(s: seq<nat>)
    requires Total(s) > 0
    ensures Sum(Shares(s, Total(s))) == 1.0
  {
    SharesSumTo(s, Total(s));
    UnitFactor(Sum(Shares(s, Total(s))), Total(s) as real);
  }

  lemma UnitFactor(x: real, t: real)
    requires t > 0.0 && Product(x, t) == t
    ensures x == 1.0
  {
    assert (x - 1.0) * t == 0.0;
  }

  // ---------------------------------------------------------------------
  // Quotas (lines 99 and 132)
  // ---------------------------------------------------------------------

  /** `np.ceil(nr_samples * share).astype('uint16')`, on exact rationals: the
      least integer at or above nr * c / total, kept modulo 2^16. An empty
      group (total 0) gets no quota. */
  function Quota(nr: nat, c: nat, total: nat): (q: nat)
    ensures q < 65536
  {
    if total == 0 then 0 else CeilDiv(nr * c, total) % 65536
  }

  lemma CeilDivAtMost(nr: nat, c: nat, total: nat)
    requires 0 < total && c <= total
    ensures 0 <= CeilDiv(nr * c, total) <= nr
  {
    var r := CeilDiv(nr * c, total);
    assert nr * c <= total * nr;
    CancelFactor(r - 1, nr, total);
    if r < 0 {
      CancelFactor(0, -r, total);
    }
  }

  lemma CancelFactor(x: int, y: int, t: int)
    requires t > 0 && t * x < t * y
    ensures x < y
  {
  }

  /** A class's quota lies between 0 and the target. */
  lemma QuotaAtMostTarget(nr: nat, c: nat, total: nat)
    requires c <= total
    ensures Quota(nr, c, total) <= nr
  {
    if total > 0 {
      CeilDivAtMost(nr, c, total);
    }
  }

  lemma DivideBounds(a: real, b: real, t: real)
    requires t > 0.0
    ensures t * a >= b ==> a >= b / t
    ensures t * a < b ==> a < b / t
  {
    assert (b / t) * t == b;
  }

  /** Without the 16-bit wrap, the quota is the ceiling of nr times the share. */
  lemma QuotaIsCeiling(nr: nat, c: nat, total: nat)
    requires 0 < total && c <= total && nr < 65536
    ensures Quota(nr, c, total) as real >= nr as real * Share(c, total)
    ensures Quota(nr, c, total) as real - 1.0 < nr as real * Share(c, total)
  {
    CeilDivAtMost(nr, c, total);
    var r := CeilDiv(nr * c, total);
    assert Quota(nr, c, total) == r;
    var t := total as real;
    var n := (nr * c) as real;
    assert nr as real * Share(c, total) == n / t;
    assert t * r as real >= n && t * (r - 1) as real < n;
    DivideBounds(r as real, n, t);
    DivideBounds((r - 1) as real, n, t);
  }

  function Quotas(nr: nat, s: seq<nat>, total: nat): (r: seq<nat>)
    ensures |r| == |s|
  {
    seq(|s|, v requires 0 <= v < |s| => Quota(nr, s[v], total))
  }

  lemma AddScaled(total: int, a: int, q: int, nr: int, b: int, c: int)
    requires total * a >= nr * b && total * q >= nr * c
    ensures total * (a + q) >= nr * (b + c)
  {
  }

  lemma {:induction false} QuotasScaled(nr: nat, s: seq<nat>, total: nat)
    requires 0 < total && nr < 65536
    requires forall v :: 0 <= v < |s| ==> s[v] <= total
    ensures total * Total(Quotas(nr, s, total)) >= nr * Total(s)
    decreases |s|
  {
    if s != [] {
      var init := s[..|s| - 1];
      var c := s[|s| - 1];
      QuotasScaled(nr, init, total);
      var qs := Quotas(nr, s, total);
      assert qs[..|s| - 1] == Quotas(nr, init, total);
      CeilDivAtMost(nr, c, total);
      var q := Quota(nr, c, total);
      assert q == CeilDiv(nr * c, total);
      assert Total(qs) == Total(Quotas(nr, init, total)) + q;
      assert Total(s) == Total(init) + c;
      AddScaled(total, Total(Quotas(nr, init, total)), q, nr, Total(init), c);
    }
  }

  lemma {:induction false} TotalBounds(s: seq<nat>, v: nat)
    requires v < |s|
    ensures s[v] <= Total(s)
    decreases |s|
  {
    if v < |s| - 1 {
      TotalBounds(s[..|s| - 1], v);
    }
  }

  /** The quotas of a group add up to at least the target (line 99 rounds up). */
  lemma QuotasCoverTarget(nr: nat, s: seq<nat>)
    requires Total(s) > 0 && nr < 65536
    ensures Total(Quotas(nr, s, Total(s))) >= nr
  {
    forall v | 0 <= v < |s| ensures s[v] <= Total(s) {
      TotalBounds(s, v);
    }
    QuotasScaled(nr, s, Total(s));
  }

  /** The classes and their quotas for the changing and the stable group. */
  datatype Plan = Plan(classes: seq<int>, changeQuota: seq<nat>, stableQuota: seq<nat>)

  function MakePlan(t: Tile): (pl: Plan)
    requires ValidTile(t)
    ensures |pl.changeQuota| == |pl.classes| && |pl.stableQuota| == |pl.classes|
  {
    var fc := ForestChange(t);
    var classes := Classes(t);
    var nr := TargetSamples(t);
    var tc := Tallies(t, fc, classes, true);
    var ts := Tallies(t, fc, classes, false);
    Plan(classes, Quotas(nr, tc, Total(tc)), Quotas(nr, ts, Total(ts)))
  }

  // ---------------------------------------------------------------------
  // Selection for one class (lines 92-141)
  // ---------------------------------------------------------------------

  /** The candidate pixels of class cls: changing (fc > 0) or stable
      (fc == 0), without gains, in row-major order (lines 102-103, 135-136). */
  function Eligible(t: Tile, fc: seq<real>, cls: int, changing: bool): (e: seq<nat>)
    requires ValidTile(t) && |fc| == |t.landMask|
    ensures forall i :: 0 <= i < |e| ==> e[i] < |fc|
  {
    Where(seq(|t.landMask|, p requires 0 <= p < |t.landMask| =>
      t.landCover[p] == cls && (if changing then fc[p] > 0.0 else fc[p] == 0.0) && t.gains[p] == 0.0))
  }

  /** Candidates are among the pixels tallied for their class, so a class
      whose tally is 0 has no candidate and its quota is never used. */
  lemma EligibleWithinTally(t: Tile, fc: seq<real>, cls: int, changing: bool)
    requires ValidTile(t) && |fc| == |t.landMask|
    ensures |Eligible(t, fc, cls, changing)| <= |Where(TallyMask(t, fc, cls, changing))|
  {
    WhereMonotone(
      seq(|t.landMask|, p requires 0 <= p < |t.landMask| =>
        t.landCover[p] == cls && (if changing then fc[p] > 0.0 else fc[p] == 0.0) && t.gains[p] == 0.0),
      TallyMask(t, fc, cls, changing));
  }

  /** The index list r lists values of v in ascending order. */
  predicate OrderedBy(r: seq<nat>, v: seq<real>)
    requires Indexes(r, |v|)
  {
    forall i, j :: 0 <= i < j < |r| ==> v[r[i]] <= v[r[j]]
  }

  function InsertByValue(i: nat, r: seq<nat>, v: seq<real>): (s: seq<nat>)
    requires i < |v| && Indexes(r, |v|)
    ensures |s| == |r| + 1 && Indexes(s, |v|)
    ensures forall e :: e in s <==> e == i || e in r
  {
    if r == [] then [i]
    else if v[i] < v[r[0]] then [i] + r
    else [r[0]] + InsertByValue(i, r[1..], v)
  }

  lemma {:induction false} InsertByValueOrdered(i: nat, r: seq<nat>, v: seq<real>)
    requires i < |v| && Indexes(r, |v|) && OrderedBy(r, v)
    ensures OrderedBy(InsertByValue(i, r, v), v)
  {
    if r != [] && v[r[0]] <= v[i] {
      var tail := r[1..];
      assert OrderedBy(tail, v) by {
        forall a, b | 0 <= a < b < |tail| ensures v[tail[a]] <= v[tail[b]] {
          assert tail[a] == r[a + 1] && tail[b] == r[b + 1];
        }
      }
      InsertByValueOrdered(i, tail, v);
      var ins := InsertByValue(i, tail, v);
      var s := [r[0]] + ins;
      forall a, b | 0 <= a < b < |s| ensures v[s[a]] <= v[s[b]] {
        if a == 0 {
          assert s[b] in ins;
          if s[b] != i {
            var j :| 0 <= j < |tail| && tail[j] == s[b];
            assert r[j + 1] == s[b];
          }
        } else {
          assert s[a] == ins[a - 1] && s[b] == ins[b - 1];
        }
      }
    } else if r != [] {
      var s := [i] + r;
      forall a, b | 0 <= a < b < |s| ensures v[s[a]] <= v[s[b]] {
        if a == 0 {
          assert v[r[0]] <= v[r[b - 1]];
        } else {
          assert s[a] == r[a - 1] && s[b] == r[b - 1];
        }
      }
    }
  }

  /** `np.argsort`, taken stable: the indices 0 .. n-1 of the first n values,
      by ascending value. */
  function ArgSort(v: seq<real>, n: nat): (r: seq<nat>)
    requires n <= |v|
    ensures |r| == n && Indexes(r, |v|)
    ensures forall e: nat :: e in r <==> e < n
  {
    if n == 0 then [] else InsertByValue(n - 1, ArgSort(v, n - 1), v)
  }

  lemma {:induction false} ArgSortOrdered(v: seq<real>, n: nat)
    requires n <= |v|
    ensures OrderedBy(ArgSort(v, n), v)
  {
    if n > 0 {
      ArgSortOrdered(v, n - 1);
      InsertByValueOrdered(n - 1, ArgSort(v, n - 1), v);
    }
  }

  /** The first index of an argsort holds a least value and its last a greatest. */
  lemma ArgSortEnds(v: seq<real>, k: nat)
    requires k < |v|
    ensures var r := ArgSort(v, |v|);
            v[r[0]] <= v[k] <= v[r[|v| - 1]]
  {
    var r := ArgSort(v, |v|);
    ArgSortOrdered(v, |v|);
    OrderedEnds(r, v, k);
  }

  lemma OrderedEnds(r: seq<nat>, v: seq<real>, k: nat)
    requires Indexes(r, |v|) && OrderedBy(r, v) && k in r
    ensures v[r[0]] <= v[k] <= v[r[|r| - 1]]
  {
    var j :| 0 <= j < |r| && r[j] == k;
    if j > 0 {
      assert v[r[0]] <= v[r[j]];
    }
    if j < |r| - 1 {
      assert v[r[j]] <= v[r[|r| - 1]];
    }
  }

  lemma ScaleWithin(a: real, m: real)
    requires 0.0 <= a <= 1.0 && 0.0 <= m
    ensures 0.0 <= a * m <= m
  {
  }

  /** `round((d - lo) / hi * mx)`: a draw shifted to start at 0, scaled to
      [0, 1], stretched to [0, mx] and rounded (lines 114-117). */
  function Rank(d: real, lo: real, hi: real, mx: nat): (r: nat)
    requires lo <= d <= lo + hi && hi > 0.0
    ensures r <= mx
  {
    var a := (d - lo) / hi;
    assert a <= 1.0 by {
      assert (d - lo) <= hi;
    }
    ScaleWithin(a, mx as real);
    RoundWithin(a * mx as real, mx);
    RoundHalfEven(a * mx as real)
  }

  /** The smallest draw ranks 0 and the largest ranks mx. */
  lemma RankEnds(lo: real, hi: real, mx: nat)
    requires hi > 0.0
    ensures Rank(lo, lo, hi, mx) == 0
    ensures Rank(lo + hi, lo, hi, mx) == mx
  {
    assert (lo - lo) / hi == 0.0;
    assert (lo + hi - lo) / hi == 1.0;
    RoundInteger(0);
    RoundInteger(mx);
  }

  /** `si[round(ri)]` mapped back to pixels: one candidate per draw, the
      candidate at the draw's rank in the order of change. */
  function Picks(e: seq<nat>, si: seq<nat>, draws: seq<real>, lo: real, hi: real): (r: seq<nat>)
    requires |si| == |e| > 0 && Indexes(si, |e|) && hi > 0.0
    requires forall k :: 0 <= k < |draws| ==> lo <= draws[k] <= lo + hi
    ensures |r| == |draws|
    ensures forall i :: 0 <= i < |r| ==> r[i] in e
  {
    seq(|draws|, k requires 0 <= k < |draws| => e[si[Rank(draws[k], lo, hi, |e| - 1)]])
  }

  /** Selection in the changing group. None when the skew draws are all
      equal: the rescaling then divides 0 by 0 and the index cast fails. */
  function ChangingSelection(fc: seq<real>, e: seq<nat>, q: nat, draws: seq<real>): (r: Option<seq<nat>>)
    requires Indexes(e, |fc|) && |draws| == q
    ensures r.None? ==> 1 < q < |e|
    ensures r.Some? ==> |r.value| == (if |e| <= q then |e| else if q <= 1 then 1 else q)
    ensures r.Some? ==> forall i :: 0 <= i < |r.value| ==> r.value[i] in e
  {
    if |e| <= q then Some(e)
    else
      var si := ArgSort(Gather(fc, e), |e|);
      if q > 1 then
        var lo := SeqMin(draws);
        var hi := SeqMax(draws) - lo;
        if hi == 0.0 then None else Some(Picks(e, si, draws, lo, hi))
      else
        Some([e[si[|e| - 1]]])
  }

  /** Up to the quota, every candidate is kept, in row-major order. */
  lemma ChangingKeepsAll(fc: seq<real>, e: seq<nat>, q: nat, draws: seq<real>)
    requires Indexes(e, |fc|) && |draws| == q && |e| <= q
    ensures ChangingSelection(fc, e, q, draws) == Some(e)
  {
  }

  /** With more candidates than a quota of 0 or 1, exactly one pixel is
      taken, and it has the largest change among the candidates. */
  lemma ChangingSinglePicksMaximum(fc: seq<real>, e: seq<nat>, q: nat, draws: seq<real>)
    requires Indexes(e, |fc|) && |draws| == q && q <= 1 && |e| > q
    ensures var r := ChangingSelection(fc, e, q, draws);
            && r.Some? && |r.value| == 1 && r.value[0] in e
            && forall k :: 0 <= k < |e| ==> fc[e[k]] <= fc[r.value[0]]
  {
    var v := Gather(fc, e);
    var si := ArgSort(v, |e|);
    forall k | 0 <= k < |e| ensures fc[e[k]] <= fc[e[si[|e| - 1]]] {
      ArgSortEnds(v, k);
    }
  }

  /** Equal skew draws make the selection fail. */
  lemma ChangingConstantDrawsFail(fc: seq<real>, e: seq<nat>, q: nat, draws: seq<real>)
    requires Indexes(e, |fc|) && |draws| == q && 1 < q < |e|
    requires forall k :: 0 <= k < q ==> draws[k] == draws[0]
    ensures ChangingSelection(fc, e, q, draws).None?
  {
    assert SeqMin(draws) == draws[0] == SeqMax(draws);
  }

  lemma VariedDrawsSpread(draws: seq<real>)
    requires |draws| > 0 && exists k :: 0 <= k < |draws| && draws[k] != draws[0]
    ensures SeqMax(draws) - SeqMin(draws) > 0.0
  {
    var k0 :| 0 <= k0 < |draws| && draws[k0] != draws[0];
    assert SeqMin(draws) <= draws[k0] <= SeqMax(draws);
    assert SeqMin(draws) <= draws[0] <= SeqMax(draws);
  }

  /** With varied draws and more candidates than a quota above 1: exactly q
      candidates come back (repeats allowed), and among them are a candidate
      of least change and one of greatest change, because the smallest draw
      ranks 0 and the largest ranks mx. */
  lemma ChangingSpansRange(fc: seq<real>, e: seq<nat>, q: nat, draws: seq<real>)
    requires Indexes(e, |fc|) && |draws| == q && 1 < q < |e|
    requires exists k :: 0 <= k < q && draws[k] != draws[0]
    ensures var r := ChangingSelection(fc, e, q, draws);
            && r.Some? && |r.value| == q
            && (forall i :: 0 <= i < q ==> r.value[i] in e)
            && (exists i :: 0 <= i < q && forall k :: 0 <= k < |e| ==> fc[r.value[i]] <= fc[e[k]])
            && (exists i :: 0 <= i < q && forall k :: 0 <= k < |e| ==> fc[e[k]] <= fc[r.value[i]])
  {
    var si := ArgSort(Gather(fc, e), |e|);
    var lo := SeqMin(draws);
    var hi := SeqMax(draws) - lo;
    VariedDrawsSpread(draws);
    assert ChangingSelection(fc, e, q, draws) == Some(Picks(e, si, draws, lo, hi));
    ChangeOrderEnds(fc, e);
    PicksSpanRange(fc, e, si, draws, lo, hi);
  }

  /** The candidates at the two ends of the argsort have the least and the
      greatest change. */
  lemma ChangeOrderEnds(fc: seq<real>, e: seq<nat>)
    requires Indexes(e, |fc|) && |e| > 0
    ensures var si := ArgSort(Gather(fc, e), |e|);
            forall k :: 0 <= k < |e| ==> fc[e[si[0]]] <= fc[e[k]] <= fc[e[si[|e| - 1]]]
  {
    var v := Gather(fc, e);
    var si := ArgSort(v, |e|);
    assert v[si[0]] == fc[e[si[0]]] && v[si[|e| - 1]] == fc[e[si[|e| - 1]]];
    forall k | 0 <= k < |e| ensures fc[e[si[0]]] <= fc[e[k]] <= fc[e[si[|e| - 1]]] {
      ArgSortEnds(v, k);
      assert v[k] == fc[e[k]];
    }
  }

  lemma PicksSpanRange(fc: seq<real>, e: seq<nat>, si: seq<nat>, draws: seq<real>, lo: real, hi: real)
    requires Indexes(e, |fc|) && |si| == |e| > 0 && Indexes(si, |e|) && hi > 0.0
    requires |draws| > 0 && lo == SeqMin(draws) && lo + hi == SeqMax(draws)
    requires forall k :: 0 <= k < |e| ==> fc[e[si[0]]] <= fc[e[k]] <= fc[e[si[|e| - 1]]]
    ensures var r := Picks(e, si, draws, lo, hi);
            && (exists i :: 0 <= i < |draws| && forall k :: 0 <= k < |e| ==> fc[r[i]] <= fc[e[k]])
            && (exists i :: 0 <= i < |draws| && forall k :: 0 <= k < |e| ==> fc[e[k]] <= fc[r[i]])
  {
    var iMin :| 0 <= iMin < |draws| && draws[iMin] == lo;
    var iMax :| 0 <= iMax < |draws| && draws[iMax] == lo + hi;
    PicksAtExtremes(e, si, draws, lo, hi, iMin, iMax);
  }

  /** The smallest draw picks the first candidate in the order, the largest the last. */
  lemma PicksAtExtremes(e: seq<nat>, si: seq<nat>, draws: seq<real>, lo: real, hi: real, iMin: nat, iMax: nat)
    requires |si| == |e| > 0 && Indexes(si, |e|) && hi > 0.0
    requires forall k :: 0 <= k < |draws| ==> lo <= draws[k] <= lo + hi
    requires iMin < |draws| && draws[iMin] == lo && iMax < |draws| && draws[iMax] == lo + hi
    ensures Picks(e, si, draws, lo, hi)[iMin] == e[si[0]]
    ensures Picks(e, si, draws, lo, hi)[iMax] == e[si[|e| - 1]]
  {
    RankEnds(lo, hi, |e| - 1);
  }

  /** `np.random.uniform(0, n - 1).astype('uint64')` from a unit draw u. */
  function DrawIndex(n: nat, u: real): (i: nat)
    requires n >= 2 && 0.0 <= u < 1.0
    ensures i <= n - 2
  {
    var m := (n - 1) as real;
    assert m * u < m;
    (m * u).Floor
  }

  /** Selection in the stable group: all candidates up to the quota,
      otherwise one uniform draw per sample (line 140). */
  function StableSelection(e: seq<nat>, q: nat, u: seq<real>): (r: seq<nat>)
    requires |u| == q && forall k :: 0 <= k < q ==> 0.0 <= u[k] < 1.0
    ensures |r| == if |e| <= q then |e| else q
    ensures forall k :: 0 <= k < |r| ==> r[k] in e
  {
    if |e| <= q then e
    else seq(q, k requires 0 <= k < q => e[DrawIndex(|e|, u[k])])
  }

  /** Subsampling yields exactly q candidates, never the last one; within the
      quota every candidate is kept. */
  lemma StableSelectionMeaning(e: seq<nat>, q: nat, u: seq<real>)
    requires |u| == q && forall k :: 0 <= k < q ==> 0.0 <= u[k] < 1.0
    requires StrictlyIncreasing(e)
    ensures |e| <= q ==> StableSelection(e, q, u) == e
    ensures |e| > q ==> |StableSelection(e, q, u)| == q
    ensures |e| > q ==> forall k :: 0 <= k < q ==>
              StableSelection(e, q, u)[k] in e[..|e| - 1]
  {
    if |e| > q {
      var r := StableSelection(e, q, u);
      forall k | 0 <= k < q ensures r[k] in e[..|e| - 1] {
        var j := DrawIndex(|e|, u[k]);
        assert r[k] == e[j] == e[..|e| - 1][j];
      }
    }
  }

  // ---------------------------------------------------------------------
  // Coordinates (lines 154-155)
  // ---------------------------------------------------------------------

  /** Coordinates of pixel p: x from its column, y from its row. The stable
      group's y is offset by +pr/2 where the changing group's is -pr/2. */
  function Locate(w: Window, width: nat, p: nat, changing: bool): (pt: Point)
    requires width > 0
    ensures pt.x == w.x0 + ((p % width) as real + 0.5) * w.pr
    ensures changing ==> pt.y == w.y0 - ((p / width) as real + 0.5) * w.pr
    ensures !changing ==> pt.y == w.y0 - ((p / width) as real - 0.5) * w.pr
  {
    var row := (p / width) as real;
    var col := (p % width) as real;
    Point(w.x0 + w.pr / 2.0 + col * w.pr,
          if changing then w.y0 - w.pr / 2.0 - row * w.pr else w.y0 + w.pr / 2.0 - row * w.pr)
  }

  /** A stable sample lies exactly one pixel above where the same pixel
      would be placed as a changing sample. */
  lemma StableOneCellAbove(w: Window, width: nat, p: nat)
    requires width > 0
    ensures Locate(w, width, p, false).x == Locate(w, width, p, true).x
    ensures Locate(w, width, p, false).y == Locate(w, width, p, true).y + w.pr
  {
  }

  lemma DivideBack(x: real, a: real, pr: real)
    requires pr > 0.0 && x == a * pr
    ensures x / pr == a
  {
  }

  /** The pixel a changing-group location comes from. */
  function PixelAt(w: Window, width: nat, pt: Point): int
    requires w.pr > 0.0
  {
    var col := ((pt.x - w.x0) / w.pr - 0.5).Floor;
    var row := ((w.y0 - pt.y) / w.pr - 0.5).Floor;
    row * width + col
  }

  /** For a positive pixel size, the changing-group location determines
      its pixel; so distinct pixels get distinct locations. */
  lemma LocateInverse(w: Window, width: nat, p: nat)
    requires width > 0 && w.pr > 0.0
    ensures PixelAt(w, width, Locate(w, width, p, true)) == p
  {
    var pt := Locate(w, width, p, true);
    var row := p / width;
    var col := p % width;
    DivideBack(pt.x - w.x0, col as real + 0.5, w.pr);
    DivideBack(w.y0 - pt.y, row as real + 0.5, w.pr);
    assert p == row * width + col;
  }

  lemma LocateInjective(w: Window, width: nat, p: nat, p': nat)
    requires width > 0 && w.pr > 0.0
    requires Locate(w, width, p, true) == Locate(w, width, p', true)
    ensures p == p'
  {
    LocateInverse(w, width, p);
    LocateInverse(w, width, p');
  }

  function Locations(w: Window, width: nat, px: seq<nat>, changing: bool): (r: seq<Point>)
    requires width > 0
    ensures |r| == |px|
  {
    seq(|px|, i requires 0 <= i < |px| => Locate(w, width, px[i], changing))
  }

  // ---------------------------------------------------------------------
  // One class and the whole tile (lines 92-158 and 224-230)
  // ---------------------------------------------------------------------

  /** The changing pixels picked for class v (lines 101-125), drawn with
      class v's skewed draws. */
  function ChangingPicks(t: Tile, d: Draws, pl: Plan, v: nat): (r: Option<seq<nat>>)
    requires ValidTile(t)
    requires |pl.changeQuota| == |pl.classes| && v < |pl.classes|
    ensures r.Some? ==> forall i :: 0 <= i < |r.value| ==>
              r.value[i] in Eligible(t, ForestChange(t), pl.classes[v], true)
  {
    var fc := ForestChange(t);
    var qc := pl.changeQuota[v];
    ChangingSelection(fc, Eligible(t, fc, pl.classes[v], true), qc,
                      seq(qc, k requires 0 <= k < qc => d.skew(v, k)))
  }

  /** The stable pixels picked for class v (lines 134-141), drawn with
      class v's uniform draws. */
  function StablePicks(t: Tile, d: Draws, pl: Plan, v: nat): (r: seq<nat>)
    requires ValidTile(t) && ValidDraws(d)
    requires |pl.stableQuota| == |pl.classes| && v < |pl.classes|
    ensures forall i :: 0 <= i < |r| ==> r[i] in Eligible(t, ForestChange(t), pl.classes[v], false)
  {
    var qs := pl.stableQuota[v];
    StableSelection(Eligible(t, ForestChange(t), pl.classes[v], false), qs,
                    seq(qs, k requires 0 <= k < qs => d.unif(v, k)))
  }

  /** `main(v)`: it fails exactly when the changing selection fails;
      otherwise the frame lists the changing picks' locations in pick
      order, then the stable picks' locations (one pixel higher, line 155). */
  function ClassFrame(t: Tile, w: Window, d: Draws, pl: Plan, v: nat): (r: Option<seq<Point>>)
    requires ValidTile(t) && ValidDraws(d)
    requires |pl.changeQuota| == |pl.classes| && |pl.stableQuota| == |pl.classes| && v < |pl.classes|
    ensures r.None? <==> ChangingPicks(t, d, pl, v).None?
    ensures r.Some? ==>
              var c, s := ChangingPicks(t, d, pl, v).value, StablePicks(t, d, pl, v);
              |r.value| == |c| + |s| &&
              (forall i :: 0 <= i < |c| ==> r.value[i] == Locate(w, t.width, c[i], true)) &&
              (forall j :: 0 <= j < |s| ==> r.value[|c| + j] == Locate(w, t.width, s[j], false))
  {
    var changing := ChangingPicks(t, d, pl, v);
    if changing.None? then None
    else Some(Locations(w, t.width, changing.value, true) + Locations(w, t.width, StablePicks(t, d, pl, v), false))
  }

  /** `pd.concat` of the frames in order; a failing frame stops the script. */
  function Concatenate(fs: seq<Option<seq<Point>>>): Option<seq<Point>>
  {
    if fs == [] then Some([])
    else
      var init := Concatenate(fs[..|fs| - 1]);
      var last := fs[|fs| - 1];
      if init.None? || last.None? then None else Some(init.value + last.value)
  }

  /** The concatenation fails exactly when some frame fails. */
  lemma {:induction false} ConcatenateFailsIff(fs: seq<Option<seq<Point>>>)
    ensures Concatenate(fs).None? <==> exists v :: 0 <= v < |fs| && fs[v].None?
  {
    if fs != [] {
      var init := fs[..|fs| - 1];
      ConcatenateFailsIff(init);
      if exists v :: 0 <= v < |init| && init[v].None? {
        var v :| 0 <= v < |init| && init[v].None?;
        assert fs[v].None?;
      }
      if exists v :: 0 <= v < |fs| && fs[v].None? {
        var v :| 0 <= v < |fs| && fs[v].None?;
        if v < |init| {
          assert init[v].None?;
        }
      }
    }
  }

  /** A successful concatenation holds every frame whole and in order: what
      precedes frame v is the concatenation of the frames before it, and what
      follows it is the concatenation of the frames after it. */
  lemma {:induction false} ConcatenateLayout(fs: seq<Option<seq<Point>>>, v: nat)
    requires Concatenate(fs).Some? && v < |fs|
    ensures fs[v].Some? && Concatenate(fs[..v]).Some? && Concatenate(fs[v + 1..]).Some?
    ensures Concatenate(fs).value ==
              Concatenate(fs[..v]).value + fs[v].value + Concatenate(fs[v + 1..]).value
    decreases |fs|
  {
    var init := fs[..|fs| - 1];
    if v == |fs| - 1 {
      assert fs[..v] == init;
      assert fs[v + 1..] == [];
      assert Concatenate(fs).value == Concatenate(init).value + fs[v].value;
    } else {
      ConcatenateLayout(init, v);
      assert init[..v] == fs[..v];
      assert init[v] == fs[v];
      var post := fs[v + 1..];
      assert post[..|post| - 1] == init[v + 1..];
      assert post[|post| - 1] == fs[|fs| - 1];
      var x, y, z, u := Concatenate(fs[..v]).value, fs[v].value, Concatenate(init[v + 1..]).value, fs[|fs| - 1].value;
      assert Concatenate(post).value == z + u;
      assert Concatenate(fs).value == x + y + z + u;
      assert x + y + z + u == x + y + (z + u);
    }
  }

  /** `main` for one tile: the frame of class v. */
  function ClassMain(t: Tile, w: Window, d: Draws, pl: Plan): (main: int -> Option<seq<Point>>)
    requires ValidTile(t) && ValidDraws(d)
    requires |pl.changeQuota| == |pl.classes| && |pl.stableQuota| == |pl.classes|
    ensures forall v :: main(v).Some? ==> 0 <= v < |pl.classes|
    ensures forall v :: 0 <= v < |pl.classes| ==> main(v) == ClassFrame(t, w, d, pl, v)
  {
    (v: int) => if 0 <= v < |pl.classes| then ClassFrame(t, w, d, pl, v) else None
  }

  /** The sample table: None when the tile has no class (`pd.concat([])`
      raises) or when a class's selection fails. */
  function Samples(t: Tile, w: Window, d: Draws): Option<seq<Point>>
    requires ValidTile(t) && ValidDraws(d)
  {
    var pl := MakePlan(t);
    if |pl.classes| == 0 then None else Concatenate(seq(|pl.classes|, ClassMain(t, w, d, pl)))
  }

  /** The driver loop (lines 224-230): `main(v)` for every class in
      ascending class order, joined into one table. */
  method CollectSamples(t: Tile, w: Window, d: Draws) returns (r: Option<seq<Point>>)
    requires ValidTile(t) && ValidDraws(d)
    ensures r == Samples(t, w, d)
    ensures r.Some? ==> |Classes(t)| > 0
  {
    var pl := MakePlan(t);
    if |pl.classes| == 0 {
      return None;
    }
    r := AppendFrames(|pl.classes|, ClassMain(t, w, d, pl));
  }

  /** `odf = odf + [main(v)]` for v in 0 .. n-1, then `pd.concat(odf)`: the
      frames are joined as they are produced, and the first failing frame
      ends the run. */
  method AppendFrames(n: nat, main: int -> Option<seq<Point>>) returns (r: Option<seq<Point>>)
    ensures r == Concatenate(seq(n, main))
  {
    ghost var fs := seq(n, main);
    var odf: seq<Point> := [];
    var v := 0;
    while v < n
      invariant 0 <= v <= n
      invariant Concatenate(fs[..v]) == Some(odf)
    {
      var frame := main(v);
      assert fs[v] == frame;
      assert fs[..v + 1][..v] == fs[..v];
      if frame.None? {
        assert fs[v].None?;
        ConcatenateFailsIff(fs);
        return None;
      }
      odf := odf + frame.value;
      v := v + 1;
    }
    assert fs[..v] == fs;
    return Some(odf);
  }
}
