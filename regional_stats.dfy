/** Regional change statistics (02_code/extract_regional_change_stats.py).

    For every region the script reads the pixel areas, the change classes
    and the start and end cover of its pixels. For each of the five change
    codes it writes one row: the area of forest, the area lost, the area
    gained, the canopy area at the start and its change. A region's layers
    are given as flattened sequences; the cropping to the region's polygon
    is not part of this model. */
module RegionalStats {
  import opened Common

  /** The five change codes, by name in code order (lines 101-102). */
  const GroupNames: seq<string> := ["not forest", "stable forest", "loss", "gain", "disturbed"]

  datatype Region = Region(area: seq<real>, change: seq<int>, startCover: seq<real>, endCover: seq<real>,
                           region: string, biome: string)

  predicate ValidRegion(r: Region)
  {
    |r.change| == |r.area| && |r.startCover| == |r.area| && |r.endCover| == |r.area|
  }

  /** The five statistics of one change code. */
  datatype Stats = Stats(groupArea: real, startCoverArea: real, coverAreaChange: real,
                         lossArea: real, gainArea: real)

  /** One row of the output table. */
  datatype StatsRow = StatsRow(fid: nat, stats: Stats, region: string, biome: string,
                               group: string, period: string, variable: string)

  // ---------------------------------------------------------------------
  // Cover values (lines 88-95)
  // ---------------------------------------------------------------------

  /** `np.round`, then values above 100 set to 0. */
  function CleanCover(x: real): (r: real)
    ensures r <= 100.0 && r == r.Floor as real
    ensures r == RoundHalfEven(x) as real || r == 0.0
    ensures RoundHalfEven(x) <= 100 ==> r == RoundHalfEven(x) as real
  {
    ClampCover(RoundHalfEven(x) as real)
  }

  /** `sa[sa > 100] = 0`, in place. */
  method ClampInPlace(a: array<real>)
    modifies a
    ensures forall p :: 0 <= p < a.Length ==> a[p] == ClampCover(old(a[p]))
  {
    for p := 0 to a.Length
      invariant forall q :: 0 <= q < a.Length ==> a[q] == if q < p then ClampCover(old(a[q])) else old(a[q])
    {
      if a[p] > 100.0 {
        a[p] := 0.0;
      }
    }
  }

  // ---------------------------------------------------------------------
  // Statistics of one change code (lines 104-117)
  // ---------------------------------------------------------------------

  /** `np.sum(area * keep)`: the area of the kept pixels. */
  function Weighted(a: seq<real>, keep: seq<bool>): real
    requires |keep| == |a|
  {
    if a == [] then 0.0
    else
      var n := |a| - 1;
      Weighted(a[..n], keep[..n]) + (if keep[n] then a[n] else 0.0)
  }

  /** Two disjoint selections inside a third weigh no more than it, for
      non-negative areas. */
  lemma {:induction false} WeightedDisjointWithin(a: seq<real>, k1: seq<bool>, k2: seq<bool>, k3: seq<bool>)
    requires |k1| == |a| && |k2| == |a| && |k3| == |a|
    requires forall i :: 0 <= i < |a| ==> a[i] >= 0.0
    requires forall i :: 0 <= i < |a| ==> !(k1[i] && k2[i]) && (k1[i] ==> k3[i]) && (k2[i] ==> k3[i])
    ensures Weighted(a, k1) + Weighted(a, k2) <= Weighted(a, k3)
    decreases |a|
  {
    if a != [] {
      var n := |a| - 1;
      WeightedDisjointWithin(a[..n], k1[..n], k2[..n], k3[..n]);
    }
  }

  function Mean(s: seq<real>): real
    requires |s| > 0
  {
    Sum(s) / |s| as real
  }

  function Forested(s: seq<real>, e: seq<real>): (b: seq<bool>)
    requires |s| == |e|
    ensures |b| == |s|
  {
    seq(|s|, k requires 0 <= k < |s| => s[k] > 0.0 || e[k] > 0.0)
  }

  function LostOnly(s: seq<real>, e: seq<real>): (b: seq<bool>)
    requires |s| == |e|
    ensures |b| == |s|
  {
    seq(|s|, k requires 0 <= k < |s| => s[k] > 0.0 && e[k] == 0.0)
  }

  function GainedOnly(s: seq<real>, e: seq<real>): (b: seq<bool>)
    requires |s| == |e|
    ensures |b| == |s|
  {
    seq(|s|, k requires 0 <= k < |s| => s[k] == 0.0 && e[k] > 0.0)
  }

  /** `np.sum(m * 0.01 * area[px])` for the mean cover m. */
  function CoverArea(m: real, a: seq<real>): real
  {
    Sum(Scaled(a, m * 0.01))
  }

  /** The statistics of the pixels px, with cleaned covers sa and ea. */
  function StatsOf(area: seq<real>, sa: seq<real>, ea: seq<real>, px: seq<nat>): Stats
    requires |sa| == |area| && |ea| == |area| && Indexes(px, |area|)
  {
    if |px| == 0 then Stats(0.0, 0.0, 0.0, 0.0, 0.0)
    else
      var a, s, e := Gather(area, px), Gather(sa, px), Gather(ea, px);
      var start := CoverArea(Mean(s), a);
      Stats(Weighted(a, Forested(s, e)), start, CoverArea(Mean(e), a) - start,
            Weighted(a, LostOnly(s, e)), Weighted(a, GainedOnly(s, e)))
  }

  /** The statistics of change code v in a region whose covers are cleaned. */
  function ClassStats(area: seq<real>, change: seq<int>, sa: seq<real>, ea: seq<real>, v: int): Stats
    requires |change| == |area| && |sa| == |area| && |ea| == |area|
  {
    var px := Where(seq(|change|, p requires 0 <= p < |change| => change[p] == v));
    StatsOf(area, sa, ea, px)
  }

  /** A code that no pixel carries gives five zeros. */
  lemma AbsentCodeIsZero(area: seq<real>, change: seq<int>, sa: seq<real>, ea: seq<real>, v: int)
    requires |change| == |area| && |sa| == |area| && |ea| == |area|
    requires forall p :: 0 <= p < |change| ==> change[p] != v
    ensures ClassStats(area, change, sa, ea, v) == Stats(0.0, 0.0, 0.0, 0.0, 0.0)
  {
    WhereAllFalse(seq(|change|, p requires 0 <= p < |change| => change[p] == v));
  }

  /** Loss-only and gain-only pixels are forested pixels and never both,
      so for non-negative areas their areas add up to at most the area of
      forest. */
  lemma LossAndGainWithinForest(area: seq<real>, sa: seq<real>, ea: seq<real>, px: seq<nat>)
    requires |sa| == |area| && |ea| == |area| && Indexes(px, |area|)
    requires forall p :: 0 <= p < |area| ==> area[p] >= 0.0
    ensures var st := StatsOf(area, sa, ea, px);
            st.lossArea + st.gainArea <= st.groupArea
  {
    if |px| > 0 {
      var a, s, e := Gather(area, px), Gather(sa, px), Gather(ea, px);
      WeightedDisjointWithin(a, LostOnly(s, e), GainedOnly(s, e), Forested(s, e));
    }
  }

  /** The mean-cover area is the mean cover, as a fraction, times the total area. */
  lemma CoverAreaFactors(m: real, a: seq<real>)
    ensures CoverArea(m, a) == m * 0.01 * Sum(a)
  {
    SumScale(a, m * 0.01);
  }

  /** start_cover_area is mean(sa) x 0.01 x the area, and cover_area_change
      is 0.01 x the area times the change of the mean cover (lines 110-111). */
  lemma CoverFormulas(area: seq<real>, sa: seq<real>, ea: seq<real>, px: seq<nat>)
    requires |sa| == |area| && |ea| == |area| && Indexes(px, |area|) && |px| > 0
    ensures var st := StatsOf(area, sa, ea, px);
            var a := Sum(Gather(area, px));
            && st.startCoverArea == Mean(Gather(sa, px)) * 0.01 * a
            && st.coverAreaChange == 0.01 * a * (Mean(Gather(ea, px)) - Mean(Gather(sa, px)))
  {
    var a, ms, me := Gather(area, px), Mean(Gather(sa, px)), Mean(Gather(ea, px));
    var st := StatsOf(area, sa, ea, px);
    assert st.startCoverArea == CoverArea(ms, a);
    assert st.coverAreaChange == CoverArea(me, a) - CoverArea(ms, a);
    CoverAreaFactors(ms, a);
    CoverAreaFactors(me, a);
    ChangeFactors(ms, me, Sum(a));
  }

  lemma ChangeFactors(ms: real, me: real, a: real)
    ensures me * 0.01 * a - ms * 0.01 * a == 0.01 * a * (me - ms)
  {
  }

  // ---------------------------------------------------------------------
  // The table (lines 59-137)
  // ---------------------------------------------------------------------

  /** `str(lo) + '_' + str(hi)` (line 42). */
  function Period(lo: nat, hi: nat): string
  {
    NatToString(lo) + "_" + NatToString(hi)
  }

  /** Distinct year ranges get distinct period labels: the label splits at
      its only underscore into the two years. */
  lemma PeriodInjective(lo: nat, hi: nat, lo': nat, hi': nat)
    requires Period(lo, hi) == Period(lo', hi')
    ensures lo == lo' && hi == hi'
  {
    var a, b := NatToString(lo), NatToString(lo');
    var s := Period(lo, hi);
    assert |a| == |b| by {
      assert s[|a|] == '_' && s[|b|] == '_';
    }
    assert a == s[..|a|] == b;
    assert NatToString(hi) == s[|a| + 1..] == NatToString(hi');
    NatToStringInjective(lo, lo');
    NatToStringInjective(hi, hi');
  }

  function Cleaned(s: seq<real>): (r: seq<real>)
    ensures |r| == |s|
  {
    seq(|s|, p requires 0 <= p < |s| => CleanCover(s[p]))
  }

  /** Row v (0-based) of region i, from its cleaned covers. */
  function RegionRow(rg: Region, i: nat, v: nat, period: string, variable: string): StatsRow
    requires ValidRegion(rg) && v < 5
  {
    StatsRow(i, ClassStats(rg.area, rg.change, Cleaned(rg.startCover), Cleaned(rg.endCover), v + 1),
             rg.region, rg.biome, GroupNames[v], period, variable)
  }

  /** Lines 88-95 for one region: round the covers, then clear values above
      100 in place. */
  method CleanCovers(rg: Region) returns (sa: array<real>, ea: array<real>)
    requires ValidRegion(rg)
    ensures fresh(sa) && fresh(ea)
    ensures sa[..] == Cleaned(rg.startCover) && ea[..] == Cleaned(rg.endCover)
  {
    sa := new real[|rg.area|](p requires 0 <= p < |rg.area| => RoundHalfEven(rg.startCover[p]) as real);
    ea := new real[|rg.area|](p requires 0 <= p < |rg.area| => RoundHalfEven(rg.endCover[p]) as real);
    ClampInPlace(sa);
    ClampInPlace(ea);
  }

  /** Lines 101-133 for region i: one row per change code, in code order. */
  method RegionRows(rg: Region, i: nat, sa: array<real>, ea: array<real>, period: string, variable: string)
    returns (rows: seq<StatsRow>)
    requires ValidRegion(rg)
    requires sa[..] == Cleaned(rg.startCover) && ea[..] == Cleaned(rg.endCover)
    ensures rows == Block(rg, i, period, variable)
  {
    var s, e := sa[..], ea[..];
    rows := [];
    for v := 0 to 5
      invariant |rows| == v
      invariant forall u :: 0 <= u < v ==> rows[u] == RegionRow(rg, i, u, period, variable)
    {
      var st := ClassStats(rg.area, rg.change, s, e, v + 1);
      var row := StatsRow(i, st, rg.region, rg.biome, GroupNames[v], period, variable);
      assert row == RegionRow(rg, i, v, period, variable);
      rows := rows + [row];
    }
    BlockOf(rows, rg, i, period, variable);
  }

  lemma BlockOf(rows: seq<StatsRow>, rg: Region, i: nat, period: string, variable: string)
    requires ValidRegion(rg) && |rows| == 5
    requires forall u :: 0 <= u < 5 ==> rows[u] == RegionRow(rg, i, u, period, variable)
    ensures rows == Block(rg, i, period, variable)
  {
  }

  /** The five rows of region i, codes 1 to 5 in order. */
  function Block(rg: Region, i: nat, period: string, variable: string): (b: seq<StatsRow>)
    requires ValidRegion(rg)
    ensures |b| == 5
  {
    seq(5, v requires 0 <= v < 5 => RegionRow(rg, i, v, period, variable))
  }

  /** The blocks one after another. */
  function Flatten<T>(blocks: seq<seq<T>>): seq<T>
  {
    if blocks == [] then [] else Flatten(blocks[..|blocks| - 1]) + blocks[|blocks| - 1]
  }

  /** With blocks of five, element v of block i sits at 5 i + v. */
  lemma {:induction false} FlattenIndex<T>(blocks: seq<seq<T>>, i: nat, v: nat)
    requires forall j :: 0 <= j < |blocks| ==> |blocks[j]| == 5
    requires i < |blocks| && v < 5
    ensures |Flatten(blocks)| == 5 * |blocks|
    ensures Flatten(blocks)[5 * i + v] == blocks[i][v]
    decreases |blocks|
  {
    var n := |blocks| - 1;
    var init := blocks[..n];
    FlattenLength(init);
    if i < n {
      FlattenIndex(init, i, v);
    }
  }

  lemma {:induction false} FlattenLength<T>(blocks: seq<seq<T>>)
    requires forall j :: 0 <= j < |blocks| ==> |blocks[j]| == 5
    ensures |Flatten(blocks)| == 5 * |blocks|
    decreases |blocks|
  {
    if blocks != [] {
      FlattenLength(blocks[..|blocks| - 1]);
    }
  }

  function Blocks(regions: seq<Region>, period: string, variable: string): (b: seq<seq<StatsRow>>)
    requires forall i :: 0 <= i < |regions| ==> ValidRegion(regions[i])
    ensures |b| == |regions| && forall j :: 0 <= j < |b| ==> |b[j]| == 5
  {
    seq(|regions|, j requires 0 <= j < |regions| => Block(regions[j], j, period, variable))
  }

  /** The table of one period: the blocks of the regions, in order. */
  function Table(regions: seq<Region>, period: string, variable: string): seq<StatsRow>
    requires forall i :: 0 <= i < |regions| ==> ValidRegion(regions[i])
  {
    Flatten(Blocks(regions, period, variable))
  }

  /** The table has five rows per region, and row 5 i + v is row v of region i. */
  lemma TableIndex(regions: seq<Region>, period: string, variable: string, i: nat, v: nat)
    requires forall j :: 0 <= j < |regions| ==> ValidRegion(regions[j])
    requires i < |regions| && v < 5
    ensures |Table(regions, period, variable)| == 5 * |regions|
    ensures Table(regions, period, variable)[5 * i + v] == RegionRow(regions[i], i, v, period, variable)
  {
    FlattenIndex(Blocks(regions, period, variable), i, v);
  }

  /** Lines 59-137 for one period: five rows per region, codes 1 to 5 in
      order, regions in order. Without regions there is no frame to join,
      and the script fails (None). */
  method RegionalTable(regions: seq<Region>, period: string, variable: string) returns (odf: Option<seq<StatsRow>>)
    requires forall i :: 0 <= i < |regions| ==> ValidRegion(regions[i])
    ensures odf.None? <==> |regions| == 0
    ensures odf.Some? ==> odf.value == Table(regions, period, variable)
  {
    var frames: seq<StatsRow> := [];
    ghost var blocks: seq<seq<StatsRow>> := [];
    for i := 0 to |regions|
      invariant blocks == Blocks(regions[..i], period, variable)
      invariant frames == Flatten(blocks)
    {
      var sa, ea := CleanCovers(regions[i]);
      var rows := RegionRows(regions[i], i, sa, ea, period, variable);
      assert (blocks + [rows])[..i] == blocks;
      blocks := blocks + [rows];
      frames := frames + rows;
    }
    assert regions[..|regions|] == regions;
    // `pd.concat` refuses an empty list of frames, which only zero regions give.
    if frames == [] {
      FlattenLength(blocks);
      odf := None;
    } else {
      odf := Some(frames);
    }
  }
}
