/** Duration of canopy-cover change (02_code/map_change_duration.py).

    For each pixel coded as a loss, the script takes the year-to-year
    differences of its series and keeps the falling steps (loss pass) or the
    rising steps (gain pass). It sorts them ascending and records how many of
    them are needed before their running total reaches 80 percent of their
    sum. Both passes visit the pixels coded 3. */
module ChangeDuration {
  import opened Common

  /** Code of the pixels both passes visit (lines 87 and 114). */
  const LossCode: int := 3

  /** Share of the total change that the counted steps must reach. */
  const Share: real := 0.8

  // ---------------------------------------------------------------------
  // Steps of a series
  // ---------------------------------------------------------------------

  /** `np.append([0], np.diff(x))`: a leading 0 followed by the consecutive
      differences, one value per year. */
  function Differences(s: seq<real>): (v: seq<real>)
    ensures |v| == if |s| == 0 then 1 else |s|
    ensures v[0] == 0.0
    ensures forall i {:trigger v[i]} :: 1 <= i < |s| ==> v[i] == s[i] - s[i - 1]
  {
    [0.0] + seq(if |s| == 0 then 0 else |s| - 1, i requires 0 <= i < |s| - 1 => s[i + 1] - s[i])
  }

  /** Appending a year appends its difference. */
  lemma DifferencesSnoc(s: seq<real>, x: real)
    requires |s| > 0
    ensures Differences(s + [x]) == Differences(s) + [x - s[|s| - 1]]
  {
    var l := Differences(s + [x]);
    var r := Differences(s) + [x - s[|s| - 1]];
    assert |l| == |r|;
    forall i | 0 <= i < |l| ensures l[i] == r[i] {
      if 1 <= i < |s| {
        assert (s + [x])[i] == s[i] && (s + [x])[i - 1] == s[i - 1];
      }
    }
  }

  /** The differences telescope: they add up to the last value minus the first. */
  lemma {:induction false} DifferencesTelescope(s: seq<real>)
    requires |s| > 0
    ensures Sum(Differences(s)) == s[|s| - 1] - s[0]
    decreases |s|
  {
    if |s| == 1 {
      assert Differences(s) == [0.0];
      assert Sum([0.0]) == Sum([]) + 0.0;
    } else {
      var init := s[..|s| - 1];
      DifferencesTelescope(init);
      assert s == init + [s[|s| - 1]];
      DifferencesSnoc(init, s[|s| - 1]);
      SumAppend(Differences(init), [s[|s| - 1] - init[|init| - 1]]);
      assert Sum([s[|s| - 1] - init[|init| - 1]]) == s[|s| - 1] - init[|init| - 1];
    }
  }

  /** `np.abs(v[v < 0])`: the sizes of the falling steps, in year order. */
  function Losses(v: seq<real>): (r: seq<real>)
    ensures |r| <= |v|
    ensures forall i :: 0 <= i < |r| ==> r[i] > 0.0
    decreases |v|
  {
    if |v| == 0 then []
    else Losses(v[..|v| - 1]) + (if v[|v| - 1] < 0.0 then [-v[|v| - 1]] else [])
  }

  /** `np.abs(v[v > 0])`: the rising steps, in year order. */
  function Gains(v: seq<real>): (r: seq<real>)
    ensures |r| <= |v|
    ensures forall i :: 0 <= i < |r| ==> r[i] > 0.0
    decreases |v|
  {
    if |v| == 0 then []
    else Gains(v[..|v| - 1]) + (if v[|v| - 1] > 0.0 then [v[|v| - 1]] else [])
  }

  /** Rises minus falls is the net change. */
  lemma {:induction false} GainsMinusLosses(v: seq<real>)
    ensures Sum(Gains(v)) - Sum(Losses(v)) == Sum(v)
    decreases |v|
  {
    if |v| > 0 {
      var init := v[..|v| - 1];
      var x := v[|v| - 1];
      GainsMinusLosses(init);
      assert v == init + [x];
      SumAppend(init, [x]);
      SumAppend(Gains(init), if x > 0.0 then [x] else []);
      SumAppend(Losses(init), if x < 0.0 then [-x] else []);
      assert Sum([x]) == x;
      assert Sum([-x]) == -x;
    }
  }

  /** No step is kept exactly when no difference has that sign. */
  lemma {:induction false} LossesEmptyIff(v: seq<real>)
    ensures Losses(v) == [] <==> forall i :: 0 <= i < |v| ==> v[i] >= 0.0
    decreases |v|
  {
    if |v| > 0 {
      var init := v[..|v| - 1];
      LossesEmptyIff(init);
      assert forall i :: 0 <= i < |init| ==> init[i] == v[i];
    }
  }

  lemma {:induction false} GainsEmptyIff(v: seq<real>)
    ensures Gains(v) == [] <==> forall i :: 0 <= i < |v| ==> v[i] <= 0.0
    decreases |v|
  {
    if |v| > 0 {
      var init := v[..|v| - 1];
      GainsEmptyIff(init);
      assert forall i :: 0 <= i < |init| ==> init[i] == v[i];
    }
  }

  /** The leading 0 is never kept, so at most |v| - 1 steps are. */
  lemma {:induction false} StepsFewerThanYears(v: seq<real>)
    requires |v| > 0 && v[0] == 0.0
    ensures |Losses(v)| <= |v| - 1 && |Gains(v)| <= |v| - 1
    decreases |v|
  {
    if |v| > 1 {
      var init := v[..|v| - 1];
      StepsFewerThanYears(init);
    }
  }

  /** The series never rises (gain) or never falls (loss) from one year to
      the next. */
  predicate Monotone(s: seq<real>, gain: bool)
  {
    forall i :: 1 <= i < |s| ==> Step(s, i, gain)
  }

  predicate Step(s: seq<real>, i: nat, gain: bool)
    requires 1 <= i < |s|
  {
    if gain then s[i] <= s[i - 1] else s[i] >= s[i - 1]
  }

  /** A series keeps no step of a kind exactly when it is monotone the other way. */
  lemma MonotoneSteps(s: seq<real>, gain: bool)
    ensures Monotone(s, gain) <==> (if gain then Gains(Differences(s)) else Losses(Differences(s))) == []
  {
    var v := Differences(s);
    GainsEmptyIff(v);
    LossesEmptyIff(v);
    if Monotone(s, gain) {
      forall i | 0 <= i < |v| ensures if gain then v[i] <= 0.0 else v[i] >= 0.0 {
        if i > 0 {
          assert Step(s, i, gain);
        }
      }
    }
    if gain && forall i :: 0 <= i < |v| ==> v[i] <= 0.0 {
      forall i | 1 <= i < |s| ensures Step(s, i, gain) {
        assert v[i] <= 0.0;
      }
    }
    if !gain && forall i :: 0 <= i < |v| ==> v[i] >= 0.0 {
      forall i | 1 <= i < |s| ensures Step(s, i, gain) {
        assert v[i] >= 0.0;
      }
    }
  }

  // ---------------------------------------------------------------------
  // Ascending order
  // ---------------------------------------------------------------------

  predicate Ascending(t: seq<real>)
  {
    forall i, j :: 0 <= i < j < |t| ==> t[i] <= t[j]
  }

  /** Insert x into an ascending list before the first larger-or-equal value. */
  function Insert(x: real, t: seq<real>): (r: seq<real>)
    ensures |r| == |t| + 1
    decreases |t|
  {
    if |t| == 0 then [x]
    else if x <= t[0] then [x] + t
    else [t[0]] + Insert(x, t[1..])
  }

  /** A lower bound of x and of t bounds the insertion. */
  lemma {:induction false} InsertBounded(x: real, t: seq<real>, b: real)
    requires b <= x && forall k :: 0 <= k < |t| ==> b <= t[k]
    ensures forall k :: 0 <= k < |t| + 1 ==> b <= Insert(x, t)[k]
    decreases |t|
  {
    if |t| > 0 && x > t[0] {
      InsertBounded(x, t[1..], b);
      assert Insert(x, t) == [t[0]] + Insert(x, t[1..]);
    }
  }

  lemma {:induction false} InsertMultiset(x: real, t: seq<real>)
    ensures multiset(Insert(x, t)) == multiset(t) + multiset{x}
    decreases |t|
  {
    if |t| > 0 && x > t[0] {
      InsertMultiset(x, t[1..]);
      assert t == [t[0]] + t[1..];
    }
  }

  lemma {:induction false} InsertAscending(x: real, t: seq<real>)
    requires Ascending(t)
    ensures Ascending(Insert(x, t))
    decreases |t|
  {
    if |t| > 0 {
      var r := Insert(x, t);
      if x > t[0] {
        var rest := Insert(x, t[1..]);
        InsertAscending(x, t[1..]);
        InsertBounded(x, t[1..], t[0]);
        assert r == [t[0]] + rest;
        forall i, j | 0 <= i < j < |r| ensures r[i] <= r[j] {
          assert r[j] == rest[j - 1];
          if i > 0 {
            assert r[i] == rest[i - 1];
          }
        }
      } else {
        assert r == [x] + t;
        forall i, j | 0 <= i < j < |r| ensures r[i] <= r[j] {
          assert r[j] == t[j - 1];
          if i > 0 {
            assert r[i] == t[i - 1];
          } else {
            assert t[0] <= t[j - 1];
          }
        }
      }
    }
  }

  /** The values of `s[np.argsort(s)]`: the step list in ascending order
      (the ascending arrangement of a multiset of values is unique, so the
      order argsort gives equal values does not matter). */
  function SortAscending(s: seq<real>): (r: seq<real>)
    ensures |r| == |s|
    decreases |s|
  {
    if |s| == 0 then []
    else Insert(s[|s| - 1], SortAscending(s[..|s| - 1]))
  }

  /** Sorting yields an ascending permutation. */
  lemma {:induction false} SortAscendingCorrect(s: seq<real>)
    ensures Ascending(SortAscending(s)) && multiset(SortAscending(s)) == multiset(s)
    decreases |s|
  {
    if |s| > 0 {
      var init := s[..|s| - 1];
      SortAscendingCorrect(init);
      InsertAscending(s[|s| - 1], SortAscending(init));
      InsertMultiset(s[|s| - 1], SortAscending(init));
      assert s == init + [s[|s| - 1]];
    }
  }

  lemma {:induction false} SumInsert(x: real, t: seq<real>)
    ensures Sum(Insert(x, t)) == x + Sum(t)
    decreases |t|
  {
    if |t| == 0 {
      assert Sum([x]) == Sum([]) + x;
    } else if x <= t[0] {
      SumCons(x, t);
    } else {
      SumInsert(x, t[1..]);
      SumCons(t[0], Insert(x, t[1..]));
      SumCons(t[0], t[1..]);
      assert t == [t[0]] + t[1..];
    }
  }

  /** Sorting keeps the total. */
  lemma {:induction false} SumSortAscending(s: seq<real>)
    ensures Sum(SortAscending(s)) == Sum(s)
    decreases |s|
  {
    if |s| > 0 {
      var init := s[..|s| - 1];
      SumSortAscending(init);
      SumInsert(s[|s| - 1], SortAscending(init));
      assert s == init + [s[|s| - 1]];
      SumAppend(init, [s[|s| - 1]]);
      assert Sum([s[|s| - 1]]) == s[|s| - 1];
    }
  }

  /** k copies of m added up. */
  function Repeated(k: nat, m: real): real
  {
    if k == 0 then 0.0 else Repeated(k - 1, m) + m
  }

  lemma {:induction false} RepeatedIsProduct(k: nat, m: real)
    ensures Repeated(k, m) == k as real * m
  {
    if k > 0 {
      RepeatedIsProduct(k - 1, m);
      assert k as real * m == (k - 1) as real * m + m;
    }
  }

  lemma SumAtMost(a: seq<real>, m: real)
    requires forall i :: 0 <= i < |a| ==> a[i] <= m
    ensures Sum(a) <= Repeated(|a|, m)
  {
    var c := seq(|a|, _ => m);
    SumMonotone(a, c);
    SumConstant(c, m);
    RepeatedIsProduct(|a|, m);
  }

  lemma SumAtLeast(a: seq<real>, m: real)
    requires forall i :: 0 <= i < |a| ==> m <= a[i]
    ensures Repeated(|a|, m) <= Sum(a)
  {
    var c := seq(|a|, _ => m);
    SumMonotone(c, a);
    SumConstant(c, m);
    RepeatedIsProduct(|a|, m);
  }

  /** The values before position k of an ascending list are at most t[k - 1]. */
  lemma PrefixBound(t: seq<real>, k: nat)
    requires Ascending(t) && 0 < k <= |t|
    ensures Sum(t[..k]) <= Repeated(k, t[k - 1])
  {
    var a := t[..k];
    assert forall i :: 0 <= i < |a| ==> a[i] <= t[k - 1];
    SumAtMost(a, t[k - 1]);
  }

  /** The values from position k on are at least t[k - 1]. */
  lemma SuffixBound(t: seq<real>, k: nat)
    requires Ascending(t) && 0 < k <= |t|
    ensures Repeated(|t| - k, t[k - 1]) <= Sum(t[k..])
  {
    var b := t[k..];
    forall i | 0 <= i < |b| ensures t[k - 1] <= b[i] {
      assert b[i] == t[k + i];
    }
    SumAtLeast(b, t[k - 1]);
  }

  lemma SumSplit(t: seq<real>, k: nat)
    requires k <= |t|
    ensures Sum(t) == Sum(t[..k]) + Sum(t[k..])
  {
    assert t == t[..k] + t[k..];
    SumAppend(t[..k], t[k..]);
  }

  /** The arithmetic of the bound: k values of sum a at most m, d values of
      sum b at least m, and a reaching 80 percent of a + b > 0, force 5k >= 4(k + d). */
  lemma FourFifthsArithmetic(kn: nat, n: nat, m: real, a: real, b: real)
    requires kn <= n && a + b > 0.0
    requires a <= kn as real * m && (n - kn) as real * m <= b && 5.0 * a >= 4.0 * (a + b)
    ensures 5 * kn >= 4 * n
  {
    var k := kn as real;
    var d := (n - kn) as real;
    assert d * a <= d * (k * m);
    assert k * (d * m) <= k * b;
    assert d * (k * m) == k * (d * m);
    assert (k + d) * a <= k * (a + b);
    assert 4.0 * (a + b) * (k + d) <= 5.0 * a * (k + d);
    assert 5.0 * a * (k + d) <= 5.0 * k * (a + b);
    assert (5.0 * k - 4.0 * (k + d)) * (a + b) >= 0.0;
    assert 5.0 * k >= 4.0 * (k + d);
  }

  // ---------------------------------------------------------------------
  // Years to 80 percent
  // ---------------------------------------------------------------------

  /** The test `x / total >= 0.8`, computed exactly: for a positive total it
      holds when five times the part is at least four times the total. */
  lemma ShareTest(c: real, total: real)
    requires total > 0.0
    ensures c / total >= Share <==> 5.0 * c >= 4.0 * total
  {
    var q := c / total;
    assert c == q * total;
    if q >= Share {
      assert q * total >= Share * total;
    } else {
      assert q * total < Share * total;
    }
  }

  /** The cumulative share after the first j + 1 sorted steps reaches 80
      percent (`np.cumsum(x / np.sum(x)) >= 0.8` over a positive total, in
      the division-free form of ShareTest). */
  predicate Reaches(t: seq<real>, total: real, j: nat)
    requires j < |t|
  {
    5.0 * Sum(t[..j + 1]) >= 4.0 * total
  }

  /** `np.where(...)[0][0]` searched from index k on. */
  function FirstReaching(t: seq<real>, total: real, k: nat): (r: Option<nat>)
    ensures r.Some? ==> k <= r.value < |t| && Reaches(t, total, r.value)
    ensures r.Some? ==> forall j :: k <= j < r.value ==> !Reaches(t, total, j)
    ensures r.None? ==> forall j :: k <= j < |t| ==> !Reaches(t, total, j)
    decreases |t| - k
  {
    if k >= |t| then None
    else if Reaches(t, total, k) then Some(k)
    else FirstReaching(t, total, k + 1)
  }

  /** In ascending order, k values reach 80 percent of a positive total only
      if k is at least 80 percent of the number of values. */
  lemma FourFifthsOfSteps(t: seq<real>, k: nat)
    requires Ascending(t) && 0 < k < |t| && Sum(t) > 0.0
    requires 5.0 * Sum(t[..k]) >= 4.0 * Sum(t)
    ensures 5 * k >= 4 * |t|
  {
    SplitBounds(t, k);
    FourFifthsOfTotals(k, |t|, t[k - 1], Sum(t[..k]), Sum(t[k..]), Sum(t));
  }

  /** The bound as arithmetic on the totals: a prefix total a and a suffix
      total b, separated by the pivot value m. */
  lemma FourFifthsOfTotals(kn: nat, n: nat, m: real, a: real, b: real, total: real)
    requires kn < n && total > 0.0 && 5.0 * a >= 4.0 * total
    requires a <= Repeated(kn, m) && Repeated(n - kn, m) <= b && total == a + b
    ensures 5 * kn >= 4 * n
  {
    RepeatedIsProduct(kn, m);
    RepeatedIsProduct(n - kn, m);
    FourFifthsArithmetic(kn, n, m, a, b);
  }

  /** The prefix up to k is at most k times t[k - 1], the rest at least as
      many times t[k - 1], and the two make up the total. */
  lemma SplitBounds(t: seq<real>, k: nat)
    requires Ascending(t) && 0 < k < |t|
    ensures Sum(t[..k]) <= Repeated(k, t[k - 1])
    ensures Repeated(|t| - k, t[k - 1]) <= Sum(t[k..])
    ensures Sum(t) == Sum(t[..k]) + Sum(t[k..])
  {
    PrefixBound(t, k);
    SuffixBound(t, k);
    SumSplit(t, k);
  }

  /** A non-empty list of positive steps has a positive total, which sorting keeps. */
  lemma PositiveTotal(s: seq<real>)
    requires |s| > 0 && forall i :: 0 <= i < |s| ==> s[i] > 0.0
    ensures Sum(s) > 0.0 && Sum(SortAscending(s)) == Sum(s)
  {
    SumNonNegative(s);
    SumZeroIffAllZero(s);
    SumSortAscending(s);
  }

  /** Lines 99-100 for one step list: 1 + the first index at which the
      running share of the ascending steps reaches 80 percent. An empty list
      has no such index and the script fails there (None). */
  function YearsToShare(s: seq<real>): (r: Option<nat>)
    requires forall i :: 0 <= i < |s| ==> s[i] > 0.0
    ensures |s| == 0 ==> r.None?
    ensures r.Some? ==> 1 <= r.value <= |s|
  {
    if |s| == 0 then None
    else
      match FirstReaching(SortAscending(s), Sum(s), 0)
      case None => None
      case Some(j) => Some(j + 1)
  }

  /** The count exists exactly for a non-empty list; it lies in 1 .. |s| and
      its k smallest steps carry 80 percent of the total. */
  lemma YearsToShareFound(s: seq<real>)
    requires forall i :: 0 <= i < |s| ==> s[i] > 0.0
    ensures YearsToShare(s).None? <==> |s| == 0
    ensures YearsToShare(s).Some? ==>
              var k := YearsToShare(s).value;
              1 <= k <= |s| && 5.0 * Sum(SortAscending(s)[..k]) >= 4.0 * Sum(s)
  {
    if |s| > 0 {
      var t := SortAscending(s);
      PositiveTotal(s);
      var total := Sum(s);
      assert t[..|t|] == t;
      assert Reaches(t, total, |t| - 1);
      var r := FirstReaching(t, total, 0);
      assert r.Some?;
    }
  }

  /** No smaller count reaches 80 percent. */
  lemma YearsToShareLeast(s: seq<real>)
    requires forall i :: 0 <= i < |s| ==> s[i] > 0.0
    ensures YearsToShare(s).Some? ==>
              var k := YearsToShare(s).value;
              forall j :: 1 <= j < k ==> 5.0 * Sum(SortAscending(s)[..j]) < 4.0 * Sum(s)
  {
    if |s| > 0 && YearsToShare(s).Some? {
      var t := SortAscending(s);
      PositiveTotal(s);
      var k := YearsToShare(s).value;
      forall j | 1 <= j < k ensures 5.0 * Sum(t[..j]) < 4.0 * Sum(s) {
        assert !Reaches(t, Sum(s), j - 1);
      }
    }
  }

  /** Because the smallest steps are counted first, the count is never below
      80 percent of the number of steps. */
  lemma YearsToShareFourFifths(s: seq<real>)
    requires forall i :: 0 <= i < |s| ==> s[i] > 0.0
    ensures YearsToShare(s).Some? ==> 5 * YearsToShare(s).value >= 4 * |s|
  {
    YearsToShareFound(s);
    if YearsToShare(s).Some? && YearsToShare(s).value < |s| {
      PositiveTotal(s);
      SortAscendingCorrect(s);
      FourFifthsOfSteps(SortAscending(s), YearsToShare(s).value);
    }
  }

  /** The count is the least k whose k smallest steps carry 80 percent of
      the total; it exists for every non-empty list, lies in 1 .. |s| and
      is never below 80 percent of the number of steps. */
  lemma YearsToShareMeaning(s: seq<real>)
    requires forall i :: 0 <= i < |s| ==> s[i] > 0.0
    ensures YearsToShare(s).None? <==> |s| == 0
    ensures YearsToShare(s).Some? ==>
              var k := YearsToShare(s).value;
              var t := SortAscending(s);
              && 1 <= k <= |s|
              && 5.0 * Sum(t[..k]) >= 4.0 * Sum(s)
              && (forall j :: 1 <= j < k ==> 5.0 * Sum(t[..j]) < 4.0 * Sum(s))
              && 5 * k >= 4 * |s|
  {
    YearsToShareFound(s);
    YearsToShareLeast(s);
    YearsToShareFourFifths(s);
  }

  /** The count of one pixel's series in the loss pass or the gain pass. */
  function Years(s: seq<real>, gain: bool): Option<nat>
  {
    YearsToShare(if gain then Gains(Differences(s)) else Losses(Differences(s)))
  }

  /** A pass fails exactly on a series that never falls (loss pass) or
      never rises (gain pass); otherwise its count is below the number of
      years. */
  lemma YearsMeaning(s: seq<real>, gain: bool)
    ensures Years(s, gain).None? <==> Monotone(s, gain)
    ensures Years(s, gain).Some? ==> 1 <= Years(s, gain).value <= |s| - 1
  {
    var v := Differences(s);
    YearsToShareMeaning(if gain then Gains(v) else Losses(v));
    StepsFewerThanYears(v);
    MonotoneSteps(s, gain);
  }

  // ---------------------------------------------------------------------
  // The two passes over the grid
  // ---------------------------------------------------------------------

  /** Series of pixel p as read at lines 70-74. */
  function PixelSeries(layers: seq<seq<real>>, p: nat): seq<real>
    requires forall f :: 0 <= f < |layers| ==> p < |layers[f]|
  {
    seq(|layers|, f requires 0 <= f < |layers| => layers[f][p])
  }

  /** A count stored in the uint8 raster: wrapped modulo 256. */
  function Stored(k: int): (b: int)
    ensures 0 <= b < 256
    ensures 0 <= k < 256 ==> b == k
  {
    k % 256
  }

  /** The raster one pass writes, or None when it fails on some pixel:
      counts at the code-3 pixels (stored as uint8) and 0 everywhere else. */
  function DurationMap(layers: seq<seq<real>>, npx: nat, change: seq<int>, gain: bool): (r: Option<seq<int>>)
    requires SameGrid(layers, npx) && |change| == npx
    ensures r.Some? ==> |r.value| == npx && forall q :: 0 <= q < npx ==> 0 <= r.value[q] < 256
  {
    if forall q :: 0 <= q < npx && change[q] == LossCode ==> Years(PixelSeries(layers, q), gain).Some?
    then Some(seq(npx, q requires 0 <= q < npx =>
                if change[q] == LossCode then Stored(Years(PixelSeries(layers, q), gain).value) else 0))
    else None
  }

  /** Both rasters are 0 away from code 3, in particular at the code-4
      (gain) pixels. */
  lemma DurationMapZeroElsewhere(layers: seq<seq<real>>, npx: nat, change: seq<int>, gain: bool, q: nat)
    requires SameGrid(layers, npx) && |change| == npx && q < npx && change[q] != LossCode
    requires DurationMap(layers, npx, change, gain).Some?
    ensures DurationMap(layers, npx, change, gain).value[q] == 0
  {
  }

  /** With fewer than 257 years a stored count is the count itself, between
      1 and the number of years minus one. */
  lemma DurationMapCount(layers: seq<seq<real>>, npx: nat, change: seq<int>, gain: bool, q: nat)
    requires SameGrid(layers, npx) && |change| == npx && q < npx && change[q] == LossCode
    requires DurationMap(layers, npx, change, gain).Some? && |layers| <= 256
    ensures var k := DurationMap(layers, npx, change, gain).value[q];
            k == Years(PixelSeries(layers, q), gain).value && 1 <= k <= |layers| - 1
  {
    var s := PixelSeries(layers, q);
    assert Years(s, gain).Some?;
    var k := Years(s, gain).value;
    assert DurationMap(layers, npx, change, gain).value[q] == k % 256;
    assert 1 <= k <= |layers| - 1 by { YearsMeaning(s, gain); }
    SmallRemainder(k);
  }

  lemma SmallRemainder(k: int)
    requires 0 <= k < 256
    ensures k % 256 == k
  {
  }

  /** A pass fails as soon as one code-3 pixel never falls (loss pass) or
      never rises (gain pass); in particular the gain pass fails whenever a
      code-3 pixel declines steadily. */
  lemma DurationMapFails(layers: seq<seq<real>>, npx: nat, change: seq<int>, gain: bool, q: nat)
    requires SameGrid(layers, npx) && |change| == npx && q < npx && change[q] == LossCode
    requires Monotone(PixelSeries(layers, q), gain)
    ensures DurationMap(layers, npx, change, gain).None?
  {
    YearsMeaning(PixelSeries(layers, q), gain);
  }

  /** Lines 68-75: the pixels-by-years cube. */
  method LoadCube(layers: seq<seq<real>>, npx: nat) returns (ia: array2<real>)
    requires SameGrid(layers, npx)
    ensures fresh(ia)
    ensures ia.Length0 == npx && ia.Length1 == |layers|
    ensures forall p :: 0 <= p < npx ==> Row(ia, p) == PixelSeries(layers, p)
  {
    ia := new real[npx, |layers|];
    for f := 0 to |layers|
      invariant forall p, g :: 0 <= p < npx && 0 <= g < f ==> ia[p, g] == layers[g][p]
    {
      StoreLayer(ia, f, layers[f]);
    }
    forall p | 0 <= p < npx ensures Row(ia, p) == PixelSeries(layers, p) {
      assert forall g :: 0 <= g < |layers| ==> Row(ia, p)[g] == layers[g][p];
    }
  }

  /** The pixels both passes visit: `change == 3`. */
  function LossPixels(change: seq<int>): (b: seq<bool>)
    ensures |b| == |change| && forall q :: 0 <= q < |change| ==> (b[q] <==> change[q] == LossCode)
  {
    seq(|change|, q requires 0 <= q < |change| => change[q] == LossCode)
  }

  /** One pass (lines 87-102, or 114-130), given the count of a stored
      series: each code-3 pixel, in row-major order, receives its count as
      uint8; the first pixel without a count stops the pass (ok is false)
      with the earlier pixels written. */
  method DurationPass(nrYears: array<int>, ia: array2<real>, change: seq<int>, count: seq<real> -> Option<nat>)
    returns (ok: bool)
    requires ia.Length0 == nrYears.Length == |change|
    modifies nrYears
    ensures ok <==> forall q :: 0 <= q < |change| && change[q] == LossCode ==> count(Row(ia, q)).Some?
    ensures forall q :: 0 <= q < |change| ==>
              if ok && change[q] == LossCode then nrYears[q] == count(Row(ia, q)).value % 256
              else if ok then nrYears[q] == old(nrYears[q])
              else nrYears[q] == old(nrYears[q]) ||
                   (change[q] == LossCode && count(Row(ia, q)).Some? &&
                    nrYears[q] == count(Row(ia, q)).value % 256)
  {
    var px := Where(LossPixels(change));
    ghost var done: set<nat> := {};
    for i := 0 to |px|
      invariant done == set j | 0 <= j < i :: px[j]
      invariant forall q :: q in done ==> q < |change| && change[q] == LossCode && count(Row(ia, q)).Some?
      invariant forall q :: 0 <= q < |change| ==>
                  if q in done then nrYears[q] == count(Row(ia, q)).value % 256
                  else nrYears[q] == old(nrYears[q])
    {
      var p := px[i];
      var y := count(Row(ia, p));
      if y.None? {
        return false;
      }
      nrYears[p] := y.value % 256;
      done := done + {p};
    }
    forall q | 0 <= q < |change| && change[q] == LossCode ensures q in done {
      assert LossPixels(change)[q];
      var j :| 0 <= j < |px| && px[j] == q;
    }
    ok := true;
  }

  /** The whole script: the loss raster, then the gain raster written from
      the reset buffer. A failing loss pass stops the script before either
      raster is written; with no input layer the script fails when it names
      the output after the first file. */
  method MapChangeDuration(layers: seq<seq<real>>, npx: nat, change: seq<int>)
    returns (lossMap: Option<seq<int>>, gainMap: Option<seq<int>>)
    requires SameGrid(layers, npx) && |change| == npx
    ensures lossMap == if |layers| == 0 then None else DurationMap(layers, npx, change, false)
    ensures gainMap == if lossMap.None? then None else DurationMap(layers, npx, change, true)
  {
    var ia := LoadCube(layers, npx);
    var nrYears := new int[npx](_ => 0);
    var ok := DurationPass(nrYears, ia, change, s => Years(s, false));
    if !ok || |layers| == 0 {
      return None, None;
    }
    lossMap := Some(nrYears[..]);
    PassIsDurationMap(layers, npx, change, false, ia, nrYears[..]);
    Fill(nrYears, 0);
    ok := DurationPass(nrYears, ia, change, s => Years(s, true));
    gainMap := if ok then Some(nrYears[..]) else None;
    if ok {
      PassIsDurationMap(layers, npx, change, true, ia, nrYears[..]);
    }
  }

  /** A completed pass from a zeroed buffer writes the pass's raster; a
      failed one means the pass has no raster. */
  lemma PassIsDurationMap(layers: seq<seq<real>>, npx: nat, change: seq<int>, gain: bool,
                          ia: array2<real>, out: seq<int>)
    requires SameGrid(layers, npx) && |change| == npx == |out| && ia.Length0 == npx
    requires forall p :: 0 <= p < npx ==> Row(ia, p) == PixelSeries(layers, p)
    requires forall q :: 0 <= q < npx && change[q] == LossCode ==> Years(Row(ia, q), gain).Some?
    requires forall q :: 0 <= q < npx ==>
               out[q] == if change[q] == LossCode then Years(Row(ia, q), gain).value % 256 else 0
    ensures DurationMap(layers, npx, change, gain) == Some(out)
  {
    var m := seq(npx, q requires 0 <= q < npx =>
                if change[q] == LossCode then Stored(Years(PixelSeries(layers, q), gain).value) else 0);
    forall q | 0 <= q < npx ensures m[q] == out[q] {
      assert Row(ia, q) == PixelSeries(layers, q);
    }
    assert m == out;
  }
}
