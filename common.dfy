/** Vocabulary shared by the canopy-cover scripts: optional results, the rule
    that removes invalid cover values, sums and extrema of series, the index
    list of a boolean mask (numpy's `where`), numpy's rounding, integer
    ceilings, decimal rendering and the sorted distinct values (numpy's
    `unique`). */
module Common {

  datatype Option<T> = None | Some(value: T)

  // ---------------------------------------------------------------------
  // Cover values
  // ---------------------------------------------------------------------

  /** A cover value above 100 percent is invalid and is replaced by 0. */
  function ClampCover(x: real): (r: real)
    ensures r <= 100.0
    ensures r == x || r == 0.0
    ensures r == x <==> x <= 100.0
  {
    if x > 100.0 then 0.0 else x
  }

  /** The larger of two integers. */
  function Max(a: int, b: int): (m: int)
    ensures m >= a && m >= b && (m == a || m == b)
  {
    if a < b then b else a
  }

  // ---------------------------------------------------------------------
  // Sums
  // ---------------------------------------------------------------------

  /** Sum of a series, accumulated from the left as numpy and the loops do. */
  function Sum(s: seq<real>): real
    decreases |s|
  {
    if s == [] then 0.0 else Sum(s[..|s| - 1]) + s[|s| - 1]
  }

  lemma {:induction false} SumAppend(a: seq<real>, b: seq<real>)
    ensures Sum(a + b) == Sum(a) + Sum(b)
    decreases |b|
  {
    if b == [] {
      assert a + b == a;
    } else {
      assert (a + b)[..|a + b| - 1] == a + b[..|b| - 1];
      SumAppend(a, b[..|b| - 1]);
    }
  }

  lemma SumCons(x: real, s: seq<real>)
    ensures Sum([x] + s) == x + Sum(s)
  {
    SumAppend([x], s);
    assert Sum([x]) == Sum([]) + x;
  }

  lemma {:induction false} SumNonNegative(s: seq<real>)
    requires forall i :: 0 <= i < |s| ==> s[i] >= 0.0
    ensures Sum(s) >= 0.0
    decreases |s|
  {
    if s != [] {
      SumNonNegative(s[..|s| - 1]);
    }
  }

  /** A sum of non-negative terms is zero only when every term is zero. */
  lemma {:induction false} SumZeroIffAllZero(s: seq<real>)
    requires forall i :: 0 <= i < |s| ==> s[i] >= 0.0
    ensures Sum(s) == 0.0 <==> forall i :: 0 <= i < |s| ==> s[i] == 0.0
    decreases |s|
  {
    if s != [] {
      var init := s[..|s| - 1];
      SumZeroIffAllZero(init);
      SumNonNegative(init);
      if Sum(s) == 0.0 {
        forall i | 0 <= i < |s| ensures s[i] == 0.0 {
          if i < |s| - 1 { assert s[i] == init[i]; }
        }
      } else {
        assert Sum(init) != 0.0 || s[|s| - 1] != 0.0;
        if Sum(init) != 0.0 {
          var j :| 0 <= j < |init| && init[j] != 0.0;
          assert s[j] == init[j];
        }
      }
    }
  }

  /** Every term multiplied by c. */
  function Scaled(s: seq<real>, c: real): (t: seq<real>)
    ensures |t| == |s| && forall i :: 0 <= i < |s| ==> t[i] == c * s[i]
  {
    seq(|s|, i requires 0 <= i < |s| => c * s[i])
  }

  /** Multiplying every term by a constant multiplies the sum by it. */
  lemma {:induction false} SumScale(s: seq<real>, c: real)
    ensures Sum(Scaled(s, c)) == c * Sum(s)
    decreases |s|
  {
    var t := Scaled(s, c);
    if s != [] {
      var init := s[..|s| - 1];
      SumScale(init, c);
      var tInit := Scaled(init, c);
      assert t[..|t| - 1] == tInit by {
        forall i | 0 <= i < |tInit| ensures t[..|t| - 1][i] == tInit[i] {
          assert init[i] == s[i];
        }
      }
    }
  }

  /** A term-wise smaller series has a smaller sum. */
  lemma {:induction false} SumMonotone(s: seq<real>, t: seq<real>)
    requires |s| == |t|
    requires forall i :: 0 <= i < |s| ==> s[i] <= t[i]
    ensures Sum(s) <= Sum(t)
    decreases |s|
  {
    if s != [] {
      SumMonotone(s[..|s| - 1], t[..|t| - 1]);
    }
  }

  /** The terms of a constant series of length n sum to n times the constant. */
  lemma {:induction false} SumConstant(s: seq<real>, c: real)
    requires forall i :: 0 <= i < |s| ==> s[i] == c
    ensures Sum(s) == |s| as real * c
    decreases |s|
  {
    if s != [] {
      SumConstant(s[..|s| - 1], c);
    }
  }

  // ---------------------------------------------------------------------
  // Extrema of a non-empty series (numpy's min and max along an axis)
  // ---------------------------------------------------------------------

  function Product(a: real, b: real): real
  {
    a * b
  }

  lemma ProductPositive(a: real, b: real)
    requires a > 0.0 && b > 0.0
    ensures Product(a, b) > 0.0
  {
  }

  /** The square `x ** 2`: never negative, and 0 only for 0. */
  function Sq(x: real): (r: real)
    ensures r >= 0.0
    ensures x != 0.0 ==> r > 0.0
    ensures x == 0.0 ==> r == 0.0
  {
    if x > 0.0 then ProductPositive(x, x); Product(x, x)
    else if x < 0.0 then ProductPositive(-x, -x); assert Product(x, x) == Product(-x, -x); Product(x, x)
    else Product(x, x)
  }

  function SeqMin(s: seq<real>): (m: real)
    requires |s| > 0
    ensures m in s
    ensures forall i :: 0 <= i < |s| ==> m <= s[i]
    decreases |s|
  {
    if |s| == 1 then s[0]
    else
      var m' := SeqMin(s[..|s| - 1]);
      assert s[..|s| - 1][0] == s[0];
      if s[|s| - 1] < m' then s[|s| - 1] else m'
  }

  function SeqMax(s: seq<real>): (m: real)
    requires |s| > 0
    ensures m in s
    ensures forall i :: 0 <= i < |s| ==> s[i] <= m
    decreases |s|
  {
    if |s| == 1 then s[0]
    else
      var m' := SeqMax(s[..|s| - 1]);
      if s[|s| - 1] > m' then s[|s| - 1] else m'
  }

  // ---------------------------------------------------------------------
  // Index lists of boolean masks (numpy's where on a flattened grid)
  // ---------------------------------------------------------------------

  predicate StrictlyIncreasing(s: seq<nat>)
  {
    forall i, j :: 0 <= i < j < |s| ==> s[i] < s[j]
  }

  /** Every listed position lies below n. */
  predicate Indexes(px: seq<nat>, n: nat)
  {
    forall k :: 0 <= k < |px| ==> px[k] < n
  }

  /** numpy's fancy indexing `a[px]`: the values at the listed positions,
      in list order. */
  function Gather(a: seq<real>, px: seq<nat>): (r: seq<real>)
    requires Indexes(px, |a|)
    ensures |r| == |px|
  {
    seq(|px|, k requires 0 <= k < |px| => a[px[k]])
  }

  /** The positions holding true, in ascending (row-major) order. */
  function Where(b: seq<bool>): (r: seq<nat>)
    ensures StrictlyIncreasing(r)
    ensures forall i :: 0 <= i < |r| ==> r[i] < |b| && b[r[i]]
    ensures forall p :: 0 <= p < |b| && b[p] ==> p in r
    ensures |r| <= |b|
    decreases |b|
  {
    if b == [] then []
    else
      var init := Where(b[..|b| - 1]);
      assert forall p :: 0 <= p < |b| - 1 && b[p] ==> b[..|b| - 1][p];
      if b[|b| - 1] then init + [|b| - 1] else init
  }

  lemma WhereAllFalse(b: seq<bool>)
    requires forall p :: 0 <= p < |b| ==> !b[p]
    ensures Where(b) == []
  {
  }

  /** A mask that implies another selects no more positions. */
  lemma {:induction false} WhereMonotone(a: seq<bool>, b: seq<bool>)
    requires |a| == |b|
    requires forall p :: 0 <= p < |a| && a[p] ==> b[p]
    ensures |Where(a)| <= |Where(b)|
    decreases |a|
  {
    if a != [] {
      WhereMonotone(a[..|a| - 1], b[..|b| - 1]);
    }
  }

  // ---------------------------------------------------------------------
  // Rounding (numpy's round: to nearest, ties to even) and ceilings
  // ---------------------------------------------------------------------

  function RoundHalfEven(x: real): (r: int)
    ensures r as real - 0.5 <= x <= r as real + 0.5
    ensures x - x.Floor as real == 0.5 ==> r % 2 == 0
  {
    var f := x.Floor;
    var d := x - f as real;
    if d < 0.5 then f
    else if d > 0.5 then f + 1
    else if f % 2 == 0 then f
    else f + 1
  }

  /** Rounding keeps a value of [0, m] inside [0, m] for an integer bound m. */
  lemma RoundWithin(x: real, m: int)
    requires 0.0 <= x <= m as real
    ensures 0 <= RoundHalfEven(x) <= m
  {
  }

  /** Rounding an integer value gives that integer back. */
  lemma RoundInteger(k: int)
    ensures RoundHalfEven(k as real) == k
  {
  }

  /** The least integer r with b * r >= a, for a positive divisor. */
  function CeilDiv(a: int, b: int): (r: int)
    requires b > 0
    ensures b * r >= a
    ensures b * (r - 1) < a
  {
    var q := a / b;
    var m := a % b;
    assert a == b * q + m;
    if m == 0 then q else q + 1
  }

  // ---------------------------------------------------------------------
  // Decimal rendering of integers (Python's str and format)
  // ---------------------------------------------------------------------

  predicate IsDigits(s: string)
  {
    forall i :: 0 <= i < |s| ==> '0' <= s[i] <= '9'
  }

  function DigitChar(d: nat): (c: char)
    requires d < 10
    ensures '0' <= c <= '9' && c as int - '0' as int == d
  {
    ('0' as int + d) as char
  }

  /** Decimal digits of n without leading zeros, as str(n) gives them. */
  function NatToString(n: nat): (s: string)
    ensures |s| >= 1 && IsDigits(s)
    ensures n > 0 ==> s[0] != '0'
    decreases n
  {
    if n < 10 then [DigitChar(n)] else NatToString(n / 10) + [DigitChar(n % 10)]
  }

  /** Value of a string of decimal digits. */
  function ParseDigits(s: string): nat
    requires IsDigits(s)
    decreases |s|
  {
    if s == [] then 0 else ParseDigits(s[..|s| - 1]) * 10 + (s[|s| - 1] as int - '0' as int)
  }

  lemma {:induction false} ParseNatToString(n: nat)
    ensures ParseDigits(NatToString(n)) == n
    decreases n
  {
    if n >= 10 {
      var s := NatToString(n);
      assert s[..|s| - 1] == NatToString(n / 10);
      ParseNatToString(n / 10);
    }
  }

  lemma NatToStringInjective(m: nat, n: nat)
    requires NatToString(m) == NatToString(n)
    ensures m == n
  {
    ParseNatToString(m);
    ParseNatToString(n);
  }

  /** Leading zeros add nothing to the value of a digit string. */
  lemma {:induction false} ParseLeadingZeros(z: string, s: string)
    requires forall i :: 0 <= i < |z| ==> z[i] == '0'
    requires IsDigits(s)
    ensures IsDigits(z + s) && ParseDigits(z + s) == ParseDigits(s)
    decreases |s|
  {
    assert IsDigits(z + s);
    if s == [] {
      assert z + s == z;
      AllZerosParseToZero(z);
    } else {
      var s' := s[..|s| - 1];
      assert (z + s)[..|z + s| - 1] == z + s';
      ParseLeadingZeros(z, s');
    }
  }

  lemma {:induction false} AllZerosParseToZero(z: string)
    requires forall i :: 0 <= i < |z| ==> z[i] == '0'
    ensures IsDigits(z) && ParseDigits(z) == 0
    decreases |z|
  {
    if z != [] {
      AllZerosParseToZero(z[..|z| - 1]);
    }
  }

  function Zeros(n: nat): (z: string)
    ensures |z| == n && forall i :: 0 <= i < n ==> z[i] == '0'
  {
    seq(n, _ => '0')
  }

  // ---------------------------------------------------------------------
  // Sorted distinct values (numpy's unique) for a strict total order
  // ---------------------------------------------------------------------

  ghost predicate StrictTotalOrder<T(!new)>(less: (T, T) -> bool)
  {
    && (forall a :: !less(a, a))
    && (forall a, b, c :: less(a, b) && less(b, c) ==> less(a, c))
    && (forall a, b :: a != b ==> less(a, b) || less(b, a))
  }

  predicate SortedStrictly<T>(s: seq<T>, less: (T, T) -> bool)
  {
    forall i, j :: 0 <= i < j < |s| ==> less(s[i], s[j])
  }

  function InsertUnique<T(==)>(x: T, r: seq<T>, less: (T, T) -> bool): seq<T>
    decreases |r|
  {
    if r == [] then [x]
    else if x == r[0] then r
    else if less(x, r[0]) then [x] + r
    else [r[0]] + InsertUnique(x, r[1..], less)
  }

  /** The distinct elements of s in ascending order. */
  function Unique<T(==)>(s: seq<T>, less: (T, T) -> bool): seq<T>
    decreases |s|
  {
    if s == [] then [] else InsertUnique(s[|s| - 1], Unique(s[..|s| - 1], less), less)
  }

  lemma {:induction false} InsertUniqueCorrect<T(!new)>(x: T, r: seq<T>, less: (T, T) -> bool)
    requires StrictTotalOrder(less)
    requires SortedStrictly(r, less)
    ensures SortedStrictly(InsertUnique(x, r, less), less)
    ensures forall y :: y in InsertUnique(x, r, less) <==> y == x || y in r
    decreases |r|
  {
    if r != [] && x != r[0] && !less(x, r[0]) {
      var tail := r[1..];
      assert SortedStrictly(tail, less) by {
        forall i, j | 0 <= i < j < |tail| ensures less(tail[i], tail[j]) {
          assert tail[i] == r[i + 1] && tail[j] == r[j + 1];
        }
      }
      InsertUniqueCorrect(x, tail, less);
      var ins := InsertUnique(x, tail, less);
      assert less(r[0], x);
      forall y | y in ins ensures less(r[0], y) {
        if y != x {
          var k :| 0 <= k < |tail| && tail[k] == y;
          assert r[k + 1] == y;
        }
      }
      var out := [r[0]] + ins;
      forall i, j | 0 <= i < j < |out| ensures less(out[i], out[j]) {
        if i == 0 {
          assert out[j] in ins;
        } else {
          assert out[i] == ins[i - 1] && out[j] == ins[j - 1];
        }
      }
      assert r == [r[0]] + tail;
    } else if r != [] && x != r[0] {
      var out := [x] + r;
      forall i, j | 0 <= i < j < |out| ensures less(out[i], out[j]) {
        if i == 0 && j > 1 {
          assert out[j] == r[j - 1];
          assert less(r[0], r[j - 1]);
        }
      }
    }
  }

  lemma {:induction false} UniqueCorrect<T(!new)>(s: seq<T>, less: (T, T) -> bool)
    requires StrictTotalOrder(less)
    ensures SortedStrictly(Unique(s, less), less)
    ensures forall y :: y in Unique(s, less) <==> y in s
    decreases |s|
  {
    if s != [] {
      var init := s[..|s| - 1];
      UniqueCorrect(init, less);
      InsertUniqueCorrect(s[|s| - 1], Unique(init, less), less);
      assert s == init + [s[|s| - 1]];
      forall y ensures y in s <==> y in init || y == s[|s| - 1] {
      }
    }
  }

  /** The first element of a strictly sorted sequence is its least element. */
  lemma SortedFirstIsLeast<T(!new)>(s: seq<T>, less: (T, T) -> bool, y: T)
    requires StrictTotalOrder(less)
    requires SortedStrictly(s, less)
    requires y in s && y != s[0]
    ensures less(s[0], y)
  {
    var k :| 0 <= k < |s| && s[k] == y;
  }

  // ---------------------------------------------------------------------
  // Raster grids
  // ---------------------------------------------------------------------

  /** All layers share one grid of npx pixels, flattened row-major. */
  predicate SameGrid<T>(layers: seq<seq<T>>, npx: nat)
  {
    forall f :: 0 <= f < |layers| ==> |layers[f]| == npx
  }

  /** The stored series of pixel p: row p of a pixels-by-layers cube. */
  function Row(ia: array2<real>, p: nat): (r: seq<real>)
    reads ia
    requires p < ia.Length0
    ensures |r| == ia.Length1
  {
    seq(ia.Length1, f requires 0 <= f < ia.Length1 reads ia => ia[p, f])
  }

  /** The slice assignment `ia[:, :, f] = a`: only layer f of the cube changes. */
  method StoreLayer(ia: array2<real>, f: nat, a: seq<real>)
    requires f < ia.Length1 && |a| == ia.Length0
    modifies ia
    ensures forall p, g :: 0 <= p < ia.Length0 && 0 <= g < ia.Length1 ==>
              ia[p, g] == if g == f then a[p] else old(ia[p, g])
  {
    for p := 0 to ia.Length0
      invariant forall q, g :: 0 <= q < ia.Length0 && 0 <= g < ia.Length1 ==>
                  ia[q, g] == if g == f && q < p then a[q] else old(ia[q, g])
    {
      ia[p, f] := a[p];
    }
  }

  /** The slice assignment `a[:] = v`. */
  method Fill<T>(a: array<T>, v: T)
    modifies a
    ensures forall p :: 0 <= p < a.Length ==> a[p] == v
  {
    for p := 0 to a.Length
      invariant forall q :: 0 <= q < p ==> a[q] == v
    {
      a[p] := v;
    }
  }
}
