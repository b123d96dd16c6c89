/** Spatial cross-validation of the canopy-cover model for one held-out
    district (02_code/model_quality_assessment.py).

    The district at a given index of the sorted distinct districts is held
    out. Its samples validate a forest trained on the samples of the other
    districts; samples whose country carries the held-out name are left out
    of training too. Each validation sample gets a confidence half-width
    built from the squared deviations of the trees (line 91). The forest,
    its trees and the square root are parameters. */
module CrossValidation {
  import opened Common
  import CanopyPredictor

  /** The two label columns of a sample that the partition reads. */
  datatype Sample = Sample(district: string, country: string)

  // ---------------------------------------------------------------------
  // The order numpy sorts strings in: code point by code point
  // ---------------------------------------------------------------------

  predicate StringLess(a: string, b: string)
    decreases |a|
  {
    if a == [] then b != []
    else if b == [] then false
    else if a[0] < b[0] then true
    else a[0] == b[0] && StringLess(a[1..], b[1..])
  }

  lemma {:induction false} StringLessIrreflexive(a: string)
    ensures !StringLess(a, a)
    decreases |a|
  {
    if a != [] {
      StringLessIrreflexive(a[1..]);
    }
  }

  lemma {:induction false} StringLessTransitive(a: string, b: string, c: string)
    requires StringLess(a, b) && StringLess(b, c)
    ensures StringLess(a, c)
    decreases |a|
  {
    if a != [] && a[0] == b[0] && b[0] == c[0] {
      StringLessTransitive(a[1..], b[1..], c[1..]);
    }
  }

  lemma {:induction false} StringLessTotal(a: string, b: string)
    requires a != b
    ensures StringLess(a, b) || StringLess(b, a)
    decreases |a|
  {
    if a != [] && b != [] && a[0] == b[0] {
      assert a == [a[0]] + a[1..] && b == [b[0]] + b[1..];
      StringLessTotal(a[1..], b[1..]);
    }
  }

  lemma StringOrder()
    ensures StrictTotalOrder(StringLess)
  {
    forall a ensures !StringLess(a, a) {
      StringLessIrreflexive(a);
    }
    forall a, b, c | StringLess(a, b) && StringLess(b, c) ensures StringLess(a, c) {
      StringLessTransitive(a, b, c);
    }
    forall a, b | a != b ensures StringLess(a, b) || StringLess(b, a) {
      StringLessTotal(a, b);
    }
  }

  // ---------------------------------------------------------------------
  // The held-out district (line 51)
  // ---------------------------------------------------------------------

  function DistrictColumn(ys: seq<Sample>): (c: seq<string>)
    ensures |c| == |ys|
  {
    seq(|ys|, i requires 0 <= i < |ys| => ys[i].district)
  }

  /** `np.unique` of the district column. */
  function Districts(ys: seq<Sample>): seq<string>
  {
    Unique(DistrictColumn(ys), StringLess)
  }

  lemma DistrictsMeaning(ys: seq<Sample>)
    ensures SortedStrictly(Districts(ys), StringLess)
    ensures forall d :: d in Districts(ys) <==> exists i :: 0 <= i < |ys| && ys[i].district == d
  {
    StringOrder();
    UniqueCorrect(DistrictColumn(ys), StringLess);
    forall d ensures d in DistrictColumn(ys) <==> exists i :: 0 <= i < |ys| && ys[i].district == d {
      if d in DistrictColumn(ys) {
        var i :| 0 <= i < |ys| && DistrictColumn(ys)[i] == d;
        assert ys[i].district == d;
      }
      if exists i :: 0 <= i < |ys| && ys[i].district == d {
        var i :| 0 <= i < |ys| && ys[i].district == d;
        assert DistrictColumn(ys)[i] == d;
      }
    }
  }

  /** Python indexing of the sorted names: a negative index counts from the
      end, and an index outside the list is an IndexError (None). */
  function HeldOut(ys: seq<Sample>, index: int): (r: Option<string>)
    ensures var n := |Districts(ys)|; r.Some? <==> -n <= index < n
  {
    var names := Districts(ys);
    if 0 <= index < |names| then Some(names[index])
    else if -|names| <= index < 0 then Some(names[|names| + index])
    else None
  }

  /** The held-out name is the district of some sample. */
  lemma HeldOutIsDistrict(ys: seq<Sample>, index: int)
    requires HeldOut(ys, index).Some?
    ensures exists i :: 0 <= i < |ys| && ys[i].district == HeldOut(ys, index).value
  {
    DistrictsMeaning(ys);
    assert HeldOut(ys, index).value in Districts(ys);
  }

  /** Distinct non-negative indexes in range hold out distinct districts. */
  lemma HeldOutDistinct(ys: seq<Sample>, i: nat, j: nat)
    requires i < j < |Districts(ys)|
    ensures HeldOut(ys, i) != HeldOut(ys, j)
  {
    DistrictsMeaning(ys);
    StringOrder();
    StringLessIrreflexive(Districts(ys)[i]);
  }

  // ---------------------------------------------------------------------
  // Validation and training rows (lines 58 and 64)
  // ---------------------------------------------------------------------

  function Validation(ys: seq<Sample>, sub: string): (val: seq<nat>)
    ensures StrictlyIncreasing(val)
    ensures forall p :: 0 <= p < |ys| ==> (p in val <==> ys[p].district == sub)
    ensures forall k :: 0 <= k < |val| ==> val[k] < |ys|
  {
    Where(seq(|ys|, p requires 0 <= p < |ys| => ys[p].district == sub))
  }

  /** The country column is compared with the district name literally. */
  function Training(ys: seq<Sample>, sub: string): (trn: seq<nat>)
    ensures StrictlyIncreasing(trn)
    ensures forall p :: 0 <= p < |ys| ==> (p in trn <==> ys[p].district != sub && ys[p].country != sub)
    ensures forall k :: 0 <= k < |trn| ==> trn[k] < |ys|
  {
    Where(seq(|ys|, p requires 0 <= p < |ys| => ys[p].district != sub && ys[p].country != sub))
  }

  /** No sample both trains and validates, and a sample in neither set has
      the held-out name as its country. */
  lemma PartitionDisjoint(ys: seq<Sample>, sub: string, p: nat)
    requires p < |ys|
    ensures !(p in Validation(ys, sub) && p in Training(ys, sub))
    ensures p !in Validation(ys, sub) && p !in Training(ys, sub) ==> ys[p].country == sub
  {
  }

  /** A held-out district always has validation samples. */
  lemma ValidationNonEmpty(ys: seq<Sample>, index: int)
    requires HeldOut(ys, index).Some?
    ensures |Validation(ys, HeldOut(ys, index).value)| > 0
  {
    HeldOutIsDistrict(ys, index);
    var i :| 0 <= i < |ys| && ys[i].district == HeldOut(ys, index).value;
    assert i in Validation(ys, HeldOut(ys, index).value);
  }

  // ---------------------------------------------------------------------
  // The reported country (line 61)
  // ---------------------------------------------------------------------

  /** The first of the sorted distinct countries of the validation rows;
      None where there are no such rows (an IndexError). */
  function Country(ys: seq<Sample>, val: seq<nat>): (r: Option<string>)
    requires forall k :: 0 <= k < |val| ==> val[k] < |ys|
    ensures r.Some? ==> exists k :: 0 <= k < |val| && ys[val[k]].country == r.value
  {
    var countries := seq(|val|, k requires 0 <= k < |val| => ys[val[k]].country);
    var names := Unique(countries, StringLess);
    StringOrder();
    UniqueCorrect(countries, StringLess);
    if names == [] then None
    else
      assert names[0] in countries;
      Some(names[0])
  }

  /** The reported country is that of a validation row, and no validation
      row has a country that sorts before it. */
  lemma CountryIsLeast(ys: seq<Sample>, val: seq<nat>)
    requires forall k :: 0 <= k < |val| ==> val[k] < |ys|
    ensures Country(ys, val).Some? <==> |val| > 0
    ensures Country(ys, val).Some? ==>
              (exists k :: 0 <= k < |val| && ys[val[k]].country == Country(ys, val).value) &&
              forall k :: 0 <= k < |val| ==> !StringLess(ys[val[k]].country, Country(ys, val).value)
  {
    var col := seq(|val|, k requires 0 <= k < |val| => ys[val[k]].country);
    var names := Unique(col, StringLess);
    StringOrder();
    UniqueCorrect(col, StringLess);
    if |val| > 0 {
      assert col[0] in names;
    }
    if names != [] {
      var c := names[0];
      assert c in col;
      var k0 :| 0 <= k0 < |col| && col[k0] == c;
      assert ys[val[k0]].country == c;
      forall k | 0 <= k < |val| ensures !StringLess(ys[val[k]].country, c) {
        var y := ys[val[k]].country;
        assert col[k] == y;
        if y == c {
          StringLessIrreflexive(c);
        } else {
          SortedFirstIsLeast(names, StringLess, y);
          if StringLess(y, c) {
            StringLessTransitive(c, y, c);
            StringLessIrreflexive(c);
          }
        }
      }
    }
  }

  // ---------------------------------------------------------------------
  // Confidence half-width (lines 87-91)
  // ---------------------------------------------------------------------

  /** 1.96 sqrt(acc / forest) / sqrt(forest), where acc is the sum of the
      squared deviations of the forest's trees. */
  function HalfWidth(acc: real, forest: nat, sqrt: real -> real): (h: real)
    requires forest > 0 && sqrt(forest as real) != 0.0
    ensures sqrt(acc / forest as real) == 0.0 <==> h == 0.0
  {
    1.96 * sqrt(acc / forest as real) / sqrt(forest as real)
  }

  /** With a square root that is non-negative on non-negative values and
      positive at the forest size, every half-width is non-negative, and it
      is 0 exactly when all trees agree with the forest. */
  lemma HalfWidthMeaning(y: real, row: seq<real>, tree: (nat, seq<real>) -> real, forest: nat, sqrt: real -> real)
    requires forest > 0 && sqrt(forest as real) > 0.0
    requires forall x :: x >= 0.0 ==> sqrt(x) >= 0.0
    requires forall x :: sqrt(x) == 0.0 <==> x == 0.0
    ensures HalfWidth(CanopyPredictor.Deviation(y, row, tree, forest), forest, sqrt) >= 0.0
    ensures HalfWidth(CanopyPredictor.Deviation(y, row, tree, forest), forest, sqrt) == 0.0 <==>
              forall k :: 0 <= k < forest ==> tree(k, row) == y
  {
    var acc := CanopyPredictor.Deviation(y, row, tree, forest);
    CanopyPredictor.DeviationZeroIff(y, row, tree, forest);
    var q := acc / forest as real;
    assert q >= 0.0;
    assert q == 0.0 <==> acc == 0.0;
    var s := sqrt(q);
    assert s >= 0.0;
    var t := sqrt(forest as real);
    assert 1.96 * s / t >= 0.0;
    assert 1.96 * s / t == 0.0 <==> s == 0.0;
  }

  /** Lines 87-91 for the validation rows: their predictions `mv`, their
      predictor rows, and the half-width of each. */
  method Confidence(mv: seq<real>, rows: seq<seq<real>>, tree: (nat, seq<real>) -> real, forest: nat,
                    sqrt: real -> real) returns (ci: seq<real>)
    requires |rows| == |mv| && forest > 0 && sqrt(forest as real) != 0.0
    ensures |ci| == |mv|
    ensures forall i :: 0 <= i < |mv| ==>
              ci[i] == HalfWidth(CanopyPredictor.Deviation(mv[i], rows[i], tree, forest), forest, sqrt)
  {
    var acc := CanopyPredictor.SumSquares(mv, rows, tree, forest);
    ci := seq(acc.Length, i requires 0 <= i < acc.Length reads acc => HalfWidth(acc[i], forest, sqrt));
  }

  // ---------------------------------------------------------------------
  // The output file id (line 101)
  // ---------------------------------------------------------------------

  /** `'{0:04d}'.format(index)`: decimal, zero-padded to width 4, where a
      minus sign counts towards the width. */
  function FileId(index: int): (id: string)
    ensures |id| >= 4
  {
    if index >= 0 then
      var s := NatToString(index);
      Zeros(Max(0, 4 - |s|)) + s
    else
      var s := NatToString(-index);
      "-" + Zeros(Max(0, 3 - |s|)) + s
  }

  function Pow10(k: nat): (p: nat)
    ensures p >= 1
  {
    if k == 0 then 1 else 10 * Pow10(k - 1)
  }

  lemma {:induction false} DigitsWithin(n: nat, k: nat)
    requires k >= 1 && n < Pow10(k)
    ensures |NatToString(n)| <= k
    decreases k
  {
    if n >= 10 {
      assert n / 10 < Pow10(k - 1);
      DigitsWithin(n / 10, k - 1);
    }
  }

  /** The id reads back as the index, and it keeps exactly four characters
      for the indexes 0 to 9999. */
  lemma FileIdRoundTrip(index: int)
    ensures index >= 0 ==> IsDigits(FileId(index)) && ParseDigits(FileId(index)) == index
    ensures index < 0 ==> FileId(index)[0] == '-' && IsDigits(FileId(index)[1..]) &&
                              ParseDigits(FileId(index)[1..]) == -index
    ensures |FileId(index)| >= 4
    ensures 0 <= index < 10000 ==> |FileId(index)| == 4
  {
    if index >= 0 {
      FileIdOfNatural(index);
    } else {
      FileIdOfNegative(index);
    }
  }

  lemma FileIdOfNatural(index: nat)
    ensures IsDigits(FileId(index)) && ParseDigits(FileId(index)) == index
    ensures |FileId(index)| >= 4
    ensures index < 10000 ==> |FileId(index)| == 4
  {
    var s := NatToString(index);
    var z := Zeros(Max(0, 4 - |s|));
    assert FileId(index) == z + s;
    ParseLeadingZeros(z, s);
    ParseNatToString(index);
    if index < 10000 {
      assert Pow10(4) == 10000;
      DigitsWithin(index, 4);
    }
  }

  lemma FileIdOfNegative(index: int)
    requires index < 0
    ensures FileId(index)[0] == '-' && IsDigits(FileId(index)[1..]) &&
            ParseDigits(FileId(index)[1..]) == -index
    ensures |FileId(index)| >= 4
  {
    var s := NatToString(-index);
    var z := Zeros(Max(0, 3 - |s|));
    assert FileId(index) == "-" + z + s;
    assert FileId(index)[1..] == z + s;
    ParseLeadingZeros(z, s);
    ParseNatToString(-index);
  }

  /** Distinct indexes write distinct files. */
  lemma FileIdInjective(i: int, j: int)
    requires i != j
    ensures FileId(i) != FileId(j)
  {
    FileIdRoundTrip(i);
    FileIdRoundTrip(j);
    if i >= 0 && j < 0 {
      assert FileId(i)[0] != '-';
    } else if i < 0 && j >= 0 {
      assert FileId(j)[0] != '-';
    }
  }
}
