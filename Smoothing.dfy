/**
 * The moving-average smoothing of the annual anomalies
 * (ghcn_app/GHCNcsv.cpp:271-351). The years are visited in ascending order;
 * `xs` are the annual values in that order and `keys` the years.
 */
module Smoothing {

  import opened GhcnHeader
  import opened OrderedKeys
  import opened RealBounds

  /** The years of the annual series, in the order the filter walks them. */
  function SeriesKeys(annual: AnnualMap): (keys: seq<int32>)
    ensures |keys| == |annual|
  {
    SortedKeysLength(annual.Keys);
    SortedKeys(annual.Keys)
  }

  /** Every year of `keys` has an annual value. */
  predicate KeysIn(annual: AnnualMap, keys: seq<int32>) {
    forall k :: 0 <= k < |keys| ==> keys[k] in annual
  }

  lemma SeriesKeysIn(annual: AnnualMap)
    ensures KeysIn(annual, SeriesKeys(annual))
  {
    forall k | 0 <= k < |SeriesKeys(annual)| ensures SeriesKeys(annual)[k] in annual {
      SortedKeysIn(annual.Keys, k);
    }
  }

  /** The values of the years `keys`, in the order of `keys`. */
  function ValuesAt(annual: AnnualMap, keys: seq<int32>): (xs: seq<real>)
    requires KeysIn(annual, keys)
    ensures |xs| == |keys|
    ensures forall i :: 0 <= i < |xs| ==> xs[i] == annual[keys[i]]
  {
    if keys == [] then []
    else
      var front := keys[..|keys| - 1];
      assert KeysIn(annual, front);
      ValuesAt(annual, front) + [annual[keys[|keys| - 1]]]
  }

  /** The annual values, in ascending year order. */
  function SeriesValues(annual: AnnualMap): (xs: seq<real>)
    ensures |xs| == |annual|
    ensures forall i :: 0 <= i < |xs| ==> SeriesKeys(annual)[i] in annual && xs[i] == annual[SeriesKeys(annual)[i]]
  {
    SeriesKeysIn(annual);
    ValuesAt(annual, SeriesKeys(annual))
  }

  /** The filter length actually used: an even request is bumped to the next odd number. */
  function FilterWidth(nelIn: int): (nel: int)
    ensures nel % 2 == 1
    ensures nelIn <= nel <= nelIn + 1
    ensures nelIn % 2 == 1 ==> nel == nelIn
  {
    if nelIn % 2 == 0 then nelIn + 1 else nelIn
  }

  /** xs[lo] + ... + xs[hi-1]. */
  function SumRange(xs: seq<real>, lo: int, hi: int): real
    requires 0 <= lo <= hi <= |xs|
    decreases hi - lo
  {
    if lo == hi then 0.0 else SumRange(xs, lo, hi - 1) + xs[hi - 1]
  }

  /** The start-up loop: xs[0]/nel + ... + xs[j-1]/nel. */
  function ScaledPrefix(xs: seq<real>, nel: int, j: int): real
    requires nel >= 1 && 0 <= j <= |xs|
  {
    if j == 0 then 0.0 else ScaledPrefix(xs, nel, j - 1) + xs[j - 1] / nel as real
  }

  /**
   * The k-th output of the filter as the code computes it: the start-up
   * window, then one update per step that adds the leading value xs[k+nel-1]
   * and subtracts the trailing value xs[k] (the trailing position has
   * already been advanced once before the first update).
   */
  function RunningMean(xs: seq<real>, nel: int, k: int): real
    requires nel >= 1 && 0 <= k && k + nel <= |xs|
  {
    if k == 0 then ScaledPrefix(xs, nel, nel)
    else RunningMean(xs, nel, k - 1) + (xs[k + nel - 1] - xs[k]) / nel as real
  }

  /** All outputs of a filter of length `nel` over `xs`, in order. */
  function Outputs(xs: seq<real>, nel: int): (outs: seq<real>)
    requires 1 <= nel <= |xs|
    ensures |outs| == |xs| - nel + 1
    ensures forall k :: 0 <= k < |outs| ==> outs[k] == RunningMean(xs, nel, k)
  {
    FirstOutputs(xs, nel, |xs| - nel + 1)
  }

  /** The first `n` outputs of a filter of length `nel` over `xs`. */
  function FirstOutputs(xs: seq<real>, nel: int, n: int): (outs: seq<real>)
    requires 1 <= nel && 0 <= n && n + nel <= |xs| + 1
    ensures |outs| == n
    ensures forall k :: 0 <= k < n ==> outs[k] == RunningMean(xs, nel, k)
  {
    if n == 0 then [] else FirstOutputs(xs, nel, n - 1) + [RunningMean(xs, nel, n - 1)]
  }

  /** Each output after the first is the one before it, moved by the leading and the trailing value. */
  lemma OutputStep(xs: seq<real>, nel: int, k: int, leading: real, trailing: real)
    requires 1 <= nel && 1 <= k && k + nel <= |xs|
    requires leading == xs[k + nel - 1] && trailing == xs[k]
    ensures Outputs(xs, nel)[k] == Outputs(xs, nel)[k - 1] + (leading - trailing) / nel as real
  {
  }

  /** The year at the centre of the k-th window, `h` years after the window's first year. */
  function WindowCentre(keys: seq<int32>, h: int, k: int): int32
    requires 0 <= k && 0 <= h + k < |keys|
  {
    keys[h + k]
  }

  /** The first `j` outputs, output k stored at the centre year of its window. */
  function Placed(keys: seq<int32>, outs: seq<real>, h: int, j: int): AnnualMap
    requires 0 <= h && 0 <= j <= |outs| && h + j <= |keys|
  {
    if j == 0 then map[] else Placed(keys, outs, h, j - 1)[WindowCentre(keys, h, j - 1) := outs[j - 1]]
  }

  /** The request can be served: a filter longer than one year needs at least that many years. */
  predicate CanSmooth(annual: AnnualMap, nelIn: int) {
    nelIn >= 0 && (FilterWidth(nelIn) == 1 || |annual| >= FilterWidth(nelIn))
  }

  /** The entries the smoothing writes: a copy for a one-year filter, the filter outputs otherwise. */
  function Smoothed(annual: AnnualMap, nelIn: int): AnnualMap
    requires CanSmooth(annual, nelIn)
  {
    var nel := FilterWidth(nelIn);
    if nel == 1 then annual
    else
      var outs := Outputs(SeriesValues(annual), nel);
      Placed(SeriesKeys(annual), outs, nel / 2, |outs|)
  }

  lemma {:induction false} ScaledPrefixIsSum(xs: seq<real>, nel: int, j: int)
    requires nel >= 1 && 0 <= j <= |xs|
    ensures ScaledPrefix(xs, nel, j) == SumRange(xs, 0, j) / nel as real
  {
    if j > 0 {
      ScaledPrefixIsSum(xs, nel, j - 1);
      DivAdd(SumRange(xs, 0, j - 1), xs[j - 1], nel as real);
    }
  }

  lemma DivAdd(a: real, b: real, n: real)
    requires n > 0.0
    ensures a / n + b / n == (a + b) / n
  {
  }

  lemma {:induction false} SumRangeFront(xs: seq<real>, lo: int, hi: int)
    requires 0 <= lo < hi <= |xs|
    ensures SumRange(xs, lo, hi) == xs[lo] + SumRange(xs, lo + 1, hi)
    decreases hi - lo
  {
    if hi > lo + 1 {
      SumRangeFront(xs, lo, hi - 1);
    }
  }

  /** The first output is the true mean of the first `nel` values. */
  lemma FirstOutputIsWindowMean(xs: seq<real>, nel: int)
    requires nel >= 1 && nel <= |xs|
    ensures RunningMean(xs, nel, 0) == SumRange(xs, 0, nel) / nel as real
  {
    ScaledPrefixIsSum(xs, nel, nel);
  }

  /**
   * Closed form of every output: the window xs[k..k+nel) with its first
   * value xs[k] replaced by xs[0]. The mean of the window itself is reached
   * only for k = 0 or when xs[k] happens to equal xs[0].
   */
  lemma {:induction false} RunningMeanClosedForm(xs: seq<real>, nel: int, k: int)
    requires nel >= 1 && 0 <= k && k + nel <= |xs|
    ensures RunningMean(xs, nel, k) == (SumRange(xs, k, k + nel) - xs[k] + xs[0]) / nel as real
  {
    var n := nel as real;
    if k == 0 {
      FirstOutputIsWindowMean(xs, nel);
    } else {
      RunningMeanClosedForm(xs, nel, k - 1);
      SumRangeFront(xs, k - 1, k - 1 + nel);
      assert SumRange(xs, k, k + nel) == SumRange(xs, k, k + nel - 1) + xs[k + nel - 1];
      DivAdd(SumRange(xs, k - 1, k - 1 + nel) - xs[k - 1] + xs[0], xs[k + nel - 1] - xs[k], n);
    }
  }

  /** A series that is constant at c is left at c by every output. */
  lemma ConstantSeriesUnchanged(xs: seq<real>, nel: int, k: int, c: real)
    requires nel >= 1 && 0 <= k && k + nel <= |xs|
    requires forall i :: 0 <= i < |xs| ==> xs[i] == c
    ensures RunningMean(xs, nel, k) == c
  {
    RunningMeanClosedForm(xs, nel, k);
    ConstantSum(xs, k, k + nel, c);
    ScaleIsProduct(c, nel);
  }

  lemma {:induction false} ConstantSum(xs: seq<real>, lo: int, hi: int, c: real)
    requires 0 <= lo <= hi <= |xs|
    requires forall i :: 0 <= i < |xs| ==> xs[i] == c
    ensures SumRange(xs, lo, hi) == Scale(c, hi - lo)
    decreases hi - lo
  {
    if lo < hi {
      ConstantSum(xs, lo, hi - 1, c);
    }
  }

  /** Storing output k at its centre year on top of `a` extends the placed outputs by one. */
  lemma PlacedStep(a: AnnualMap, keys: seq<int32>, outs: seq<real>, h: int, k: int)
    requires 0 <= h && 0 <= k < |outs| && h + k < |keys|
    ensures (a + Placed(keys, outs, h, k))[keys[h + k] := outs[k]] == a + Placed(keys, outs, h, k + 1)
  {
    assert Placed(keys, outs, h, k + 1) == Placed(keys, outs, h, k)[keys[h + k] := outs[k]];
  }

  /** The first `j` outputs occupy only years between keys[h] and keys[h+j-1], all years of the series. */
  lemma {:induction false} PlacedRange(keys: seq<int32>, outs: seq<real>, h: int, j: int)
    requires 0 <= h && 0 < j <= |outs| && h + j <= |keys|
    requires StrictlyIncreasing(keys)
    ensures forall y :: y in Placed(keys, outs, h, j) ==> y in keys && keys[h] <= y <= keys[h + j - 1]
  {
    if j > 1 {
      PlacedRange(keys, outs, h, j - 1);
      assert keys[h + j - 2] < keys[h + j - 1];
    }
  }

  /** The first `j` outputs are `j` distinct entries. */
  lemma {:induction false} PlacedSize(keys: seq<int32>, outs: seq<real>, h: int, j: int)
    requires 0 <= h && 0 <= j <= |outs| && h + j <= |keys|
    requires StrictlyIncreasing(keys)
    ensures |Placed(keys, outs, h, j)| == j
  {
    if j > 0 {
      PlacedSize(keys, outs, h, j - 1);
      if j > 1 {
        PlacedRange(keys, outs, h, j - 1);
        assert keys[h + j - 2] < keys[h + j - 1];
      }
    }
  }

  /** Output k is stored at the centre year of its window, and no later output overwrites it. */
  lemma {:induction false} PlacedValues(keys: seq<int32>, outs: seq<real>, h: int, j: int)
    requires 0 <= h && 0 <= j <= |outs| && h + j <= |keys|
    requires StrictlyIncreasing(keys)
    ensures forall k :: 0 <= k < j ==>
      WindowCentre(keys, h, k) in Placed(keys, outs, h, j) && Placed(keys, outs, h, j)[WindowCentre(keys, h, k)] == outs[k]
  {
    if j > 0 {
      PlacedValues(keys, outs, h, j - 1);
      forall k | 0 <= k < j - 1 ensures WindowCentre(keys, h, k) != WindowCentre(keys, h, j - 1) {
        assert keys[h + k] < keys[h + j - 1];
      }
    }
  }

  /** All outputs placed over a year sequence that leaves `h` years free at either end. */
  lemma PlacedShape(keys: seq<int32>, outs: seq<real>, h: int)
    requires StrictlyIncreasing(keys) && 0 <= h && 1 <= |outs| && |keys| == h + |outs| + h
    ensures var out := Placed(keys, outs, h, |outs|);
      && |out| == |outs|
      && (forall y :: y in out ==> y in keys && keys[h] <= y <= keys[|keys| - 1 - h])
      && (forall k :: 0 <= k < |outs| ==> WindowCentre(keys, h, k) in out && out[WindowCentre(keys, h, k)] == outs[k])
  {
    PlacedSize(keys, outs, h, |outs|);
    PlacedRange(keys, outs, h, |outs|);
    PlacedValues(keys, outs, h, |outs|);
  }

  /** For a filter longer than one year the smoothed series is the placement of all outputs. */
  lemma SmoothedIsPlaced(annual: AnnualMap, nelIn: int)
    requires CanSmooth(annual, nelIn) && FilterWidth(nelIn) > 1
    ensures var nel := FilterWidth(nelIn);
      var outs := Outputs(SeriesValues(annual), nel);
      && |SeriesKeys(annual)| == nel / 2 + |outs| + nel / 2
      && Smoothed(annual, nelIn) == Placed(SeriesKeys(annual), outs, nel / 2, |outs|)
  {
  }

  /**
   * For a filter longer than one year the smoothed series has |annual|-nel+1
   * entries, and none lies outside the years keys[nel/2] .. keys[|annual|-1-nel/2]:
   * the nel/2 years at either end of the series get no value.
   */
  lemma SmoothedRange(annual: AnnualMap, nelIn: int, keys: seq<int32>, h: int)
    requires CanSmooth(annual, nelIn) && FilterWidth(nelIn) > 1
    requires keys == SeriesKeys(annual) && h == FilterWidth(nelIn) / 2
    ensures |Smoothed(annual, nelIn)| == |annual| - FilterWidth(nelIn) + 1
    ensures forall y :: y in Smoothed(annual, nelIn) ==> y in annual && keys[h] <= y <= keys[|keys| - 1 - h]
  {
    var outs := Outputs(SeriesValues(annual), FilterWidth(nelIn));
    SortedKeysIncreasing(annual.Keys);
    SmoothedIsPlaced(annual, nelIn);
    PlacedShape(keys, outs, h);
    assert forall y :: y in keys ==> y in annual;
  }

  /** Output k (the running mean of window k) sits at the centre year of the k-th window. */
  lemma SmoothedValues(annual: AnnualMap, nelIn: int, k: int)
    requires CanSmooth(annual, nelIn) && FilterWidth(nelIn) > 1
    requires 0 <= k <= |annual| - FilterWidth(nelIn)
    ensures WindowCentre(SeriesKeys(annual), FilterWidth(nelIn) / 2, k) in Smoothed(annual, nelIn)
    ensures Smoothed(annual, nelIn)[WindowCentre(SeriesKeys(annual), FilterWidth(nelIn) / 2, k)]
         == RunningMean(SeriesValues(annual), FilterWidth(nelIn), k)
  {
    var nel := FilterWidth(nelIn);
    var keys := SeriesKeys(annual);
    var outs := Outputs(SeriesValues(annual), nel);
    SortedKeysIncreasing(annual.Keys);
    SmoothedIsPlaced(annual, nelIn);
    PlacedValues(keys, outs, nel / 2, |outs|);
    assert outs[k] == RunningMean(SeriesValues(annual), nel, k);
  }

  /** The smoothed series of a filter of three or more years, over the years in ascending order. */
  lemma SmoothedByWindows(annual: AnnualMap, nelIn: int, keys: seq<int32>, nel: int)
    requires CanSmooth(annual, nelIn) && nel == FilterWidth(nelIn) && nel != 1
    requires keys == SeriesKeys(annual)
    ensures KeysIn(annual, keys) && nel <= |keys|
    ensures Smoothed(annual, nelIn) == Placed(keys, Outputs(ValuesAt(annual, keys), nel), nel / 2, |keys| - nel + 1)
  {
    SeriesKeysIn(annual);
    var xs := SeriesValues(annual);
    assert xs == ValuesAt(annual, keys);
    var outs := Outputs(xs, nel);
    assert Smoothed(annual, nelIn) == Placed(keys, outs, nel / 2, |outs|);
  }

  /**
   * Placing every value at its own year rebuilds the series: what the copy
   * loop for a one-year filter writes.
   */
  lemma CopyIsPlaced(annual: AnnualMap, keys: seq<int32>)
    requires keys == SeriesKeys(annual)
    ensures KeysIn(annual, keys)
    ensures Placed(keys, ValuesAt(annual, keys), 0, |keys|) == annual
  {
    SortedKeysIncreasing(annual.Keys);
    SortedKeysMembers(annual.Keys);
    SeriesKeysIn(annual);
    PlacedCopy(keys, ValuesAt(annual, keys), annual);
  }

  /** Every value placed at its own year, over years that are exactly the keys of `annual`, rebuilds `annual`. */
  lemma PlacedCopy(keys: seq<int32>, xs: seq<real>, annual: AnnualMap)
    requires StrictlyIncreasing(keys) && |keys| == |xs|
    requires forall k :: 0 <= k < |keys| ==> keys[k] in annual && xs[k] == annual[keys[k]]
    requires forall y :: y in annual ==> y in keys
    ensures Placed(keys, xs, 0, |keys|) == annual
  {
    var p := Placed(keys, xs, 0, |keys|);
    PlacedValues(keys, xs, 0, |keys|);
    if |keys| > 0 {
      PlacedRange(keys, xs, 0, |keys|);
    }
    forall y | y in annual ensures y in p && p[y] == annual[y] {
      var k :| 0 <= k < |keys| && keys[k] == y;
      assert WindowCentre(keys, 0, k) == y;
    }
    assert p.Keys == annual.Keys;
  }

  /** A one-year filter copies the annual series. */
  lemma UnitFilterCopies(annual: AnnualMap, nelIn: int)
    requires CanSmooth(annual, nelIn) && FilterWidth(nelIn) == 1
    ensures Smoothed(annual, nelIn) == annual
    ensures nelIn == 0 || nelIn == 1
  {
  }
}
