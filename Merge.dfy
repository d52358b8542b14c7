/**
 * Merging the twelve monthly anomalies of a year into one annual value
 * (ghcn_app/GHCNcsv.cpp:103-181), in the three modes of the header's
 * MERGE_MODE.
 */
module Merge {

  import opened GhcnHeader
  import opened OrderedKeys
  import opened RealBounds

  /** Number of valid slots among row[0..k). */
  function ValidCount(row: Row, k: int): (n: nat)
    requires 0 <= k <= |row|
    ensures n <= k
  {
    if k == 0 then 0 else ValidCount(row, k - 1) + (if IsValidTemp(row[k - 1]) then 1 else 0)
  }

  /** Sum of the valid slots among row[0..k). */
  function ValidSum(row: Row, k: int): real
    requires 0 <= k <= |row|
  {
    if k == 0 then 0.0 else ValidSum(row, k - 1) + (if IsValidTemp(row[k - 1]) then row[k - 1] else 0.0)
  }

  /** The header's MAX and MIN macros. */
  function Max(a: real, b: real): real { if a > b then a else b }
  function Min(a: real, b: real): real { if a < b then a else b }

  /** The MAX fold seeded with slot 0, over every slot of row[0..k), valid or not. */
  function RawMax(row: Row, k: int): (r: real)
    requires 1 <= k <= |row|
    ensures exists i :: 0 <= i < k && row[i] == r
    ensures forall i :: 0 <= i < k ==> row[i] <= r
  {
    if k == 1 then row[0] else Max(RawMax(row, k - 1), row[k - 1])
  }

  /** The MIN fold seeded with slot 0, valid or not, over the valid slots of row[1..k). */
  function SeededMin(row: Row, k: int): (r: real)
    requires 1 <= k <= |row|
    ensures r == row[0] || exists i :: 1 <= i < k && IsValidTemp(row[i]) && row[i] == r
    ensures r <= row[0]
    ensures forall i :: 1 <= i < k && IsValidTemp(row[i]) ==> r <= row[i]
  {
    if k == 1 then row[0]
    else if IsValidTemp(row[k - 1]) then Min(SeededMin(row, k - 1), row[k - 1])
    else SeededMin(row, k - 1)
  }

  /** The annual value of one year's row, or None when the year gets no entry. */
  function MergedYear(row: Row, mode: MergeMode): Option<real>
    requires |row| == MONTHS
  {
    match mode
    case MergeAvg =>
      var n := ValidCount(row, MONTHS);
      if n >= 1 then Some(ValidSum(row, MONTHS) / n as real) else None
    case MergeMax =>
      var v := RawMax(row, MONTHS);
      if IsValidTemp(v) then Some(v) else None
    case MergeMin =>
      var v := SeededMin(row, MONTHS);
      if IsValidTemp(v) then Some(v) else None
  }

  /** The entries the merge writes into the annual map: one per year that gets a value. */
  function MergedAnnual(monthly: MonthlyMap, mode: MergeMode): AnnualMap
    requires MonthlyWellFormed(monthly)
  {
    map y | y in monthly && MergedYear(monthly[y], mode).Some? :: MergedYear(monthly[y], mode).value
  }

  /** The entries the merge has written once it has visited the years of `ys`. */
  function MergedFrom(monthly: MonthlyMap, mode: MergeMode, ys: seq<int32>): AnnualMap
    requires MonthlyWellFormed(monthly)
  {
    map y | y in ys && y in monthly && MergedYear(monthly[y], mode).Some? :: MergedYear(monthly[y], mode).value
  }

  /**
   * Visiting one more year writes that year's value when its row merges to
   * one, and changes nothing otherwise: entries written before, or present
   * before the merge began, are kept unless they belong to that year.
   */
  lemma MergedFromStep(annual: AnnualMap, monthly: MonthlyMap, mode: MergeMode, ys: seq<int32>, i: int, r: Option<real>)
    requires MonthlyWellFormed(monthly) && 0 <= i < |ys| && ys[i] in monthly
    requires r == MergedYear(monthly[ys[i]], mode)
    ensures r.Some? ==> annual + MergedFrom(monthly, mode, ys[..i + 1])
                        == (annual + MergedFrom(monthly, mode, ys[..i]))[ys[i] := r.value]
    ensures r.None? ==> annual + MergedFrom(monthly, mode, ys[..i + 1]) == annual + MergedFrom(monthly, mode, ys[..i])
  {
    var before := MergedFrom(monthly, mode, ys[..i]);
    MergedFromGrows(monthly, mode, ys, i, r);
    if r.Some? {
      UpdateAfterMerge(annual, before, ys[i], r.value);
    }
  }

  /** The entries written over ys[..i+1]: those over ys[..i], and ys[i]'s value when it has one. */
  lemma MergedFromGrows(monthly: MonthlyMap, mode: MergeMode, ys: seq<int32>, i: int, r: Option<real>)
    requires MonthlyWellFormed(monthly) && 0 <= i < |ys| && ys[i] in monthly
    requires r == MergedYear(monthly[ys[i]], mode)
    ensures MergedFrom(monthly, mode, ys[..i + 1])
         == if r.Some? then MergedFrom(monthly, mode, ys[..i])[ys[i] := r.value] else MergedFrom(monthly, mode, ys[..i])
  {
    forall y
      ensures y in ys[..i + 1] <==> y in ys[..i] || y == ys[i]
    {
      PrefixStep(ys, i + 1, y);
    }
  }

  /** Overwriting one key after a merge is merging the overwritten map. */
  lemma UpdateAfterMerge(a: AnnualMap, b: AnnualMap, k: int32, v: real)
    ensures (a + b)[k := v] == a + b[k := v]
  {
  }

  /** Having visited every year with a row, the merge has written exactly MergedAnnual. */
  lemma MergedFromAll(monthly: MonthlyMap, mode: MergeMode, ys: seq<int32>)
    requires MonthlyWellFormed(monthly)
    requires forall y :: y in monthly <==> y in ys
    ensures MergedFrom(monthly, mode, ys) == MergedAnnual(monthly, mode)
  {
  }

  lemma {:induction false} ValidCountPositive(row: Row, k: int)
    requires 0 <= k <= |row|
    ensures ValidCount(row, k) >= 1 <==> exists i :: 0 <= i < k && IsValidTemp(row[i])
  {
    if k > 0 {
      ValidCountPositive(row, k - 1);
      if !IsValidTemp(row[k - 1]) {
        assert forall i :: 0 <= i < k && IsValidTemp(row[i]) ==> i < k - 1;
      }
    }
  }

  lemma {:induction false} ValidSumWithin(row: Row, k: int, lo: real, hi: real)
    requires 0 <= k <= |row|
    requires forall i :: 0 <= i < |row| && IsValidTemp(row[i]) ==> lo <= row[i] <= hi
    ensures Scale(lo, ValidCount(row, k)) <= ValidSum(row, k) <= Scale(hi, ValidCount(row, k))
  {
    if k > 0 {
      ValidSumWithin(row, k - 1, lo, hi);
    }
  }

  /**
   * MERGE_AVG gives a year a value exactly when one of its months is valid,
   * and that value is the mean of the valid months: it lies within any
   * bounds they all lie within.
   */
  lemma MergeAvgMeaning(row: Row, lo: real, hi: real)
    requires |row| == MONTHS
    ensures MergedYear(row, MergeAvg).Some? <==> exists m :: 0 <= m < MONTHS && IsValidTemp(row[m])
    ensures (MergedYear(row, MergeAvg).Some? && forall m :: 0 <= m < MONTHS && IsValidTemp(row[m]) ==> lo <= row[m] <= hi) ==>
              lo <= MergedYear(row, MergeAvg).value <= hi
  {
    ValidCountPositive(row, MONTHS);
    if MergedYear(row, MergeAvg).Some? && (forall m :: 0 <= m < MONTHS && IsValidTemp(row[m]) ==> lo <= row[m] <= hi) {
      ValidSumWithin(row, MONTHS, lo, hi);
      MeanWithin(ValidSum(row, MONTHS), ValidCount(row, MONTHS), lo, hi);
    }
  }

  /**
   * MERGE_MAX gives a year a value exactly when one of its months is valid;
   * the value is then one of the valid months and no month exceeds it.
   */
  lemma MergeMaxMeaning(row: Row)
    requires |row| == MONTHS
    ensures MergedYear(row, MergeMax).Some? <==> exists m :: 0 <= m < MONTHS && IsValidTemp(row[m])
    ensures MergedYear(row, MergeMax).Some? ==>
              (exists m :: 0 <= m < MONTHS && IsValidTemp(row[m]) && row[m] == MergedYear(row, MergeMax).value)
              && forall m :: 0 <= m < MONTHS ==> row[m] <= MergedYear(row, MergeMax).value
  {
    var v := RawMax(row, MONTHS);
    if exists m :: 0 <= m < MONTHS && IsValidTemp(row[m]) {
      var m :| 0 <= m < MONTHS && IsValidTemp(row[m]);
      assert row[m] <= v;
    }
  }

  /**
   * MERGE_MIN gives a year a value exactly when its first month is valid
   * (the fold is seeded with it unchecked); the value is then one of the
   * valid months and no valid month lies below it.
   */
  lemma MergeMinMeaning(row: Row)
    requires |row| == MONTHS
    ensures MergedYear(row, MergeMin).Some? <==> IsValidTemp(row[0])
    ensures MergedYear(row, MergeMin).Some? ==>
              (exists m :: 0 <= m < MONTHS && IsValidTemp(row[m]) && row[m] == MergedYear(row, MergeMin).value)
              && forall m :: 0 <= m < MONTHS && IsValidTemp(row[m]) ==> MergedYear(row, MergeMin).value <= row[m]
  {
    var v := SeededMin(row, MONTHS);
    if IsValidTemp(row[0]) {
      if v != row[0] {
        var i :| 1 <= i < MONTHS && IsValidTemp(row[i]) && row[i] == v;
      }
    }
  }

  /** The loop over one year's twelve months that the merge performs for `mode`. */
  method MergeYear(row: Row, mode: MergeMode) returns (r: Option<real>)
    requires |row| == MONTHS
    ensures r == MergedYear(row, mode)
  {
    match mode {
      case MergeAvg =>
        var total := 0.0;
        var n := 0;
        var m := 0;
        while m < MONTHS
          invariant 0 <= m <= MONTHS
          invariant total == ValidSum(row, m) && n == ValidCount(row, m)
        {
          if row[m] > GHCN_NOTEMP + ERR_EPS {
            total := total + row[m];
            n := n + 1;
          }
          m := m + 1;
        }
        r := if n >= 1 then Some(total / n as real) else None;
      case MergeMax =>
        var v := row[0];
        var m := 1;
        while m < MONTHS
          invariant 1 <= m <= MONTHS
          invariant v == RawMax(row, m)
        {
          v := Max(v, row[m]);
          m := m + 1;
        }
        r := if v > GHCN_NOTEMP + ERR_EPS then Some(v) else None;
      case MergeMin =>
        var v := row[0];
        var m := 1;
        while m < MONTHS
          invariant 1 <= m <= MONTHS
          invariant v == SeededMin(row, m)
        {
          if row[m] > GHCN_NOTEMP + ERR_EPS {
            v := Min(v, row[m]);
          }
          m := m + 1;
        }
        r := if v > GHCN_NOTEMP + ERR_EPS then Some(v) else None;
    }
  }
}
