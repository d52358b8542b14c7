/**
 * The per-station, per-month baseline of ghcn_app/GHCNcsv.cpp:354-436: the
 * number and the mean of the valid temperatures a station recorded in a
 * month over the years 1951 to 1980.
 */
module Baselines {

  import opened GhcnHeader
  import opened RealBounds

  /** Year `y` of a station's year map holds a valid month-`m` temperature. */
  predicate ValidSample(sy: map<int32, Row>, y: int, m: int) {
    -0x8000_0000 <= y < 0x8000_0000 && y as int32 in sy && ValidAt(sy[y as int32], m)
  }

  /** Number of valid month-`m` samples in the years FIRST_BASELINE_YEAR .. hi-1. */
  function CountUpTo(sy: map<int32, Row>, m: int, hi: int): (c: nat)
    requires FIRST_BASELINE_YEAR <= hi <= LAST_BASELINE_YEAR + 1
    ensures c <= hi - FIRST_BASELINE_YEAR
    decreases hi
  {
    if hi == FIRST_BASELINE_YEAR then 0
    else CountUpTo(sy, m, hi - 1) + (if ValidSample(sy, hi - 1, m) then 1 else 0)
  }

  /** Sum of the valid month-`m` samples in the years FIRST_BASELINE_YEAR .. hi-1. */
  function SumUpTo(sy: map<int32, Row>, m: int, hi: int): real
    requires FIRST_BASELINE_YEAR <= hi <= LAST_BASELINE_YEAR + 1
    decreases hi
  {
    if hi == FIRST_BASELINE_YEAR then 0.0
    else SumUpTo(sy, m, hi - 1) + (if ValidSample(sy, hi - 1, m) then sy[(hi - 1) as int32][m] else 0.0)
  }

  /** The baseline sample count: never more than the length of the baseline period. */
  function BaselineCount(sy: map<int32, Row>, m: int): (c: nat)
    ensures c <= BaselineYears()
  {
    CountUpTo(sy, m, LAST_BASELINE_YEAR + 1)
  }

  function BaselineSum(sy: map<int32, Row>, m: int): real {
    SumUpTo(sy, m, LAST_BASELINE_YEAR + 1)
  }

  /** The baseline temperature of a station/month that has at least one sample. */
  function BaselineMean(sy: map<int32, Row>, m: int): real
    requires BaselineCount(sy, m) >= 1
  {
    BaselineSum(sy, m) / BaselineCount(sy, m) as real
  }

  /** A single sample is its own mean. */
  lemma MeanOfOne(sy: map<int32, Row>, m: int)
    requires BaselineCount(sy, m) == 1
    ensures BaselineMean(sy, m) == BaselineSum(sy, m)
  {
    var sum := BaselineSum(sy, m);
    assert BaselineCount(sy, m) as real == 1.0;
    assert sum / 1.0 == sum;
  }

  /** A baseline exists exactly when some year of the period has a valid sample. */
  lemma {:induction false} CountPositiveIff(sy: map<int32, Row>, m: int, hi: int)
    requires FIRST_BASELINE_YEAR <= hi <= LAST_BASELINE_YEAR + 1
    ensures CountUpTo(sy, m, hi) >= 1 <==> exists y :: FIRST_BASELINE_YEAR <= y < hi && ValidSample(sy, y, m)
  {
    if hi > FIRST_BASELINE_YEAR {
      CountPositiveIff(sy, m, hi - 1);
      if ValidSample(sy, hi - 1, m) {
        assert FIRST_BASELINE_YEAR <= hi - 1 < hi;
      } else {
        assert forall y :: FIRST_BASELINE_YEAR <= y < hi && ValidSample(sy, y, m) ==> y < hi - 1;
      }
    }
  }

  lemma BaselineExistsIff(sy: map<int32, Row>, m: int)
    ensures BaselineCount(sy, m) >= 1
        <==> exists y :: FIRST_BASELINE_YEAR <= y <= LAST_BASELINE_YEAR && ValidSample(sy, y, m)
  {
    CountPositiveIff(sy, m, LAST_BASELINE_YEAR + 1);
  }

  /** No sample, no sum: the sum starts at zero and grows only with the count. */
  lemma {:induction false} ZeroCountZeroSum(sy: map<int32, Row>, m: int, hi: int)
    requires FIRST_BASELINE_YEAR <= hi <= LAST_BASELINE_YEAR + 1
    requires CountUpTo(sy, m, hi) == 0
    ensures SumUpTo(sy, m, hi) == 0.0
  {
    if hi > FIRST_BASELINE_YEAR {
      ZeroCountZeroSum(sy, m, hi - 1);
    }
  }

  /** The years FIRST_BASELINE_YEAR .. hi-1 with a valid month-`m` sample. */
  function SampleYears(sy: map<int32, Row>, m: int, hi: int): set<int> {
    set y | FIRST_BASELINE_YEAR <= y < hi && ValidSample(sy, y, m)
  }

  lemma {:induction false} CountIsNumberOfYears(sy: map<int32, Row>, m: int, hi: int)
    requires FIRST_BASELINE_YEAR <= hi <= LAST_BASELINE_YEAR + 1
    ensures CountUpTo(sy, m, hi) == |SampleYears(sy, m, hi)|
  {
    if hi > FIRST_BASELINE_YEAR {
      CountIsNumberOfYears(sy, m, hi - 1);
      if ValidSample(sy, hi - 1, m) {
        assert SampleYears(sy, m, hi) == SampleYears(sy, m, hi - 1) + {hi - 1};
      } else {
        assert SampleYears(sy, m, hi) == SampleYears(sy, m, hi - 1);
      }
    } else {
      assert SampleYears(sy, m, hi) == {};
    }
  }

  /**
   * The baseline count of a station/month is the number of years of the
   * baseline period in which the station has a row with a valid month-`m`
   * value.
   */
  lemma BaselineCountIsNumberOfYears(sy: map<int32, Row>, m: int)
    ensures BaselineCount(sy, m) == |SampleYears(sy, m, LAST_BASELINE_YEAR + 1)|
  {
    CountIsNumberOfYears(sy, m, LAST_BASELINE_YEAR + 1);
  }

  /** Two station maps that agree on the baseline years give the same count and sum. */
  lemma {:induction false} OnlyPeriodMatters(sy: map<int32, Row>, sy': map<int32, Row>, m: int, hi: int)
    requires FIRST_BASELINE_YEAR <= hi <= LAST_BASELINE_YEAR + 1
    requires forall y: int32 :: FIRST_BASELINE_YEAR <= y <= LAST_BASELINE_YEAR ==>
               (y in sy <==> y in sy') && (y in sy ==> sy[y] == sy'[y])
    ensures CountUpTo(sy, m, hi) == CountUpTo(sy', m, hi)
    ensures SumUpTo(sy, m, hi) == SumUpTo(sy', m, hi)
  {
    if hi > FIRST_BASELINE_YEAR {
      OnlyPeriodMatters(sy, sy', m, hi - 1);
      var y: int32 := (hi - 1) as int32;
      assert ValidSample(sy, hi - 1, m) <==> ValidSample(sy', hi - 1, m);
    }
  }

  /**
   * Years outside 1951..1980 never influence a baseline: editing, adding or
   * removing them leaves count and mean unchanged.
   */
  lemma BaselineIgnoresOtherYears(sy: map<int32, Row>, sy': map<int32, Row>, m: int)
    requires forall y: int32 :: FIRST_BASELINE_YEAR <= y <= LAST_BASELINE_YEAR ==>
               (y in sy <==> y in sy') && (y in sy ==> sy[y] == sy'[y])
    ensures BaselineCount(sy, m) == BaselineCount(sy', m)
    ensures BaselineSum(sy, m) == BaselineSum(sy', m)
  {
    OnlyPeriodMatters(sy, sy', m, LAST_BASELINE_YEAR + 1);
  }

  /** Every valid sample of the period lies in [lo, hi]. */
  ghost predicate SamplesWithin(sy: map<int32, Row>, m: int, lo: real, hi: real) {
    forall y :: FIRST_BASELINE_YEAR <= y <= LAST_BASELINE_YEAR && ValidSample(sy, y, m) ==>
      lo <= sy[y as int32][m] <= hi
  }

  lemma {:induction false} SumWithin(sy: map<int32, Row>, m: int, upTo: int, lo: real, hi: real)
    requires FIRST_BASELINE_YEAR <= upTo <= LAST_BASELINE_YEAR + 1
    requires SamplesWithin(sy, m, lo, hi)
    ensures Scale(lo, CountUpTo(sy, m, upTo)) <= SumUpTo(sy, m, upTo) <= Scale(hi, CountUpTo(sy, m, upTo))
  {
    if upTo > FIRST_BASELINE_YEAR {
      SumWithin(sy, m, upTo - 1, lo, hi);
    }
  }

  lemma {:induction false} MeanUpToWithin(sy: map<int32, Row>, m: int, upTo: int, lo: real, hi: real)
    requires FIRST_BASELINE_YEAR <= upTo <= LAST_BASELINE_YEAR + 1
    requires CountUpTo(sy, m, upTo) >= 1
    requires SamplesWithin(sy, m, lo, hi)
    ensures lo <= SumUpTo(sy, m, upTo) / CountUpTo(sy, m, upTo) as real <= hi
  {
    var n := CountUpTo(sy, m, upTo);
    SumWithin(sy, m, upTo, lo, hi);
    MeanWithin(SumUpTo(sy, m, upTo), n, lo, hi);
  }

  /** The baseline is a mean: it lies between the smallest and the largest sample. */
  lemma {:induction false} BaselineMeanWithin(sy: map<int32, Row>, m: int, lo: real, hi: real)
    requires BaselineCount(sy, m) >= 1
    requires SamplesWithin(sy, m, lo, hi)
    ensures lo <= BaselineMean(sy, m) <= hi
  {
    MeanUpToWithin(sy, m, LAST_BASELINE_YEAR + 1, lo, hi);
  }
}
