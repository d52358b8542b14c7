/**
 * Constants and the missing-data convention of the GHCN class header
 * (ghcn_app/GHCNcsv.hpp).
 */
module GhcnHeader {

  /**
   * The C++ `int` that keys every map of the class (station ids, years,
   * months).
   */
  type int32 = x: int | -0x8000_0000 <= x < 0x8000_0000

  /** Every missing temperature field in a GHCN file is -9999. */
  const GHCN_NOTEMP: real := -9999.0

  /** Tolerance used whenever a value is compared against GHCN_NOTEMP. */
  const ERR_EPS: real := 0.1

  /** First year whose data is extracted (NASA/GISS convention). */
  const MIN_GISS_YEAR: int := 1880

  /** The NASA/GISS baseline period, both ends inclusive. */
  const FIRST_BASELINE_YEAR: int := 1951
  const LAST_BASELINE_YEAR: int := 1980

  /** Default minimum number of valid baseline samples for a station/month to qualify. */
  const DEFAULT_MIN_BASELINE_SAMPLE_COUNT: int := 15

  /** Default and maximum length of the moving-average filter, in years. */
  const DEFAULT_AVG_NYEAR: int := 5
  const MAX_AVG_NYEAR: int := 20

  /** Number of monthly slots kept for every station/year and every global year. */
  const MONTHS: int := 12

  /** One station/year (or one global year): a temperature per month, indexed 0..11. */
  type Row = seq<real>

  /** mTempsMap: station id -> year -> 12 monthly temperatures. */
  type TempsMap = map<int32, map<int32, Row>>

  /** mBaselineSampleCount and mAverageStationCount: outer key -> month -> count. */
  type CountMap = map<int32, map<int32, int>>

  /** mBaselineTemperature: station id -> month -> baseline temperature. */
  type BaselineMap = map<int32, map<int32, real>>

  /** mGlobalAverageMonthlyAnomalies: year -> 12 monthly anomalies. */
  type MonthlyMap = map<int32, Row>

  /** mGlobalAverageAnnualAnomalies and the smoothed series: year -> anomaly. */
  type AnnualMap = map<int32, real>

  /** Every station/year row has twelve slots and no year precedes MIN_GISS_YEAR. */
  ghost predicate TempsWellFormed(temps: TempsMap) {
    forall s, y :: s in temps && y in temps[s] ==> |temps[s][y]| == MONTHS && y >= MIN_GISS_YEAR
  }

  /** Every global year row has twelve slots. */
  ghost predicate MonthlyWellFormed(monthly: MonthlyMap) {
    forall y :: y in monthly ==> |monthly[y]| == MONTHS
  }

  /** A value that may be absent. */
  datatype Option<T> = None | Some(value: T)

  /** How the twelve monthly anomalies of a year are merged into one value. */
  datatype MergeMode = MergeAvg | MergeMax | MergeMin

  /** Number of years in the baseline period. */
  function BaselineYears(): (n: int)
    ensures n == 30 && FIRST_BASELINE_YEAR + n == LAST_BASELINE_YEAR + 1
  {
    LAST_BASELINE_YEAR - FIRST_BASELINE_YEAR + 1
  }

  /** A temperature counts as data only when it lies above the sentinel by more than the tolerance. */
  predicate IsValidTemp(v: real) {
    v > GHCN_NOTEMP + ERR_EPS
  }

  /** The month-`m` slot of a 12-slot row holds a valid temperature. */
  predicate ValidAt(row: seq<real>, m: int) {
    0 <= m < |row| && IsValidTemp(row[m])
  }

  /**
   * The defaults lie within the ranges the header documents: the minimum
   * sample count in 1..#baseline-years, and the filter length odd and in
   * 1..MAX_AVG_NYEAR.
   */
  lemma DefaultsInRange()
    ensures 1 <= DEFAULT_MIN_BASELINE_SAMPLE_COUNT <= BaselineYears()
    ensures 1 <= DEFAULT_AVG_NYEAR <= MAX_AVG_NYEAR && DEFAULT_AVG_NYEAR % 2 == 1
    ensures !IsValidTemp(GHCN_NOTEMP)
  {
  }
}
