/**
 * The clamping of the two run settings at the end of ProcessOptions
 * (ghcn_app/GHCNcsv.cpp:553-556): the smoothing length is forced into
 * 1..MAX_AVG_NYEAR and the minimum baseline sample count into 1..the number
 * of years of the baseline period.
 */
module Options {

  import opened GhcnHeader
  import Smoothing

  /** The header's MAX and MIN macros on integers. */
  function Max(a: int, b: int): int { if a > b then a else b }
  function Min(a: int, b: int): int { if a < b then a else b }

  /** MAX(1, MIN(MAX_AVG_NYEAR, n)): in range, and the request itself whenever it already is. */
  function ClampAvgNYear(n: int): (r: int)
    ensures 1 <= r <= MAX_AVG_NYEAR
    ensures 1 <= n <= MAX_AVG_NYEAR ==> r == n
    ensures n < 1 ==> r == 1
    ensures n > MAX_AVG_NYEAR ==> r == MAX_AVG_NYEAR
  {
    Max(1, Min(MAX_AVG_NYEAR, n))
  }

  /** MAX(1, MIN(#baseline years, n)): in range, and the request itself whenever it already is. */
  function ClampMinBaselineSampleCount(n: int): (r: int)
    ensures 1 <= r <= BaselineYears()
    ensures 1 <= n <= BaselineYears() ==> r == n
    ensures n < 1 ==> r == 1
    ensures n > BaselineYears() ==> r == BaselineYears()
  {
    Max(1, Min(LAST_BASELINE_YEAR - FIRST_BASELINE_YEAR + 1, n))
  }

  /** Clamping leaves the defaults as they are. */
  lemma DefaultsSurviveClamping()
    ensures ClampAvgNYear(DEFAULT_AVG_NYEAR) == DEFAULT_AVG_NYEAR
    ensures ClampMinBaselineSampleCount(DEFAULT_MIN_BASELINE_SAMPLE_COUNT) == DEFAULT_MIN_BASELINE_SAMPLE_COUNT
  {
    DefaultsInRange();
  }

  /**
   * Whatever was requested, the filter the smoother then uses is odd and at
   * most one year longer than MAX_AVG_NYEAR, so any annual series of at
   * least MAX_AVG_NYEAR + 1 years can be smoothed.
   */
  lemma ClampedFilterWidth(n: int, annual: AnnualMap)
    ensures var nel := Smoothing.FilterWidth(ClampAvgNYear(n));
      1 <= nel <= MAX_AVG_NYEAR + 1 && nel % 2 == 1
    ensures |annual| > MAX_AVG_NYEAR ==> Smoothing.CanSmooth(annual, ClampAvgNYear(n))
  {
  }
}
