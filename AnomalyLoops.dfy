/**
 * What each loop of ComputeGlobalAverageAnomalies
 * (ghcn_app/GHCNcsv.cpp:184-263) leaves in the two anomaly maps, written as
 * functions of the maps before it: one function per statement or loop, from
 * a single month up to the whole method.
 */
module AnomalyLoops {

  import opened GhcnHeader
  import opened OrderedKeys
  import opened NestedMaps
  import opened Anomalies

  /** mGlobalAverageMonthlyAnomalies and mAverageStationCount, side by side. */
  datatype Sums = Sums(monthly: MonthlyMap, sc: CountMap)

  /** Both anomaly maps empty, as a fresh object has them. */
  const NoSums: Sums := Sums(map[], map[])

  /** The twelve zeros a new year row starts with. */
  const ZeroRow: Row := [0.0, 0.0, 0.0, 0.0, 0.0, 0.0, 0.0, 0.0, 0.0, 0.0, 0.0, 0.0]

  /** Slot `m` of year `y`'s row as the class reads it; zero where there is no such slot. */
  function ValueAt(a: Sums, y: int32, m: int32): real {
    if y in a.monthly && 0 <= m < |a.monthly[y]| then a.monthly[y][m] else 0.0
  }

  /**
   * Entry (y, m) rewritten: slot `m` of year `y`'s row becomes `v` and the
   * station count `c`. The loops only reach entries whose row has twelve
   * slots; for any other entry the maps are left as they are.
   */
  function SetEntry(a: Sums, y: int32, m: int32, v: real, c: int): Sums {
    if y in a.monthly && 0 <= m < |a.monthly[y]| then Sums(a.monthly[y := a.monthly[y][m := v]], Put(a.sc, y, m, c))
    else a
  }

  /**
   * Month `m` of year `y` of station `s`: a valid reading of a station with
   * enough baseline samples adds its anomaly to the year's slot and one to
   * its station count.
   */
  function AfterAddMonth(temps: TempsMap, count: CountMap, base: BaselineMap, minCount: int,
                         a: Sums, s: int32, y: int32, m: int32): Sums {
    if Qualifies(temps, count, minCount, s, y, m) then
      SetEntry(a, y, m, ValueAt(a, y, m) + Anomaly(temps, base, s, y, m), IntAt(a.sc, y, m) + 1)
    else a
  }

  /**
   * Months 0 .. k-1 of year `y` of station `s`, in order. (The temperature
   * map, which stays the same from call to call, heads the decreases clause
   * so that the verifier never unfolds the fold on a literal bound such as
   * MONTHS; the other folds below do the same.)
   */
  function AfterAddMonths(temps: TempsMap, count: CountMap, base: BaselineMap, minCount: int,
                          a: Sums, s: int32, y: int32, k: int): Sums
    requires 0 <= k <= MONTHS
    decreases temps, k
  {
    if k == 0 then a
    else AfterAddMonth(temps, count, base, minCount, AfterAddMonths(temps, count, base, minCount, a, s, y, k - 1),
                       s, y, (k - 1) as int32)
  }

  /** The year row as the month loop finds it: created as twelve zeros when it was missing or empty. */
  function WithRow(a: Sums, y: int32): Sums {
    if y !in a.monthly || |a.monthly[y]| == 0 then Sums(a.monthly[y := ZeroRow], a.sc) else a
  }

  /** Year `y` of station `s`: the row is made ready, then all twelve months are added. */
  function AfterStationYear(temps: TempsMap, count: CountMap, base: BaselineMap, minCount: int,
                            a: Sums, s: int32, y: int32): Sums {
    AfterAddMonths(temps, count, base, minCount, WithRow(a, y), s, y, MONTHS)
  }

  /** The years of station `s` in ascending order, as its std::map visits them. */
  function YearsOf(temps: TempsMap, s: int32): seq<int32>
    requires s in temps
  {
    SortedKeys(temps[s].Keys)
  }

  /** The first `k` years of station `s`. */
  function AfterStationYears(temps: TempsMap, count: CountMap, base: BaselineMap, minCount: int,
                             a: Sums, s: int32, k: int): Sums
    requires s in temps && 0 <= k <= |YearsOf(temps, s)|
    decreases temps, k
  {
    if k == 0 then a
    else AfterStationYear(temps, count, base, minCount, AfterStationYears(temps, count, base, minCount, a, s, k - 1),
                          s, YearsOf(temps, s)[k - 1])
  }

  /** Every year of station `s`. */
  function AfterStation(temps: TempsMap, count: CountMap, base: BaselineMap, minCount: int, a: Sums, s: int32): Sums
    requires s in temps
  {
    AfterStationYears(temps, count, base, minCount, a, s, |YearsOf(temps, s)|)
  }

  /** The first pass over the first `i` stations, in ascending order. */
  function AfterStations(temps: TempsMap, count: CountMap, base: BaselineMap, minCount: int, a: Sums, i: int): Sums
    requires 0 <= i <= |Stations(temps)|
    decreases temps, i
  {
    if i == 0 then a
    else
      var s := Stations(temps)[i - 1];
      StationsIn(temps, i - 1);
      AfterStation(temps, count, base, minCount, AfterStations(temps, count, base, minCount, a, i - 1), s)
  }

  lemma StationsIn(temps: TempsMap, i: int)
    requires 0 <= i < |Stations(temps)|
    ensures Stations(temps)[i] in temps
  {
    SortedKeysMembers(temps.Keys);
    assert Stations(temps)[i] in Stations(temps);
  }

  /**
   * Month `m` of year `y` in the final pass: the station count is read
   * through operator[], which leaves a zero behind where none existed; a
   * positive count turns the sum into a mean, otherwise the slot becomes
   * the sentinel.
   */
  function AfterFinishMonth(a: Sums, y: int32, m: int32): Sums {
    var c := IntAt(a.sc, y, m);
    SetEntry(a, y, m, if c >= 1 then ValueAt(a, y, m) / c as real else GHCN_NOTEMP, c)
  }

  /** Months 0 .. k-1 of year `y` in the final pass. */
  function AfterFinishMonths(a: Sums, y: int32, k: int): Sums
    requires 0 <= k <= MONTHS
    decreases a, k
  {
    if k == 0 then a else AfterFinishMonth(AfterFinishMonths(a, y, k - 1), y, (k - 1) as int32)
  }

  /** The final pass over the first `i` years of `years`. */
  function AfterFinishYears(a: Sums, years: seq<int32>, i: int): Sums
    requires 0 <= i <= |years|
    decreases a, i
  {
    if i == 0 then a else AfterFinishMonths(AfterFinishYears(a, years, i - 1), years[i - 1], MONTHS)
  }

  /** The final pass over every year with a row, in ascending order. */
  function AfterFinish(a: Sums): Sums {
    var years := SortedKeys(a.monthly.Keys);
    AfterFinishYears(a, years, |years|)
  }

  /** Both passes of ComputeGlobalAverageAnomalies, from the maps `a`. */
  function AfterAnomalyPasses(temps: TempsMap, count: CountMap, base: BaselineMap, minCount: int, a: Sums): Sums {
    AfterFinish(AfterStations(temps, count, base, minCount, a, |Stations(temps)|))
  }

  /** The anomaly maps ComputeGlobalAverageAnomalies builds from empty ones. */
  function AnomalyMaps(temps: TempsMap, count: CountMap, base: BaselineMap, minCount: int): Sums {
    AfterAnomalyPasses(temps, count, base, minCount, NoSums)
  }
}
