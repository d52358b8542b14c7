/**
 * What each loop of ComputeBaselines (ghcn_app/GHCNcsv.cpp:354-436) leaves
 * in the two baseline maps, written as functions of the maps before it: one
 * function per statement or loop, from a single sample up to the whole
 * method.
 */
module BaselineLoops {

  import opened GhcnHeader
  import opened OrderedKeys
  import opened NestedMaps

  /** The year after the baseline period, where the first pass stops. */
  const BASELINE_END: int := LAST_BASELINE_YEAR + 1

  /** mBaselineSampleCount and mBaselineTemperature, side by side. */
  datatype Tally = Tally(count: CountMap, base: BaselineMap)

  /** Both baseline maps empty, as a fresh object has them. */
  const NoTally: Tally := Tally(map[], map[])

  /**
   * One valid sample `v` of station `s`, month `m`: a missing count is
   * created as zero first; the first sample starts the sum, a later one is
   * added to it; then the count goes up by one.
   */
  function AfterSample(t: Tally, s: int32, m: int32, v: real): Tally {
    var c := IntAt(t.count, s, m);
    Tally(Put(t.count, s, m, c + 1), Put(t.base, s, m, if c < 1 then v else RealAt(t.base, s, m) + v))
  }

  /** Month `m` of year `y` of station `s`: only a valid reading is a sample. */
  function AfterTallyMonth(temps: TempsMap, t: Tally, s: int32, y: int32, m: int32): Tally
    requires s in temps && y in temps[s] && 0 <= m < |temps[s][y]|
  {
    if IsValidTemp(temps[s][y][m]) then AfterSample(t, s, m, temps[s][y][m]) else t
  }

  /**
   * Months 0 .. k-1 of year `y` of station `s`, in order. (The map, which
   * stays the same from call to call, heads the decreases clause so that the
   * verifier never unfolds the fold on a literal bound such as MONTHS; the
   * other folds below do the same.)
   */
  function AfterTallyMonths(temps: TempsMap, t: Tally, s: int32, y: int32, k: int): Tally
    requires s in temps && y in temps[s] && 0 <= k <= MONTHS && k <= |temps[s][y]|
    decreases temps, k
  {
    if k == 0 then t
    else AfterTallyMonth(temps, AfterTallyMonths(temps, t, s, y, k - 1), s, y, (k - 1) as int32)
  }

  /** Year `y` of station `s`: all twelve months when the station has the year, nothing otherwise. */
  function AfterTallyYear(temps: TempsMap, t: Tally, s: int32, y: int32): Tally
    requires s in temps && TempsWellFormed(temps)
  {
    if y in temps[s] then AfterTallyMonths(temps, t, s, y, MONTHS) else t
  }

  /** The baseline years FIRST_BASELINE_YEAR .. hi-1 of station `s`, in order. */
  function AfterTallyYears(temps: TempsMap, t: Tally, s: int32, hi: int): Tally
    requires s in temps && TempsWellFormed(temps) && FIRST_BASELINE_YEAR <= hi <= BASELINE_END
    decreases temps, hi
  {
    if hi == FIRST_BASELINE_YEAR then t
    else AfterTallyYear(temps, AfterTallyYears(temps, t, s, hi - 1), s, (hi - 1) as int32)
  }

  /** Every station of `stations` is a key of the temperature map. */
  predicate AllIn(temps: TempsMap, stations: seq<int32>) {
    forall j :: 0 <= j < |stations| ==> stations[j] in temps
  }

  /** The first pass over the first `i` stations of `stations`. */
  function AfterTallyStations(temps: TempsMap, t: Tally, stations: seq<int32>, i: int): Tally
    requires TempsWellFormed(temps) && AllIn(temps, stations) && 0 <= i <= |stations|
  {
    if i == 0 then t
    else AfterTallyYears(temps, AfterTallyStations(temps, t, stations, i - 1), stations[i - 1], BASELINE_END)
  }

  /**
   * Month `m` of station `s` in the second pass: the count is read through
   * operator[], which leaves a zero behind where none existed, and a sum of
   * more than one sample is divided by it.
   */
  function AfterAverageMonth(t: Tally, s: int32, m: int32): Tally {
    var c := IntAt(t.count, s, m);
    Tally(Put(t.count, s, m, c), if c > 1 then Put(t.base, s, m, RealAt(t.base, s, m) / c as real) else t.base)
  }

  /** Months 0 .. k-1 of station `s` in the second pass. */
  function AfterAverageMonths(t: Tally, s: int32, k: int): Tally
    requires 0 <= k <= MONTHS
    decreases t, k
  {
    if k == 0 then t else AfterAverageMonth(AfterAverageMonths(t, s, k - 1), s, (k - 1) as int32)
  }

  /** The second pass over the first `i` stations of `stations`. */
  function AfterAverageStations(t: Tally, stations: seq<int32>, i: int): Tally
    requires 0 <= i <= |stations|
  {
    if i == 0 then t else AfterAverageMonths(AfterAverageStations(t, stations, i - 1), stations[i - 1], MONTHS)
  }

  lemma StationsAllIn(temps: TempsMap)
    ensures AllIn(temps, SortedKeys(temps.Keys))
  {
    SortedKeysMembers(temps.Keys);
  }

  /** Both passes of ComputeBaselines over every station in ascending order, from the maps `t`. */
  function AfterBaselinePasses(temps: TempsMap, t: Tally): Tally
    requires TempsWellFormed(temps)
  {
    var stations := SortedKeys(temps.Keys);
    StationsAllIn(temps);
    AfterAverageStations(AfterTallyStations(temps, t, stations, |stations|), stations, |stations|)
  }

  /** The baseline maps ComputeBaselines builds from empty ones. */
  function BaselineMaps(temps: TempsMap): Tally
    requires TempsWellFormed(temps)
  {
    AfterBaselinePasses(temps, NoTally)
  }
}
