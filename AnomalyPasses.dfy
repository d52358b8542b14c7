/**
 * What the two passes of ComputeGlobalAverageAnomalies
 * (ghcn_app/GHCNcsv.cpp:184-263) leave in each entry of the anomaly maps,
 * proved entry by entry from the functions of AnomalyLoops, and the theorem
 * that the finished maps hold the global anomaly of every year and month.
 */
module AnomalyPasses {

  import opened GhcnHeader
  import opened OrderedKeys
  import opened NestedMaps
  import opened Anomalies
  import opened BaselinePasses
  import opened AnomalyLoops

  /**
   * What the anomaly stage reads of the baseline maps is there: a count for
   * every station and month, and a baseline wherever the count is positive.
   */
  ghost predicate BaselinesReady(temps: TempsMap, count: CountMap, base: BaselineMap) {
    forall s: int32, m: int32 :: s in temps && 0 <= m < MONTHS ==>
      Has(count, s, m) && (count[s][m] >= 1 ==> Has(base, s, m))
  }

  /** The finished baselines are what the anomaly stage reads. */
  lemma BaselinesAreReady(temps: TempsMap, count: CountMap, base: BaselineMap)
    requires BaselinesOf(temps, count, base)
    ensures BaselinesReady(temps, count, base)
  {
    forall s: int32, m: int32 | s in temps && 0 <= m < MONTHS
      ensures Has(count, s, m) && (count[s][m] >= 1 ==> Has(base, s, m))
    {
      assert Averaged(temps, count, base, s, m);
    }
  }

  /** The inputs of the anomaly stage: well-formed rows, baselines to read, and a positive threshold. */
  ghost predicate AnomalyInputs(temps: TempsMap, count: CountMap, base: BaselineMap, minCount: int) {
    TempsWellFormed(temps) && minCount >= 1 && BaselinesReady(temps, count, base)
  }

  /**
   * Entry (y, m) of the finished anomaly maps: every year with a row has a
   * station count and the global anomaly for each month, and no other
   * station count exists.
   */
  ghost predicate FinalAnomaly(temps: TempsMap, count: CountMap, base: BaselineMap, minCount: int,
                               monthly: MonthlyMap, sc: CountMap, y: int32, m: int32) {
    if 0 <= m < MONTHS then
      && (Has(sc, y, m) <==> y in monthly)
      && (y in monthly ==>
            && sc[y][m] == GlobalCount(temps, count, minCount, y, m)
            && m < |monthly[y]|
            && monthly[y][m] == GlobalAnomaly(temps, count, base, minCount, y, m))
    else
      !Has(sc, y, m)
  }

  /** The anomaly maps ComputeGlobalAverageAnomalies leaves behind. */
  ghost predicate AnomaliesOf(temps: TempsMap, count: CountMap, base: BaselineMap, minCount: int,
                              monthly: MonthlyMap, sc: CountMap) {
    && monthly.Keys == AllYears(temps)
    && MonthlyWellFormed(monthly)
    && forall y: int32, m: int32 :: FinalAnomaly(temps, count, base, minCount, monthly, sc, y, m)
  }

  /** Entry (y, m) of the two anomaly maps: whether the year has a row, its slot `m`, and the station count. */
  datatype Slot = Slot(hasRow: bool, value: real, counted: bool, n: int)

  /** Entry (y, m) as the class reads it: a missing row or slot reads zero, as does a missing count. */
  function SlotAt(a: Sums, y: int32, m: int32): Slot {
    Slot(y in a.monthly, ValueAt(a, y, m), Has(a.sc, y, m), IntAt(a.sc, y, m))
  }

  /** The row of the entry's year exists; a slot of a new row reads zero as before. */
  function Opened(e: Slot): Slot {
    e.(hasRow := true)
  }

  /** Station `s` contributes to entry (y, m) exactly when it qualifies: its anomaly joins the sum, the count goes up. */
  function Contribute(temps: TempsMap, count: CountMap, base: BaselineMap, minCount: int,
                      e: Slot, s: int32, y: int32, m: int32): Slot {
    if Qualifies(temps, count, minCount, s, y, m) then
      Slot(e.hasRow, e.value + Anomaly(temps, base, s, y, m), true, e.n + 1)
    else e
  }

  /** The final pass on one entry: the count is created, the sum becomes the mean or the sentinel. */
  function Finished(e: Slot): Slot {
    Slot(e.hasRow, if e.n >= 1 then e.value / e.n as real else GHCN_NOTEMP, true, e.n)
  }

  /** Some station of `ss` has a row for year `y`. */
  predicate RowSeen(temps: TempsMap, ss: seq<int32>, y: int32) {
    if ss == [] then false
    else
      var last := ss[|ss| - 1];
      RowSeen(temps, ss[..|ss| - 1], y) || (last in temps && y in temps[last])
  }

  /**
   * Entry (y, m) once the stations of `ss` have been visited from empty
   * maps: a row exactly for the years they have, their anomaly sum, and the
   * number of them that qualified, present exactly when positive.
   */
  function Expected(temps: TempsMap, count: CountMap, base: BaselineMap, minCount: int,
                    ss: seq<int32>, y: int32, m: int32): Slot {
    var n := StationCount(temps, count, minCount, ss, y, m);
    Slot(RowSeen(temps, ss, y), AnomalySum(temps, count, base, minCount, ss, y, m), n >= 1, n)
  }

  /** Rewriting an existing slot changes that entry and nothing else; the rows keep their years and lengths. */
  lemma SetEntrySlot(a: Sums, y: int32, m: int32, v: real, c: int, x: int32, j: int32)
    requires y in a.monthly && 0 <= m < |a.monthly[y]|
    ensures var r := SetEntry(a, y, m, v, c);
      && SlotAt(r, x, j) == (if x == y && j == m then Slot(true, v, true, c) else SlotAt(a, x, j))
      && r.monthly.Keys == a.monthly.Keys
      && (MonthlyWellFormed(a.monthly) ==> MonthlyWellFormed(r.monthly))
  {
  }

  lemma AddMonthSlot(temps: TempsMap, count: CountMap, base: BaselineMap, minCount: int,
                     a: Sums, s: int32, y: int32, m: int32, x: int32, j: int32)
    requires y in a.monthly && 0 <= m < |a.monthly[y]|
    ensures var r := AfterAddMonth(temps, count, base, minCount, a, s, y, m);
      && SlotAt(r, x, j)
         == (if x == y && j == m then Contribute(temps, count, base, minCount, SlotAt(a, x, j), s, y, m) else SlotAt(a, x, j))
      && r.monthly.Keys == a.monthly.Keys
      && (MonthlyWellFormed(a.monthly) ==> MonthlyWellFormed(r.monthly))
  {
    if Qualifies(temps, count, minCount, s, y, m) {
      SetEntrySlot(a, y, m, ValueAt(a, y, m) + Anomaly(temps, base, s, y, m), IntAt(a.sc, y, m) + 1, x, j);
    }
  }

  /** The month loop of one station-year: each of the first `k` months of that year gets the station's contribution. */
  lemma {:induction false} AddMonthsSlot(temps: TempsMap, count: CountMap, base: BaselineMap, minCount: int,
                                         a: Sums, s: int32, y: int32, k: int, x: int32, j: int32)
    requires y in a.monthly && MonthlyWellFormed(a.monthly) && 0 <= k <= MONTHS
    ensures var r := AfterAddMonths(temps, count, base, minCount, a, s, y, k);
      && SlotAt(r, x, j)
         == (if x == y && 0 <= j < k then Contribute(temps, count, base, minCount, SlotAt(a, x, j), s, y, j) else SlotAt(a, x, j))
      && r.monthly.Keys == a.monthly.Keys && MonthlyWellFormed(r.monthly)
    decreases k
  {
    if k > 0 {
      AddMonthsSlot(temps, count, base, minCount, a, s, y, k - 1, x, j);
      AddMonthSlot(temps, count, base, minCount, AfterAddMonths(temps, count, base, minCount, a, s, y, k - 1),
                   s, y, (k - 1) as int32, x, j);
    }
  }

  /** One station-year: its row exists afterwards and each month gets the station's contribution. */
  lemma StationYearSlot(temps: TempsMap, count: CountMap, base: BaselineMap, minCount: int,
                        a: Sums, s: int32, y: int32, x: int32, j: int32)
    requires TempsWellFormed(temps) && MonthlyWellFormed(a.monthly)
    ensures var r := AfterStationYear(temps, count, base, minCount, a, s, y);
      && SlotAt(r, x, j)
         == (if x == y then Contribute(temps, count, base, minCount, Opened(SlotAt(a, x, j)), s, y, j) else SlotAt(a, x, j))
      && MonthlyWellFormed(r.monthly)
  {
    var w := WithRow(a, y);
    assert SlotAt(w, x, j) == if x == y then Opened(SlotAt(a, x, j)) else SlotAt(a, x, j);
    AddMonthsSlot(temps, count, base, minCount, w, s, y, MONTHS, x, j);
  }

  lemma {:induction false} StationYearsSlot(temps: TempsMap, count: CountMap, base: BaselineMap, minCount: int,
                                            a: Sums, s: int32, k: int, x: int32, j: int32)
    requires TempsWellFormed(temps) && s in temps && MonthlyWellFormed(a.monthly)
    requires 0 <= k <= |YearsOf(temps, s)|
    ensures var r := AfterStationYears(temps, count, base, minCount, a, s, k);
      && SlotAt(r, x, j)
         == (if x in YearsOf(temps, s)[..k] then Contribute(temps, count, base, minCount, Opened(SlotAt(a, x, j)), s, x, j)
             else SlotAt(a, x, j))
      && MonthlyWellFormed(r.monthly)
    decreases k
  {
    if k > 0 {
      var yrs := YearsOf(temps, s);
      SortedKeysIncreasing(temps[s].Keys);
      StationYearsSlot(temps, count, base, minCount, a, s, k - 1, x, j);
      StationYearSlot(temps, count, base, minCount, AfterStationYears(temps, count, base, minCount, a, s, k - 1),
                      s, yrs[k - 1], x, j);
      PrefixStep(yrs, k, x);
      if x == yrs[k - 1] {
        NotBefore(yrs, k);
      }
    }
  }

  /** One station: every year it has gets a row, and each of its entries the station's contribution. */
  lemma StationSlot(temps: TempsMap, count: CountMap, base: BaselineMap, minCount: int,
                    a: Sums, s: int32, x: int32, j: int32)
    requires TempsWellFormed(temps) && s in temps && MonthlyWellFormed(a.monthly)
    ensures var r := AfterStation(temps, count, base, minCount, a, s);
      && SlotAt(r, x, j)
         == (if x in temps[s] then Contribute(temps, count, base, minCount, Opened(SlotAt(a, x, j)), s, x, j)
             else SlotAt(a, x, j))
      && MonthlyWellFormed(r.monthly)
  {
    var yrs := YearsOf(temps, s);
    SortedKeysMembers(temps[s].Keys);
    StationYearsSlot(temps, count, base, minCount, a, s, |yrs|, x, j);
    assert yrs[..|yrs|] == yrs;
  }

  /** Visiting one more station adds its rows and its contribution to what the stations before it left. */
  lemma ExpectedStep(temps: TempsMap, count: CountMap, base: BaselineMap, minCount: int,
                     ss: seq<int32>, s: int32, y: int32, m: int32)
    requires s in temps
    ensures Expected(temps, count, base, minCount, ss + [s], y, m)
         == if y in temps[s] then Contribute(temps, count, base, minCount, Opened(Expected(temps, count, base, minCount, ss, y, m)), s, y, m)
            else Expected(temps, count, base, minCount, ss, y, m)
  {
    AppendStation(temps, count, base, minCount, ss, s, y, m);
    assert (ss + [s])[..|ss|] == ss;
  }

  /** The first pass over the first `i` stations, from empty maps, leaves every entry as those stations determine it. */
  lemma {:induction false} StationsSlot(temps: TempsMap, count: CountMap, base: BaselineMap, minCount: int,
                                        i: int, x: int32, j: int32)
    requires TempsWellFormed(temps) && 0 <= i <= |Stations(temps)|
    ensures var r := AfterStations(temps, count, base, minCount, NoSums, i);
      && SlotAt(r, x, j) == Expected(temps, count, base, minCount, Stations(temps)[..i], x, j)
      && MonthlyWellFormed(r.monthly)
    decreases i
  {
    var stations := Stations(temps);
    if i > 0 {
      var s := stations[i - 1];
      StationsIn(temps, i - 1);
      StationsSlot(temps, count, base, minCount, i - 1, x, j);
      StationSlot(temps, count, base, minCount, AfterStations(temps, count, base, minCount, NoSums, i - 1), s, x, j);
      TakeLast(stations, i);
      ExpectedStep(temps, count, base, minCount, stations[..i - 1], s, x, j);
    }
  }

  lemma FinishMonthSlot(a: Sums, y: int32, m: int32, x: int32, j: int32)
    requires y in a.monthly && 0 <= m < |a.monthly[y]|
    ensures var r := AfterFinishMonth(a, y, m);
      && SlotAt(r, x, j) == (if x == y && j == m then Finished(SlotAt(a, x, j)) else SlotAt(a, x, j))
      && r.monthly.Keys == a.monthly.Keys
      && (MonthlyWellFormed(a.monthly) ==> MonthlyWellFormed(r.monthly))
  {
    var c := IntAt(a.sc, y, m);
    SetEntrySlot(a, y, m, if c >= 1 then ValueAt(a, y, m) / c as real else GHCN_NOTEMP, c, x, j);
  }

  /** The final month loop of year `y`: each of its first `k` entries is finished. */
  lemma {:induction false} FinishMonthsSlot(a: Sums, y: int32, k: int, x: int32, j: int32)
    requires y in a.monthly && MonthlyWellFormed(a.monthly) && 0 <= k <= MONTHS
    ensures var r := AfterFinishMonths(a, y, k);
      && SlotAt(r, x, j) == (if x == y && 0 <= j < k then Finished(SlotAt(a, x, j)) else SlotAt(a, x, j))
      && r.monthly.Keys == a.monthly.Keys && MonthlyWellFormed(r.monthly)
    decreases k
  {
    if k > 0 {
      FinishMonthsSlot(a, y, k - 1, x, j);
      FinishMonthSlot(AfterFinishMonths(a, y, k - 1), y, (k - 1) as int32, x, j);
    }
  }

  /** Every year of `years` is a key of the row map. */
  predicate AllRows(monthly: MonthlyMap, years: seq<int32>) {
    forall i :: 0 <= i < |years| ==> years[i] in monthly
  }

  lemma RowsAllIn(monthly: MonthlyMap)
    ensures AllRows(monthly, SortedKeys(monthly.Keys))
  {
    var years := SortedKeys(monthly.Keys);
    SortedKeysMembers(monthly.Keys);
    forall i | 0 <= i < |years| ensures years[i] in monthly {
      assert years[i] in years;
    }
  }

  lemma {:induction false} FinishYearsSlot(a: Sums, years: seq<int32>, i: int, x: int32, j: int32)
    requires MonthlyWellFormed(a.monthly) && AllRows(a.monthly, years) && StrictlyIncreasing(years)
    requires 0 <= i <= |years|
    ensures var r := AfterFinishYears(a, years, i);
      && SlotAt(r, x, j) == (if x in years[..i] && 0 <= j < MONTHS then Finished(SlotAt(a, x, j)) else SlotAt(a, x, j))
      && r.monthly.Keys == a.monthly.Keys && MonthlyWellFormed(r.monthly)
    decreases i
  {
    if i > 0 {
      FinishYearsSlot(a, years, i - 1, x, j);
      FinishMonthsSlot(AfterFinishYears(a, years, i - 1), years[i - 1], MONTHS, x, j);
      PrefixStep(years, i, x);
      if x == years[i - 1] {
        NotBefore(years, i);
      }
    }
  }

  /** The final pass finishes every entry of every year with a row, and nothing else. */
  lemma FinishSlot(a: Sums, x: int32, j: int32)
    requires MonthlyWellFormed(a.monthly)
    ensures var r := AfterFinish(a);
      && SlotAt(r, x, j) == (if x in a.monthly && 0 <= j < MONTHS then Finished(SlotAt(a, x, j)) else SlotAt(a, x, j))
      && MonthlyWellFormed(r.monthly)
  {
    var years := SortedKeys(a.monthly.Keys);
    SortedKeysIncreasing(a.monthly.Keys);
    RowsAllIn(a.monthly);
    SortedKeysMembers(a.monthly.Keys);
    FinishYearsSlot(a, years, |years|, x, j);
    assert years[..|years|] == years;
  }

  lemma {:induction false} RowSeenIff(temps: TempsMap, ss: seq<int32>, y: int32)
    ensures RowSeen(temps, ss, y) <==> exists s :: s in ss && s in temps && y in temps[s]
  {
    if ss != [] {
      var init := ss[..|ss| - 1];
      var last := ss[|ss| - 1];
      RowSeenIff(temps, init, y);
      assert ss == init + [last];
      if RowSeen(temps, init, y) {
        var s :| s in init && s in temps && y in temps[s];
        assert s in ss;
      }
      if last in temps && y in temps[last] {
        assert last in ss;
      }
    }
  }

  /** Without a row for year `y` among the stations of `ss`, none of them qualifies for it. */
  lemma {:induction false} NoRowNoStation(temps: TempsMap, count: CountMap, minCount: int, ss: seq<int32>, y: int32, m: int32)
    requires !RowSeen(temps, ss, y)
    ensures StationCount(temps, count, minCount, ss, y, m) == 0
  {
    if ss != [] {
      NoRowNoStation(temps, count, minCount, ss[..|ss| - 1], y, m);
    }
  }

  /** No station qualifies for a month outside 0..11. */
  lemma {:induction false} NoMonthNoStation(temps: TempsMap, count: CountMap, minCount: int, ss: seq<int32>, y: int32, m: int32)
    requires TempsWellFormed(temps) && !(0 <= m < MONTHS)
    ensures StationCount(temps, count, minCount, ss, y, m) == 0
  {
    if ss != [] {
      NoMonthNoStation(temps, count, minCount, ss[..|ss| - 1], y, m);
    }
  }

  /** Years some station has a row for are exactly the years of the first pass's rows. */
  lemma RowSeenAllYears(temps: TempsMap, y: int32)
    ensures RowSeen(temps, Stations(temps), y) <==> y in AllYears(temps)
  {
    RowSeenIff(temps, Stations(temps), y);
    SortedKeysMembers(temps.Keys);
    if y in AllYears(temps) {
      var s :| s in temps && y in temps[s];
      assert s in Stations(temps);
    }
  }

  /** One entry of the finished maps from its slot. */
  lemma FinalFromSlot(temps: TempsMap, count: CountMap, base: BaselineMap, minCount: int, r: Sums, y: int32, m: int32)
    requires TempsWellFormed(temps) && MonthlyWellFormed(r.monthly)
    requires var e := Expected(temps, count, base, minCount, Stations(temps), y, m);
      SlotAt(r, y, m) == if e.hasRow && 0 <= m < MONTHS then Finished(e) else e
    ensures FinalAnomaly(temps, count, base, minCount, r.monthly, r.sc, y, m)
  {
    var stations := Stations(temps);
    if !RowSeen(temps, stations, y) {
      NoRowNoStation(temps, count, minCount, stations, y, m);
    }
    if !(0 <= m < MONTHS) {
      NoMonthNoStation(temps, count, minCount, stations, y, m);
    }
  }

  /** One entry of the anomaly maps built from empty ones. */
  lemma AnomalyMapsAt(temps: TempsMap, count: CountMap, base: BaselineMap, minCount: int, y: int32, m: int32)
    requires TempsWellFormed(temps)
    ensures var r := AnomalyMaps(temps, count, base, minCount);
      && FinalAnomaly(temps, count, base, minCount, r.monthly, r.sc, y, m)
      && (y in r.monthly <==> y in AllYears(temps))
      && MonthlyWellFormed(r.monthly)
  {
    var stations := Stations(temps);
    var p := AfterStations(temps, count, base, minCount, NoSums, |stations|);
    var r := AnomalyMaps(temps, count, base, minCount);
    assert r == AfterFinish(p);
    assert stations[..|stations|] == stations;
    StationsSlot(temps, count, base, minCount, |stations|, y, m);
    FinishSlot(p, y, m);
    FinalFromSlot(temps, count, base, minCount, r, y, m);
    RowSeenAllYears(temps, y);
  }

  /**
   * The anomaly maps built from empty ones hold, for every year some
   * station has a row for, the twelve global anomalies and station counts,
   * and nothing for any other year.
   */
  lemma AnomalyMapsCorrect(temps: TempsMap, count: CountMap, base: BaselineMap, minCount: int)
    requires TempsWellFormed(temps)
    ensures var r := AnomalyMaps(temps, count, base, minCount);
      AnomaliesOf(temps, count, base, minCount, r.monthly, r.sc)
  {
    var r := AnomalyMaps(temps, count, base, minCount);
    AnomalyMapsAt(temps, count, base, minCount, 0, 0);
    forall y: int32, m: int32 ensures FinalAnomaly(temps, count, base, minCount, r.monthly, r.sc, y, m) {
      AnomalyMapsAt(temps, count, base, minCount, y, m);
    }
    forall y ensures y in r.monthly <==> y in AllYears(temps) {
      AnomalyMapsAt(temps, count, base, minCount, y, 0);
    }
  }
}
