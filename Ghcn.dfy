/**
 * The GHCN class (ghcn_app/GHCNcsv.hpp:145-256): the member maps of one
 * input file and the stages that fill them, each stage a method that
 * updates the maps in place as ghcn_app/GHCNcsv.cpp does. Every stage is
 * specified by the functions of its own module.
 */
module Ghcn {

  import opened GhcnHeader
  import opened OrderedKeys
  import opened NestedMaps
  import opened Ingest
  import opened Baselines
  import opened Anomalies
  import opened Merge
  import opened Smoothing
  import opened BaselineLoops
  import opened BaselinePasses
  import opened AnomalyLoops
  import opened AnomalyPasses

  class GHCN {

    /** mTempsMap: station -> year -> twelve monthly temperatures. */
    var tempsMap: TempsMap
    /** mBaselineSampleCount: station -> month -> number of baseline samples. */
    var baselineSampleCount: CountMap
    /** mBaselineTemperature: station -> month -> baseline temperature. */
    var baselineTemperature: BaselineMap
    /** mGlobalAverageMonthlyAnomalies: year -> twelve global monthly anomalies. */
    var globalAverageMonthlyAnomalies: MonthlyMap
    /** mAverageStationCount: year -> month -> number of contributing stations. */
    var averageStationCount: CountMap
    /** mGlobalAverageAnnualAnomalies: year -> annual anomaly. */
    var globalAverageAnnualAnomalies: AnnualMap
    /** mSmoothedGlobalAverageAnnualAnomalies: year -> smoothed annual anomaly. */
    var smoothedGlobalAverageAnnualAnomalies: AnnualMap

    /** A fresh object: every map empty. */
    constructor()
      ensures tempsMap == map[] && baselineSampleCount == map[] && baselineTemperature == map[]
      ensures globalAverageMonthlyAnomalies == map[] && averageStationCount == map[]
      ensures globalAverageAnnualAnomalies == map[] && smoothedGlobalAverageAnnualAnomalies == map[]
    {
      tempsMap := map[];
      baselineSampleCount := map[];
      baselineTemperature := map[];
      globalAverageMonthlyAnomalies := map[];
      averageStationCount := map[];
      globalAverageAnnualAnomalies := map[];
      smoothedGlobalAverageAnnualAnomalies := map[];
    }

    /** One parsed line: a year from 1880 on (re)writes all twelve slots of its station/year. */
    method InsertRecord(r: Record)
      modifies this`tempsMap
      ensures tempsMap == StoreRecord(old(tempsMap), r)
    {
      if r.year >= MIN_GISS_YEAR {
        var row: Row := seq(MONTHS, _ => 0.0);
        var ii := 0;
        while ii < MONTHS
          invariant 0 <= ii <= MONTHS && |row| == MONTHS
          invariant forall i :: 0 <= i < ii ==> row[i] == DecodeTenth(TenthAt(r.tenths, i))
        {
          var t := TenthAt(r.tenths, ii);
          if t as real > GHCN_NOTEMP + ERR_EPS {
            row := row[ii := t as real / 10.0];
          } else {
            row := row[ii := GHCN_NOTEMP];
          }
          ii := ii + 1;
        }
        assert row == DecodeTenths(r.tenths);
        tempsMap := tempsMap[r.station := YearsOfStation(tempsMap, r.station)[r.year := row]];
      }
    }

    /** The records of one file, in file order. */
    method ReadTemps(records: seq<Record>)
      modifies this`tempsMap
      ensures tempsMap == IngestAll(old(tempsMap), records)
    {
      var i := 0;
      while i < |records|
        invariant 0 <= i <= |records|
        invariant tempsMap == IngestAll(old(tempsMap), records[..i])
      {
        InsertRecord(records[i]);
        assert records[..i + 1][..i] == records[..i];
        i := i + 1;
      }
      assert records[..|records|] == records;
    }

    /** The two baseline maps as one value. */
    function BaselineTally(): Tally
      reads this
    {
      Tally(baselineSampleCount, baselineTemperature)
    }

    /** One valid baseline sample of station `s`, month `m`: the count goes up and `v` joins the sum. */
    method AddSample(s: int32, m: int32, v: real)
      modifies this`baselineSampleCount, this`baselineTemperature
      ensures BaselineTally() == AfterSample(old(BaselineTally()), s, m, v)
    {
      var firstCount := !Has(baselineSampleCount, s, m);
      if firstCount {
        baselineSampleCount := Put(baselineSampleCount, s, m, 0);
      }
      var c := baselineSampleCount[s][m];
      assert c == IntAt(old(baselineSampleCount), s, m);
      if c < 1 {
        baselineTemperature := Put(baselineTemperature, s, m, v);
        assert baselineTemperature == Put(old(baselineTemperature), s, m, v);
      } else {
        baselineTemperature := Put(baselineTemperature, s, m, RealAt(baselineTemperature, s, m) + v);
        assert baselineTemperature == Put(old(baselineTemperature), s, m, RealAt(old(baselineTemperature), s, m) + v);
      }
      if firstCount {
        PutPut(old(baselineSampleCount), s, m, 0, 1);
      }
      baselineSampleCount := Put(baselineSampleCount, s, m, c + 1);
    }

    /** Month `m` of year `y` of station `s`: a valid value is a sample. */
    method TallyMonth(s: int32, y: int32, m: int32)
      requires s in tempsMap && y in tempsMap[s] && TempsWellFormed(tempsMap) && 0 <= m < MONTHS
      modifies this`baselineSampleCount, this`baselineTemperature
      ensures BaselineTally() == AfterTallyMonth(tempsMap, old(BaselineTally()), s, y, m)
    {
      if tempsMap[s][y][m] > GHCN_NOTEMP + ERR_EPS {
        AddSample(s, m, tempsMap[s][y][m]);
      }
    }

    /** Year `y` of station `s` in the first pass: the twelve months when the station has the year. */
    method TallyYear(s: int32, y: int32)
      requires s in tempsMap && TempsWellFormed(tempsMap)
      modifies this`baselineSampleCount, this`baselineTemperature
      ensures BaselineTally() == AfterTallyYear(tempsMap, old(BaselineTally()), s, y)
    {
      if y in tempsMap[s] {
        var imm: int32 := 0;
        while imm < 12
          invariant 0 <= imm <= 12
          invariant BaselineTally() == AfterTallyMonths(tempsMap, old(BaselineTally()), s, y, imm as int)
        {
          TallyMonth(s, y, imm);
          imm := imm + 1;
        }
      }
    }

    /** The first pass over one station: every year of the baseline period, in order. */
    method TallyStation(s: int32)
      requires s in tempsMap && TempsWellFormed(tempsMap)
      modifies this`baselineSampleCount, this`baselineTemperature
      ensures BaselineTally() == AfterTallyYears(tempsMap, old(BaselineTally()), s, BASELINE_END)
    {
      var yykey: int32 := FIRST_BASELINE_YEAR as int32;
      while yykey <= LAST_BASELINE_YEAR as int32
        invariant FIRST_BASELINE_YEAR <= yykey as int <= BASELINE_END
        invariant BaselineTally() == AfterTallyYears(tempsMap, old(BaselineTally()), s, yykey as int)
      {
        TallyYear(s, yykey);
        yykey := yykey + 1;
      }
    }

    /** Month `m` of station `s` in the second pass: the count is read through operator[], a sum of several samples divided. */
    method AverageMonth(s: int32, m: int32)
      modifies this`baselineSampleCount, this`baselineTemperature
      ensures BaselineTally() == AfterAverageMonth(old(BaselineTally()), s, m)
    {
      var c := IntAt(baselineSampleCount, s, m);
      baselineSampleCount := Put(baselineSampleCount, s, m, c);
      if c > 1 {
        baselineTemperature := Put(baselineTemperature, s, m, RealAt(baselineTemperature, s, m) / c as real);
      }
    }

    /** The second pass over one station: its twelve months. */
    method AverageStation(s: int32)
      modifies this`baselineSampleCount, this`baselineTemperature
      ensures BaselineTally() == AfterAverageMonths(old(BaselineTally()), s, MONTHS)
    {
      var imm: int32 := 0;
      while imm < 12
        invariant 0 <= imm <= 12
        invariant BaselineTally() == AfterAverageMonths(old(BaselineTally()), s, imm as int)
      {
        AverageMonth(s, imm);
        imm := imm + 1;
      }
    }

    /** The first pass of ComputeBaselines: every station of `stations`, in order. */
    method TallyStations(stations: seq<int32>)
      requires TempsWellFormed(tempsMap) && AllIn(tempsMap, stations)
      modifies this`baselineSampleCount, this`baselineTemperature
      ensures BaselineTally() == AfterTallyStations(tempsMap, old(BaselineTally()), stations, |stations|)
    {
      var i := 0;
      while i < |stations|
        invariant 0 <= i <= |stations|
        invariant BaselineTally() == AfterTallyStations(tempsMap, old(BaselineTally()), stations, i)
      {
        TallyStation(stations[i]);
        i := i + 1;
      }
    }

    /** The second pass of ComputeBaselines: every station of `stations`, in order. */
    method AverageStations(stations: seq<int32>)
      modifies this`baselineSampleCount, this`baselineTemperature
      ensures BaselineTally() == AfterAverageStations(old(BaselineTally()), stations, |stations|)
    {
      var i := 0;
      while i < |stations|
        invariant 0 <= i <= |stations|
        invariant BaselineTally() == AfterAverageStations(old(BaselineTally()), stations, i)
      {
        AverageStation(stations[i]);
        i := i + 1;
      }
    }

    /**
     * Baseline count and mean temperature of every station and month over
     * 1951..1980: a first pass over the stations in ascending order sums
     * the samples, a second one turns each sum into a mean. On the empty
     * maps of a fresh object the result is exactly what BaselinesOf asks.
     */
    method ComputeBaselines()
      requires TempsWellFormed(tempsMap)
      modifies this`baselineSampleCount, this`baselineTemperature
      ensures BaselineTally() == AfterBaselinePasses(tempsMap, old(BaselineTally()))
      ensures old(BaselineTally()) == NoTally ==> BaselinesOf(tempsMap, baselineSampleCount, baselineTemperature)
    {
      var stations := SortedKeys(tempsMap.Keys);
      StationsAllIn(tempsMap);
      TallyStations(stations);
      AverageStations(stations);
      if old(BaselineTally()) == NoTally {
        BaselineMapsCorrect(tempsMap);
      }
    }

    /**
     * Annual anomalies from the monthly ones: every year with a row, in
     * ascending order, gets the value its row merges to in `mode`, if any;
     * entries already present for other years are kept.
     */
    method MergeMonthsToYear(mode: MergeMode)
      requires MonthlyWellFormed(globalAverageMonthlyAnomalies)
      modifies this`globalAverageAnnualAnomalies
      ensures globalAverageAnnualAnomalies
           == old(globalAverageAnnualAnomalies) + MergedAnnual(globalAverageMonthlyAnomalies, mode)
    {
      var monthly := globalAverageMonthlyAnomalies;
      var years := SortedKeys(monthly.Keys);
      var i := 0;
      while i < |years|
        invariant 0 <= i <= |years|
        invariant globalAverageAnnualAnomalies
               == old(globalAverageAnnualAnomalies) + MergedFrom(monthly, mode, years[..i])
      {
        var y := years[i];
        SortedKeysIn(monthly.Keys, i);
        var v := MergeYear(monthly[y], mode);
        MergedFromStep(old(globalAverageAnnualAnomalies), monthly, mode, years, i, v);
        if v.Some? {
          globalAverageAnnualAnomalies := globalAverageAnnualAnomalies[y := v.value];
        }
        i := i + 1;
      }
      assert years[..|years|] == years;
      SortedKeysMembers(monthly.Keys);
      MergedFromAll(monthly, mode, years);
    }

    /**
     * Moving average of the annual anomalies over `nelIn` years, bumped to
     * the next odd length. A one-year filter copies the series. Otherwise
     * a start-up loop sums the first window and a sliding loop adds the
     * leading and subtracts the trailing value for each further output;
     * every output is stored at the centre year of its window, and entries
     * already present for other years are kept.
     */
    method ComputeMovingAvg(nelIn: int)
      requires CanSmooth(globalAverageAnnualAnomalies, nelIn)
      modifies this`smoothedGlobalAverageAnnualAnomalies
      ensures smoothedGlobalAverageAnnualAnomalies
           == old(smoothedGlobalAverageAnnualAnomalies) + Smoothed(globalAverageAnnualAnomalies, nelIn)
    {
      var nel := nelIn;
      if nel % 2 == 0 {
        nel := nel + 1;
      }
      assert nel == FilterWidth(nelIn);
      var keys := SortedKeys(globalAverageAnnualAnomalies.Keys);
      ghost var annual := globalAverageAnnualAnomalies;
      ghost var before := smoothedGlobalAverageAnnualAnomalies;
      assert keys == SeriesKeys(annual);
      if nel == 1 {
        CopyIsPlaced(annual, keys);
        UnitFilterCopies(annual, nelIn);
        CopyYears(keys);
      } else {
        SmoothedByWindows(annual, nelIn, keys, nel);
        var avg := FirstWindow(keys, nel);
        assert smoothedGlobalAverageAnnualAnomalies == before;
        SlideWindow(keys, nel, avg);
        ghost var placed := Placed(keys, Outputs(ValuesAt(annual, keys), nel), nel / 2, |keys| - nel + 1);
        assert smoothedGlobalAverageAnnualAnomalies == before + placed;
        assert placed == Smoothed(annual, nelIn);
      }
    }

    /** The one-year filter: the value of each year of `keys` is copied to the same year. */
    method CopyYears(keys: seq<int32>)
      requires KeysIn(globalAverageAnnualAnomalies, keys)
      modifies this`smoothedGlobalAverageAnnualAnomalies
      ensures globalAverageAnnualAnomalies == old(globalAverageAnnualAnomalies)
      ensures smoothedGlobalAverageAnnualAnomalies
           == old(smoothedGlobalAverageAnnualAnomalies)
              + Placed(keys, ValuesAt(globalAverageAnnualAnomalies, keys), 0, |keys|)
    {
      ghost var xs := ValuesAt(globalAverageAnnualAnomalies, keys);
      var i := 0;
      while i < |keys|
        invariant 0 <= i <= |keys|
        invariant smoothedGlobalAverageAnnualAnomalies
               == old(smoothedGlobalAverageAnnualAnomalies) + Placed(keys, xs, 0, i)
      {
        PlacedStep(old(smoothedGlobalAverageAnnualAnomalies), keys, xs, 0, i);
        smoothedGlobalAverageAnnualAnomalies
          := smoothedGlobalAverageAnnualAnomalies[keys[i] := globalAverageAnnualAnomalies[keys[i]]];
        i := i + 1;
      }
    }

    /**
     * The start-up of the filter: the values of the first `nel` years of
     * `keys`, each divided by `nel` before it is added, which is their mean.
     */
    method FirstWindow(keys: seq<int32>, nel: int) returns (avg: real)
      requires KeysIn(globalAverageAnnualAnomalies, keys) && 1 <= nel <= |keys|
      ensures avg == RunningMean(ValuesAt(globalAverageAnnualAnomalies, keys), nel, 0)
      ensures avg == SumRange(ValuesAt(globalAverageAnnualAnomalies, keys), 0, nel) / nel as real
    {
      ghost var xs := ValuesAt(globalAverageAnnualAnomalies, keys);
      avg := 0.0;
      var j := 0;
      while j < nel
        invariant 0 <= j <= nel && avg == ScaledPrefix(xs, nel, j)
      {
        avg := avg + globalAverageAnnualAnomalies[keys[j]] / nel as real;
        j := j + 1;
      }
      FirstOutputIsWindowMean(xs, nel);
    }

    /**
     * The sliding part of the filter: the first output `first` is stored
     * at the centre year of the first window; then each step adds the
     * leading value, takes away the trailing one and stores the result at
     * the next centre, until the leading end passes the last year.
     */
    method SlideWindow(keys: seq<int32>, nel: int, first: real)
      requires KeysIn(globalAverageAnnualAnomalies, keys) && 3 <= nel <= |keys| && nel % 2 == 1
      requires first == RunningMean(ValuesAt(globalAverageAnnualAnomalies, keys), nel, 0)
      modifies this`smoothedGlobalAverageAnnualAnomalies
      ensures globalAverageAnnualAnomalies == old(globalAverageAnnualAnomalies)
      ensures smoothedGlobalAverageAnnualAnomalies
           == old(smoothedGlobalAverageAnnualAnomalies)
              + Placed(keys, Outputs(ValuesAt(globalAverageAnnualAnomalies, keys), nel), nel / 2, |keys| - nel + 1)
    {
      var h := nel / 2;
      var annual := globalAverageAnnualAnomalies;
      ghost var xs := ValuesAt(annual, keys);
      ghost var outs := Outputs(xs, nel);
      var avg := first;
      PlacedStep(old(smoothedGlobalAverageAnnualAnomalies), keys, outs, h, 0);
      smoothedGlobalAverageAnnualAnomalies := smoothedGlobalAverageAnnualAnomalies[keys[h] := avg];
      var k := 1;
      while k + nel - 1 < |keys|
        invariant 1 <= k <= |keys| - nel + 1
        invariant avg == outs[k - 1]
        invariant smoothedGlobalAverageAnnualAnomalies
               == old(smoothedGlobalAverageAnnualAnomalies) + Placed(keys, outs, h, k)
      {
        var leading := annual[keys[k + nel - 1]];
        var trailing := annual[keys[k]];
        OutputStep(xs, nel, k, leading, trailing);
        avg := avg + (leading - trailing) / nel as real;
        PlacedStep(old(smoothedGlobalAverageAnnualAnomalies), keys, outs, h, k);
        smoothedGlobalAverageAnnualAnomalies := smoothedGlobalAverageAnnualAnomalies[keys[h + k] := avg];
        k := k + 1;
      }
      assert k == |keys| - nel + 1 && globalAverageAnnualAnomalies == annual;
    }

    /** The two anomaly maps as one value. */
    function AnomalySums(): Sums
      reads this
    {
      Sums(globalAverageMonthlyAnomalies, averageStationCount)
    }

    /**
     * Month `m` of year `y` of station `s`: a valid reading of a station
     * with enough baseline samples adds its anomaly to the year's slot and
     * one to its station count.
     */
    method AddMonth(s: int32, y: int32, m: int32, minCount: int)
      requires AnomalyInputs(tempsMap, baselineSampleCount, baselineTemperature, minCount)
      requires s in tempsMap && y in tempsMap[s] && 0 <= m < MONTHS
      requires y in globalAverageMonthlyAnomalies && MonthlyWellFormed(globalAverageMonthlyAnomalies)
      modifies this`globalAverageMonthlyAnomalies, this`averageStationCount
      ensures AnomalySums() == AfterAddMonth(tempsMap, baselineSampleCount, baselineTemperature, minCount,
                                             old(AnomalySums()), s, y, m)
      ensures globalAverageMonthlyAnomalies.Keys == old(globalAverageMonthlyAnomalies).Keys
      ensures MonthlyWellFormed(globalAverageMonthlyAnomalies)
    {
      var v := tempsMap[s][y][m];
      if v > GHCN_NOTEMP + ERR_EPS {
        assert Has(baselineSampleCount, s, m);
        if baselineSampleCount[s][m] >= minCount {
          if y !in globalAverageMonthlyAnomalies {
            // The year's row was created before its months are visited.
            assert false;
          } else {
            var row := globalAverageMonthlyAnomalies[y];
            globalAverageMonthlyAnomalies := globalAverageMonthlyAnomalies[y := row[m := row[m] + (v - baselineTemperature[s][m])]];
            averageStationCount := Put(averageStationCount, y, m, IntAt(averageStationCount, y, m) + 1);
          }
        }
      }
    }

    /** Year `y` of station `s`: the year's row is created as twelve zeros on first sight, then each month is added. */
    method AddStationYear(s: int32, y: int32, minCount: int)
      requires AnomalyInputs(tempsMap, baselineSampleCount, baselineTemperature, minCount)
      requires s in tempsMap && y in tempsMap[s] && MonthlyWellFormed(globalAverageMonthlyAnomalies)
      modifies this`globalAverageMonthlyAnomalies, this`averageStationCount
      ensures AnomalySums() == AfterStationYear(tempsMap, baselineSampleCount, baselineTemperature, minCount,
                                                old(AnomalySums()), s, y)
      ensures MonthlyWellFormed(globalAverageMonthlyAnomalies)
    {
      if y !in globalAverageMonthlyAnomalies || |globalAverageMonthlyAnomalies[y]| == 0 {
        globalAverageMonthlyAnomalies := globalAverageMonthlyAnomalies[y := ZeroRow];
      }
      ghost var start := AnomalySums();
      var imm: int32 := 0;
      while imm < 12
        invariant 0 <= imm <= 12
        invariant y in globalAverageMonthlyAnomalies && MonthlyWellFormed(globalAverageMonthlyAnomalies)
        invariant AnomalySums() == AfterAddMonths(tempsMap, baselineSampleCount, baselineTemperature, minCount,
                                                  start, s, y, imm as int)
      {
        AddMonth(s, y, imm, minCount);
        imm := imm + 1;
      }
    }

    /** Every year of station `s`, in ascending order. */
    method AddStation(s: int32, minCount: int)
      requires AnomalyInputs(tempsMap, baselineSampleCount, baselineTemperature, minCount)
      requires s in tempsMap && MonthlyWellFormed(globalAverageMonthlyAnomalies)
      modifies this`globalAverageMonthlyAnomalies, this`averageStationCount
      ensures AnomalySums() == AfterStation(tempsMap, baselineSampleCount, baselineTemperature, minCount,
                                            old(AnomalySums()), s)
      ensures MonthlyWellFormed(globalAverageMonthlyAnomalies)
    {
      var yrs := SortedKeys(tempsMap[s].Keys);
      var k := 0;
      while k < |yrs|
        invariant 0 <= k <= |yrs| && MonthlyWellFormed(globalAverageMonthlyAnomalies)
        invariant AnomalySums() == AfterStationYears(tempsMap, baselineSampleCount, baselineTemperature, minCount,
                                                     old(AnomalySums()), s, k)
      {
        SortedKeysIn(tempsMap[s].Keys, k);
        AddStationYear(s, yrs[k], minCount);
        k := k + 1;
      }
    }

    /** The first pass of ComputeGlobalAverageAnomalies: every station, in ascending order. */
    method SumStations(minCount: int)
      requires AnomalyInputs(tempsMap, baselineSampleCount, baselineTemperature, minCount)
      requires MonthlyWellFormed(globalAverageMonthlyAnomalies)
      modifies this`globalAverageMonthlyAnomalies, this`averageStationCount
      ensures AnomalySums() == AfterStations(tempsMap, baselineSampleCount, baselineTemperature, minCount,
                                             old(AnomalySums()), |Stations(tempsMap)|)
      ensures MonthlyWellFormed(globalAverageMonthlyAnomalies)
    {
      var stations := SortedKeys(tempsMap.Keys);
      var i := 0;
      while i < |stations|
        invariant 0 <= i <= |stations| && MonthlyWellFormed(globalAverageMonthlyAnomalies)
        invariant AnomalySums() == AfterStations(tempsMap, baselineSampleCount, baselineTemperature, minCount,
                                                 old(AnomalySums()), i)
      {
        StationsIn(tempsMap, i);
        AddStation(stations[i], minCount);
        i := i + 1;
      }
    }

    /**
     * Month `m` of year `y` of the final pass: the station count is read
     * through operator[], which leaves a zero behind where none existed; the
     * sum becomes a mean, or the sentinel when no station qualified.
     */
    method FinishMonth(y: int32, m: int32)
      requires y in globalAverageMonthlyAnomalies && MonthlyWellFormed(globalAverageMonthlyAnomalies) && 0 <= m < MONTHS
      modifies this`globalAverageMonthlyAnomalies, this`averageStationCount
      ensures AnomalySums() == AfterFinishMonth(old(AnomalySums()), y, m)
      ensures globalAverageMonthlyAnomalies.Keys == old(globalAverageMonthlyAnomalies).Keys
      ensures MonthlyWellFormed(globalAverageMonthlyAnomalies)
    {
      var c := IntAt(averageStationCount, y, m);
      averageStationCount := Put(averageStationCount, y, m, c);
      var row := globalAverageMonthlyAnomalies[y];
      if c >= 1 {
        globalAverageMonthlyAnomalies := globalAverageMonthlyAnomalies[y := row[m := row[m] / c as real]];
      } else {
        globalAverageMonthlyAnomalies := globalAverageMonthlyAnomalies[y := row[m := GHCN_NOTEMP]];
      }
    }

    /** The twelve months of year `y` of the final pass. */
    method FinishYear(y: int32)
      requires y in globalAverageMonthlyAnomalies && MonthlyWellFormed(globalAverageMonthlyAnomalies)
      modifies this`globalAverageMonthlyAnomalies, this`averageStationCount
      ensures AnomalySums() == AfterFinishMonths(old(AnomalySums()), y, MONTHS)
      ensures globalAverageMonthlyAnomalies.Keys == old(globalAverageMonthlyAnomalies).Keys
      ensures MonthlyWellFormed(globalAverageMonthlyAnomalies)
    {
      var imm: int32 := 0;
      while imm < 12
        invariant 0 <= imm <= 12
        invariant globalAverageMonthlyAnomalies.Keys == old(globalAverageMonthlyAnomalies).Keys
        invariant MonthlyWellFormed(globalAverageMonthlyAnomalies)
        invariant AnomalySums() == AfterFinishMonths(old(AnomalySums()), y, imm as int)
      {
        FinishMonth(y, imm);
        imm := imm + 1;
      }
    }

    /** The final pass of ComputeGlobalAverageAnomalies: every year with a row, in ascending order. */
    method FinishYears()
      requires MonthlyWellFormed(globalAverageMonthlyAnomalies)
      modifies this`globalAverageMonthlyAnomalies, this`averageStationCount
      ensures AnomalySums() == AfterFinish(old(AnomalySums()))
    {
      var years := SortedKeys(globalAverageMonthlyAnomalies.Keys);
      var i := 0;
      while i < |years|
        invariant 0 <= i <= |years|
        invariant globalAverageMonthlyAnomalies.Keys == old(globalAverageMonthlyAnomalies).Keys
        invariant MonthlyWellFormed(globalAverageMonthlyAnomalies)
        invariant AnomalySums() == AfterFinishYears(old(AnomalySums()), years, i)
      {
        SortedKeysIn(old(globalAverageMonthlyAnomalies).Keys, i);
        FinishYear(years[i]);
        i := i + 1;
      }
    }

    /**
     * Global monthly anomalies: a first pass sums, for every year and month,
     * the anomalies of the qualifying stations and counts them; a final
     * pass turns each sum into a mean or the sentinel. On the empty maps of
     * a fresh object every year any station has a row for gets twelve
     * values, each the mean anomaly of the stations that qualify for it,
     * beside the number of those stations.
     */
    method ComputeGlobalAverageAnomalies(minCount: int)
      requires AnomalyInputs(tempsMap, baselineSampleCount, baselineTemperature, minCount)
      requires MonthlyWellFormed(globalAverageMonthlyAnomalies)
      modifies this`globalAverageMonthlyAnomalies, this`averageStationCount
      ensures AnomalySums() == AfterAnomalyPasses(tempsMap, baselineSampleCount, baselineTemperature, minCount,
                                                  old(AnomalySums()))
      ensures old(AnomalySums()) == NoSums ==>
        AnomaliesOf(tempsMap, baselineSampleCount, baselineTemperature, minCount,
                    globalAverageMonthlyAnomalies, averageStationCount)
    {
      SumStations(minCount);
      FinishYears();
      if old(AnomalySums()) == NoSums {
        AnomalyMapsCorrect(tempsMap, baselineSampleCount, baselineTemperature, minCount);
      }
    }
  }
}
