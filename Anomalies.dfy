/**
 * The global monthly anomaly of ghcn_app/GHCNcsv.cpp:184-263: for each year
 * and month, the mean over the qualifying stations of the station's
 * temperature minus its baseline.
 */
module Anomalies {

  import opened GhcnHeader
  import opened OrderedKeys
  import opened NestedMaps
  import opened RealBounds

  /**
   * Station `s` takes part in year `y`, month `m`: it has a valid reading
   * there and at least `minCount` baseline samples for that month.
   */
  predicate Qualifies(temps: TempsMap, count: CountMap, minCount: int, s: int32, y: int32, m: int32) {
    s in temps && y in temps[s] && ValidAt(temps[s][y], m) && IntAt(count, s, m) >= minCount
  }

  /** A qualifying station's anomaly: its reading minus its baseline for the month. */
  function Anomaly(temps: TempsMap, base: BaselineMap, s: int32, y: int32, m: int32): real
    requires s in temps && y in temps[s] && ValidAt(temps[s][y], m)
  {
    temps[s][y][m] - RealAt(base, s, m)
  }

  /** Number of stations of `ss` that qualify for year `y`, month `m`. */
  function StationCount(temps: TempsMap, count: CountMap, minCount: int, ss: seq<int32>, y: int32, m: int32): (n: nat)
    ensures n <= |ss|
  {
    if ss == [] then 0
    else
      var last := ss[|ss| - 1];
      StationCount(temps, count, minCount, ss[..|ss| - 1], y, m)
        + (if Qualifies(temps, count, minCount, last, y, m) then 1 else 0)
  }

  /** Sum of the anomalies of the stations of `ss` that qualify for year `y`, month `m`. */
  function AnomalySum(temps: TempsMap, count: CountMap, base: BaselineMap, minCount: int,
                      ss: seq<int32>, y: int32, m: int32): real
  {
    if ss == [] then 0.0
    else
      var last := ss[|ss| - 1];
      AnomalySum(temps, count, base, minCount, ss[..|ss| - 1], y, m)
        + (if Qualifies(temps, count, minCount, last, y, m) then Anomaly(temps, base, last, y, m) else 0.0)
  }

  /** The stations in the order the class visits them. */
  function Stations(temps: TempsMap): seq<int32> {
    SortedKeys(temps.Keys)
  }

  /** Every year some station has a row for. */
  function AllYears(temps: TempsMap): set<int32> {
    set s, y | s in temps && y in temps[s] :: y
  }

  /** The station count kept for year `y`, month `m`. */
  function GlobalCount(temps: TempsMap, count: CountMap, minCount: int, y: int32, m: int32): nat {
    StationCount(temps, count, minCount, Stations(temps), y, m)
  }

  /** The global anomaly of year `y`, month `m`: the mean, or the sentinel when no station qualifies. */
  function GlobalAnomaly(temps: TempsMap, count: CountMap, base: BaselineMap, minCount: int, y: int32, m: int32): real {
    var n := GlobalCount(temps, count, minCount, y, m);
    if n >= 1 then AnomalySum(temps, count, base, minCount, Stations(temps), y, m) / n as real
    else GHCN_NOTEMP
  }

  /** The stations of `ss` that qualify. */
  function QualifyingIn(temps: TempsMap, count: CountMap, minCount: int, ss: seq<int32>, y: int32, m: int32): set<int32> {
    set s | s in ss && Qualifies(temps, count, minCount, s, y, m)
  }

  /** The qualifying stations of a list are those of all but its last station, plus the last if it qualifies. */
  lemma QualifyingLast(temps: TempsMap, count: CountMap, minCount: int, ss: seq<int32>, y: int32, m: int32)
    requires ss != []
    ensures var last := ss[|ss| - 1];
      QualifyingIn(temps, count, minCount, ss, y, m)
      == QualifyingIn(temps, count, minCount, ss[..|ss| - 1], y, m)
         + (if Qualifies(temps, count, minCount, last, y, m) then {last} else {})
  {
    assert ss == ss[..|ss| - 1] + [ss[|ss| - 1]];
  }

  lemma {:induction false} StationCountIsCardinality(temps: TempsMap, count: CountMap, minCount: int,
                                                     ss: seq<int32>, y: int32, m: int32)
    requires StrictlyIncreasing(ss)
    ensures StationCount(temps, count, minCount, ss, y, m) == |QualifyingIn(temps, count, minCount, ss, y, m)|
  {
    if ss != [] {
      var init := ss[..|ss| - 1];
      StationCountIsCardinality(temps, count, minCount, init, y, m);
      QualifyingLast(temps, count, minCount, ss, y, m);
      NotBefore(ss, |ss|);
    }
  }

  /**
   * The station count of a year/month is the number of distinct stations
   * that qualify for it; it is zero exactly when none does.
   */
  lemma GlobalCountIsQualifyingStations(temps: TempsMap, count: CountMap, minCount: int, y: int32, m: int32)
    ensures GlobalCount(temps, count, minCount, y, m)
         == |set s | s in temps && Qualifies(temps, count, minCount, s, y, m)|
    ensures GlobalCount(temps, count, minCount, y, m) <= |temps|
    ensures GlobalCount(temps, count, minCount, y, m) == 0
        <==> forall s :: !Qualifies(temps, count, minCount, s, y, m)
  {
    var ss := Stations(temps);
    SortedKeysIncreasing(temps.Keys);
    SortedKeysMembers(temps.Keys);
    StationCountIsCardinality(temps, count, minCount, ss, y, m);
    var q := set s | s in temps && Qualifies(temps, count, minCount, s, y, m);
    assert QualifyingIn(temps, count, minCount, ss, y, m) == q;
    assert q <= temps.Keys;
    SubsetCardinality(q, temps.Keys);
    if q != {} {
      var s :| s in q;
      assert Qualifies(temps, count, minCount, s, y, m);
    } else {
      forall s ensures !Qualifies(temps, count, minCount, s, y, m) {
        assert s !in q;
      }
    }
  }

  /** The stations with a row for year `y`. */
  function StationsWithYear(temps: TempsMap, y: int32): set<int32> {
    set s | s in temps && y in temps[s]
  }

  /** No more stations count for a year than there are stations with a row for it. */
  lemma GlobalCountAtMostStationsWithYear(temps: TempsMap, count: CountMap, minCount: int, y: int32, m: int32)
    ensures GlobalCount(temps, count, minCount, y, m) <= |StationsWithYear(temps, y)|
  {
    GlobalCountIsQualifyingStations(temps, count, minCount, y, m);
    var q := set s | s in temps && Qualifies(temps, count, minCount, s, y, m);
    var withYear := StationsWithYear(temps, y);
    assert q <= withYear by {
      forall s | s in q ensures s in withYear {
        assert Qualifies(temps, count, minCount, s, y, m);
      }
    }
    SubsetCardinality(q, withYear);
    assert GlobalCount(temps, count, minCount, y, m) == |q|;
  }

  /** Appending a station to the visited prefix adds exactly its own contribution. */
  lemma AppendStation(temps: TempsMap, count: CountMap, base: BaselineMap, minCount: int,
                      ss: seq<int32>, s: int32, y: int32, m: int32)
    ensures StationCount(temps, count, minCount, ss + [s], y, m)
         == StationCount(temps, count, minCount, ss, y, m) + (if Qualifies(temps, count, minCount, s, y, m) then 1 else 0)
    ensures AnomalySum(temps, count, base, minCount, ss + [s], y, m)
         == AnomalySum(temps, count, base, minCount, ss, y, m)
            + (if Qualifies(temps, count, minCount, s, y, m) then Anomaly(temps, base, s, y, m) else 0.0)
  {
    assert (ss + [s])[..|ss|] == ss;
  }

  /** While no station has qualified the running sum is still zero. */
  lemma {:induction false} NoStationNoSum(temps: TempsMap, count: CountMap, base: BaselineMap, minCount: int,
                                          ss: seq<int32>, y: int32, m: int32)
    requires StationCount(temps, count, minCount, ss, y, m) == 0
    ensures AnomalySum(temps, count, base, minCount, ss, y, m) == 0.0
  {
    if ss != [] {
      NoStationNoSum(temps, count, base, minCount, ss[..|ss| - 1], y, m);
    }
  }

  lemma SubsetCardinality(a: set<int32>, b: set<int32>)
    requires a <= b
    ensures |a| <= |b|
  {
    assert b == a + (b - a);
  }

  /** Every qualifying station's anomaly for year `y`, month `m` lies in [lo, hi]. */
  ghost predicate AnomaliesWithin(temps: TempsMap, count: CountMap, base: BaselineMap, minCount: int,
                                  y: int32, m: int32, lo: real, hi: real) {
    forall s :: Qualifies(temps, count, minCount, s, y, m) ==> lo <= Anomaly(temps, base, s, y, m) <= hi
  }

  lemma {:induction false} AnomalySumWithin(temps: TempsMap, count: CountMap, base: BaselineMap, minCount: int,
                                            ss: seq<int32>, y: int32, m: int32, lo: real, hi: real)
    requires AnomaliesWithin(temps, count, base, minCount, y, m, lo, hi)
    ensures var n := StationCount(temps, count, minCount, ss, y, m);
      Scale(lo, n) <= AnomalySum(temps, count, base, minCount, ss, y, m) <= Scale(hi, n)
  {
    if ss != [] {
      AnomalySumWithin(temps, count, base, minCount, ss[..|ss| - 1], y, m, lo, hi);
    }
  }

  /**
   * The global anomaly is a mean: when some station qualifies it lies
   * between the smallest and the largest station anomaly; otherwise it is
   * the missing-data sentinel.
   */
  lemma {:induction false} GlobalAnomalyWithin(temps: TempsMap, count: CountMap, base: BaselineMap, minCount: int,
                                               y: int32, m: int32, lo: real, hi: real)
    requires AnomaliesWithin(temps, count, base, minCount, y, m, lo, hi)
    ensures GlobalCount(temps, count, minCount, y, m) >= 1 ==>
              lo <= GlobalAnomaly(temps, count, base, minCount, y, m) <= hi
    ensures GlobalCount(temps, count, minCount, y, m) == 0 ==>
              GlobalAnomaly(temps, count, base, minCount, y, m) == GHCN_NOTEMP
  {
    var n := GlobalCount(temps, count, minCount, y, m);
    if n >= 1 {
      var total := AnomalySum(temps, count, base, minCount, Stations(temps), y, m);
      AnomalySumWithin(temps, count, base, minCount, Stations(temps), y, m, lo, hi);
      MeanWithin(total, n, lo, hi);
    }
  }
}
