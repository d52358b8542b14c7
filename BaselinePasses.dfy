/**
 * The baseline maps part-way through the two passes of ComputeBaselines
 * (ghcn_app/GHCNcsv.cpp:354-436), entry by entry, and the lemmas that carry
 * that state from one station to the next.
 */
module BaselinePasses {

  import opened GhcnHeader
  import opened OrderedKeys
  import opened NestedMaps
  import opened Baselines
  import opened BaselineLoops

  /**
   * Entry (s, m) of the baseline maps once the years FIRST_BASELINE_YEAR ..
   * hi-1 of station s have been tallied: present exactly when a sample was
   * found, holding the count and the running sum.
   */
  ghost predicate Tallied(temps: TempsMap, count: CountMap, base: BaselineMap, s: int32, m: int32, hi: int)
    requires FIRST_BASELINE_YEAR <= hi <= BASELINE_END
  {
    if s in temps && 0 <= m < MONTHS then
      var c := CountUpTo(temps[s], m, hi);
      (Has(count, s, m) <==> c >= 1) && (Has(base, s, m) <==> c >= 1)
      && (c >= 1 ==> count[s][m] == c && base[s][m] == SumUpTo(temps[s], m, hi))
    else
      !Has(count, s, m) && !Has(base, s, m)
  }

  /** Entry (s, m) once the years of the period up to and including `y` have been tallied. */
  ghost predicate TalliedThrough(temps: TempsMap, count: CountMap, base: BaselineMap, s: int32, m: int32, y: int)
    requires FIRST_BASELINE_YEAR <= y <= LAST_BASELINE_YEAR
  {
    Tallied(temps, count, base, s, m, y + 1)
  }

  /**
   * Entry (s, m) of the finished baseline maps: every station/month of the
   * temperature map has a count, the number of valid samples of 1951..1980;
   * a baseline temperature exists exactly when that count is positive and
   * is then the mean of those samples.
   */
  ghost predicate Averaged(temps: TempsMap, count: CountMap, base: BaselineMap, s: int32, m: int32) {
    if s in temps && 0 <= m < MONTHS then
      var c := BaselineCount(temps[s], m);
      Has(count, s, m) && count[s][m] == c && (Has(base, s, m) <==> c >= 1)
      && (c >= 1 ==> base[s][m] == BaselineMean(temps[s], m))
    else
      !Has(count, s, m) && !Has(base, s, m)
  }

  /** The baseline maps ComputeBaselines leaves behind. */
  ghost predicate BaselinesOf(temps: TempsMap, count: CountMap, base: BaselineMap) {
    && count.Keys == temps.Keys
    && base.Keys <= temps.Keys
    && forall s: int32, m: int32 :: Averaged(temps, count, base, s, m)
  }

  /** Every entry other than (s, m) is kept as it was. */
  ghost predicate KeptExcept<V>(before: map<int32, map<int32, V>>, after: map<int32, map<int32, V>>, s: int32, m: int32) {
    forall x, k :: !(x == s && k == m) ==>
      (Has(after, x, k) <==> Has(before, x, k)) && (Has(before, x, k) ==> after[x][k] == before[x][k])
  }

  /** Every entry of another station is kept as it was. */
  ghost predicate OthersKept<V>(before: map<int32, map<int32, V>>, after: map<int32, map<int32, V>>, s: int32) {
    && after.Keys <= before.Keys + {s}
    && (forall x, m :: x != s ==> (Has(after, x, m) <==> Has(before, x, m)))
    && (forall x, m :: x != s && Has(before, x, m) ==> after[x][m] == before[x][m])
  }

  /**
   * The first pass after the first `i` stations of `stations` (ascending
   * keys of the temperature map): those are tallied through the whole
   * baseline period, the others not yet at all.
   */
  ghost predicate TallyProgress(temps: TempsMap, count: CountMap, base: BaselineMap, stations: seq<int32>, i: int)
    requires 0 <= i <= |stations|
  {
    && count.Keys <= temps.Keys && base.Keys <= temps.Keys
    && (forall j: int, m: int32 :: 0 <= j < i ==> Tallied(temps, count, base, stations[j], m, BASELINE_END))
    && (forall j: int, m: int32 :: i <= j < |stations| ==> Tallied(temps, count, base, stations[j], m, FIRST_BASELINE_YEAR))
  }

  /** Tallying station i, and touching no other station, advances the first pass by one station. */
  lemma TallyStep(temps: TempsMap, count0: CountMap, base0: BaselineMap, count: CountMap, base: BaselineMap,
                  stations: seq<int32>, i: int)
    requires 0 <= i < |stations| && StrictlyIncreasing(stations) && stations[i] in temps
    requires TallyProgress(temps, count0, base0, stations, i)
    requires OthersKept(count0, count, stations[i]) && OthersKept(base0, base, stations[i])
    requires forall m: int32 :: Tallied(temps, count, base, stations[i], m, BASELINE_END)
    ensures TallyProgress(temps, count, base, stations, i + 1)
  {
    forall j: int, m: int32 | 0 <= j < i ensures Tallied(temps, count, base, stations[j], m, BASELINE_END) {
      assert stations[j] < stations[i];
      assert Tallied(temps, count0, base0, stations[j], m, BASELINE_END);
    }
    forall j: int, m: int32 | i + 1 <= j < |stations| ensures Tallied(temps, count, base, stations[j], m, FIRST_BASELINE_YEAR) {
      assert stations[i] < stations[j];
      assert Tallied(temps, count0, base0, stations[j], m, FIRST_BASELINE_YEAR);
    }
  }

  /** Once every station has been tallied, every entry holds its count and sum over the whole period. */
  lemma TallyDone(temps: TempsMap, count: CountMap, base: BaselineMap, stations: seq<int32>)
    requires TallyProgress(temps, count, base, stations, |stations|)
    requires forall x :: x in temps ==> x in stations
    ensures forall s: int32, m: int32 :: Tallied(temps, count, base, s, m, BASELINE_END)
  {
    forall s: int32, m: int32 ensures Tallied(temps, count, base, s, m, BASELINE_END) {
      if s in temps {
        var j :| 0 <= j < |stations| && stations[j] == s;
      }
    }
  }

  /** A station's entries of another station's pass are kept when the other pass keeps them. */
  lemma OthersKeptTrans<V>(a: map<int32, map<int32, V>>, b: map<int32, map<int32, V>>, c: map<int32, map<int32, V>>, s: int32)
    requires OthersKept(a, b, s) && OthersKept(b, c, s)
    ensures OthersKept(a, c, s)
  {
  }

  /**
   * Month `m` of baseline year `y` of station `s` advances entry (s, m) of
   * the first pass by one year and changes no other entry.
   */
  lemma TallyMonthEffect(temps: TempsMap, t: Tally, s: int32, y: int32, m: int32)
    requires s in temps && y in temps[s] && TempsWellFormed(temps)
    requires FIRST_BASELINE_YEAR <= y <= LAST_BASELINE_YEAR && 0 <= m < MONTHS
    requires Tallied(temps, t.count, t.base, s, m, y)
    ensures var r := AfterTallyMonth(temps, t, s, y, m);
      && TalliedThrough(temps, r.count, r.base, s, m, y)
      && KeptExcept(t.count, r.count, s, m) && KeptExcept(t.base, r.base, s, m)
      && OthersKept(t.count, r.count, s) && OthersKept(t.base, r.base, s)
  {
    if IsValidTemp(temps[s][y][m]) && CountUpTo(temps[s], m, y) == 0 {
      ZeroCountZeroSum(temps[s], m, y);
    }
  }

  /**
   * The first `k` months of baseline year `y` of station `s`: those months
   * are tallied through `y`, the others still up to it; no other station
   * changes.
   */
  lemma {:induction false} TallyMonthsEffect(temps: TempsMap, t: Tally, s: int32, y: int32, k: int)
    requires s in temps && y in temps[s] && TempsWellFormed(temps)
    requires FIRST_BASELINE_YEAR <= y <= LAST_BASELINE_YEAR && 0 <= k <= MONTHS
    requires forall m: int32 :: Tallied(temps, t.count, t.base, s, m, y)
    ensures var r := AfterTallyMonths(temps, t, s, y, k);
      && (forall m: int32 :: 0 <= m < k ==> TalliedThrough(temps, r.count, r.base, s, m, y))
      && (forall m: int32 :: !(0 <= m < k) ==> Tallied(temps, r.count, r.base, s, m, y))
      && OthersKept(t.count, r.count, s) && OthersKept(t.base, r.base, s)
  {
    if k > 0 {
      TallyMonthsEffect(temps, t, s, y, k - 1);
      var t' := AfterTallyMonths(temps, t, s, y, k - 1);
      var mk := (k - 1) as int32;
      TallyMonthEffect(temps, t', s, y, mk);
      var r := AfterTallyMonth(temps, t', s, y, mk);
      forall m: int32 | 0 <= m < k ensures TalliedThrough(temps, r.count, r.base, s, m, y) {
        if m != mk {
          assert TalliedThrough(temps, t'.count, t'.base, s, m, y);
        }
      }
      forall m: int32 | !(0 <= m < k) ensures Tallied(temps, r.count, r.base, s, m, y) {
        assert Tallied(temps, t'.count, t'.base, s, m, y);
      }
      OthersKeptTrans(t.count, t'.count, r.count, s);
      OthersKeptTrans(t.base, t'.base, r.base, s);
    }
  }

  /** Baseline year `y` of station `s`: every month of the station is then tallied through `y`. */
  lemma TallyYearEffect(temps: TempsMap, t: Tally, s: int32, y: int32)
    requires s in temps && TempsWellFormed(temps) && FIRST_BASELINE_YEAR <= y <= LAST_BASELINE_YEAR
    requires forall m: int32 :: Tallied(temps, t.count, t.base, s, m, y)
    ensures var r := AfterTallyYear(temps, t, s, y);
      && (forall m: int32 :: TalliedThrough(temps, r.count, r.base, s, m, y))
      && OthersKept(t.count, r.count, s) && OthersKept(t.base, r.base, s)
  {
    var r := AfterTallyYear(temps, t, s, y);
    if y in temps[s] {
      TallyMonthsEffect(temps, t, s, y, MONTHS);
    }
    forall m: int32 ensures TalliedThrough(temps, r.count, r.base, s, m, y) {
      if !(0 <= m < MONTHS) || y !in temps[s] {
        assert Tallied(temps, r.count, r.base, s, m, y);
      }
    }
  }

  /** The baseline years FIRST_BASELINE_YEAR .. hi-1 of station `s`, from an untouched station. */
  lemma {:induction false} TallyYearsEffect(temps: TempsMap, t: Tally, s: int32, hi: int)
    requires s in temps && TempsWellFormed(temps) && FIRST_BASELINE_YEAR <= hi <= BASELINE_END
    requires forall m: int32 :: Tallied(temps, t.count, t.base, s, m, FIRST_BASELINE_YEAR)
    ensures var r := AfterTallyYears(temps, t, s, hi);
      && (forall m: int32 :: Tallied(temps, r.count, r.base, s, m, hi))
      && OthersKept(t.count, r.count, s) && OthersKept(t.base, r.base, s)
  {
    if hi > FIRST_BASELINE_YEAR {
      TallyYearsEffect(temps, t, s, hi - 1);
      var t' := AfterTallyYears(temps, t, s, hi - 1);
      TallyYearEffect(temps, t', s, (hi - 1) as int32);
      var r := AfterTallyYears(temps, t, s, hi);
      forall m: int32 ensures Tallied(temps, r.count, r.base, s, m, hi) {
        assert TalliedThrough(temps, r.count, r.base, s, m, (hi - 1) as int32);
      }
      OthersKeptTrans(t.count, t'.count, r.count, s);
      OthersKeptTrans(t.base, t'.base, r.base, s);
    }
  }

  /** Empty baseline maps: no station has been tallied. */
  lemma TallyStart(temps: TempsMap, stations: seq<int32>)
    ensures TallyProgress(temps, map[], map[], stations, 0)
  {
  }

  /** The first pass over the first `i` stations of the ascending station list. */
  lemma {:induction false} TallyStationsEffect(temps: TempsMap, stations: seq<int32>, i: int)
    requires TempsWellFormed(temps) && AllIn(temps, stations) && StrictlyIncreasing(stations)
    requires 0 <= i <= |stations|
    ensures var r := AfterTallyStations(temps, NoTally, stations, i);
      TallyProgress(temps, r.count, r.base, stations, i)
  {
    if i == 0 {
      TallyStart(temps, stations);
    } else {
      TallyStationsEffect(temps, stations, i - 1);
      var t' := AfterTallyStations(temps, NoTally, stations, i - 1);
      var s := stations[i - 1];
      assert forall m: int32 :: Tallied(temps, t'.count, t'.base, s, m, FIRST_BASELINE_YEAR);
      TallyYearsEffect(temps, t', s, BASELINE_END);
      var r := AfterTallyYears(temps, t', s, BASELINE_END);
      TallyStep(temps, t'.count, t'.base, r.count, r.base, stations, i - 1);
    }
  }

  /** Entry (s, m) of both baseline maps: whether each exists and the value it reads. */
  datatype Entry = Entry(counted: bool, count: int, based: bool, sum: real)

  function EntryAt(t: Tally, s: int32, m: int32): Entry {
    Entry(Has(t.count, s, m), IntAt(t.count, s, m), Has(t.base, s, m), RealAt(t.base, s, m))
  }

  /**
   * What the second pass makes of one entry: the count now exists (zero if
   * it did not), and a sum of more than one sample becomes their mean.
   */
  function AverageEntry(e: Entry): (r: Entry)
    ensures r.counted && r.count == e.count
    ensures r.based <==> e.based || e.count > 1
    ensures e.count > 1 ==> r.sum * e.count as real == e.sum
    ensures e.count <= 1 ==> r.sum == e.sum
  {
    if e.count > 1 then Entry(true, e.count, true, e.sum / e.count as real)
    else Entry(true, e.count, e.based, e.sum)
  }

  /** Month `m` of station `s` in the second pass changes entry (s, m) alone, and adds station `s` to the count map. */
  lemma AverageMonthEntry(t: Tally, s: int32, m: int32, x: int32, k: int32)
    ensures var r := AfterAverageMonth(t, s, m);
      EntryAt(r, x, k) == if x == s && k == m then AverageEntry(EntryAt(t, x, k)) else EntryAt(t, x, k)
  {
  }

  lemma AverageMonthKey(t: Tally, s: int32, m: int32, x: int32)
    ensures var r := AfterAverageMonth(t, s, m);
      && (x in r.count <==> x in t.count || x == s)
      && (x in t.base ==> x in r.base)
      && (x in r.base ==> x in t.base || x == s)
  {
  }

  /** The first `k` months of station `s` in the second pass: those entries are averaged, no other changes. */
  lemma {:induction false} AverageMonthsEntry(t: Tally, s: int32, k: int, x: int32, j: int32)
    requires 0 <= k <= MONTHS
    ensures var r := AfterAverageMonths(t, s, k);
      EntryAt(r, x, j) == if x == s && 0 <= j < k then AverageEntry(EntryAt(t, x, j)) else EntryAt(t, x, j)
    decreases k
  {
    if k > 0 {
      AverageMonthsEntry(t, s, k - 1, x, j);
      AverageMonthEntry(AfterAverageMonths(t, s, k - 1), s, (k - 1) as int32, x, j);
    }
  }

  lemma {:induction false} AverageMonthsKey(t: Tally, s: int32, k: int, x: int32)
    requires 0 <= k <= MONTHS
    ensures var r := AfterAverageMonths(t, s, k);
      && (x in r.count <==> x in t.count || (k > 0 && x == s))
      && (x in t.base ==> x in r.base)
      && (x in r.base ==> x in t.base || x == s)
    decreases k
  {
    if k > 0 {
      AverageMonthsKey(t, s, k - 1, x);
      AverageMonthKey(AfterAverageMonths(t, s, k - 1), s, (k - 1) as int32, x);
    }
  }

  /**
   * The second pass over the first `i` of a list of distinct stations: the
   * twelve entries of each of them are averaged, nothing else changes.
   */
  lemma {:induction false} AverageStationsEntry(t: Tally, stations: seq<int32>, i: int, x: int32, j: int32)
    requires StrictlyIncreasing(stations) && 0 <= i <= |stations|
    ensures var r := AfterAverageStations(t, stations, i);
      EntryAt(r, x, j) == if x in stations[..i] && 0 <= j < MONTHS then AverageEntry(EntryAt(t, x, j)) else EntryAt(t, x, j)
    decreases i
  {
    if i > 0 {
      var s := stations[i - 1];
      AverageStationsEntry(t, stations, i - 1, x, j);
      AverageMonthsEntry(AfterAverageStations(t, stations, i - 1), s, MONTHS, x, j);
      PrefixStep(stations, i, x);
      if x == s {
        NotBefore(stations, i);
      }
    }
  }

  /** The second pass adds to the count map exactly the stations it visits. */
  lemma {:induction false} AverageStationsCountKey(t: Tally, stations: seq<int32>, i: int, x: int32)
    requires 0 <= i <= |stations|
    ensures x in AfterAverageStations(t, stations, i).count <==> x in t.count || x in stations[..i]
    decreases i
  {
    if i > 0 {
      AverageStationsCountKey(t, stations, i - 1, x);
      AverageMonthsKey(AfterAverageStations(t, stations, i - 1), stations[i - 1], MONTHS, x);
      PrefixStep(stations, i, x);
    }
  }

  /** The second pass adds to the baseline map at most the stations it visits. */
  lemma {:induction false} AverageStationsBaseKey(t: Tally, stations: seq<int32>, i: int, x: int32)
    requires 0 <= i <= |stations|
    ensures x in AfterAverageStations(t, stations, i).base ==> x in t.base || x in stations[..i]
    decreases i
  {
    if i > 0 {
      AverageStationsBaseKey(t, stations, i - 1, x);
      AverageMonthsKey(AfterAverageStations(t, stations, i - 1), stations[i - 1], MONTHS, x);
      PrefixStep(stations, i, x);
    }
  }

  /**
   * An entry tallied over the whole period and then averaged holds what the
   * finished baseline maps promise for it.
   */
  lemma AveragedFromTallied(temps: TempsMap, t: Tally, r: Tally, s: int32, m: int32)
    requires Tallied(temps, t.count, t.base, s, m, BASELINE_END)
    requires EntryAt(r, s, m) == if s in temps && 0 <= m < MONTHS then AverageEntry(EntryAt(t, s, m)) else EntryAt(t, s, m)
    ensures Averaged(temps, r.count, r.base, s, m)
  {
    if s in temps && 0 <= m < MONTHS && BaselineCount(temps[s], m) == 1 {
      MeanOfOne(temps[s], m);
    }
  }

  /** The second pass over every station, after a complete first pass, leaves every entry averaged. */
  lemma AverageAll(temps: TempsMap, t: Tally, stations: seq<int32>)
    requires StrictlyIncreasing(stations) && forall x :: x in temps <==> x in stations
    requires forall s: int32, m: int32 :: Tallied(temps, t.count, t.base, s, m, BASELINE_END)
    ensures var r := AfterAverageStations(t, stations, |stations|);
      forall s: int32, m: int32 :: Averaged(temps, r.count, r.base, s, m)
  {
    var r := AfterAverageStations(t, stations, |stations|);
    assert stations[..|stations|] == stations;
    forall s: int32, m: int32 ensures Averaged(temps, r.count, r.base, s, m) {
      AverageStationsEntry(t, stations, |stations|, s, m);
      AveragedFromTallied(temps, t, r, s, m);
    }
  }

  /** The second pass over every station gives every station a count map and no other station anything. */
  lemma AverageAllKeys(temps: TempsMap, t: Tally, stations: seq<int32>)
    requires forall x :: x in temps <==> x in stations
    requires t.count.Keys <= temps.Keys && t.base.Keys <= temps.Keys
    ensures var r := AfterAverageStations(t, stations, |stations|);
      r.count.Keys == temps.Keys && r.base.Keys <= temps.Keys
  {
    var r := AfterAverageStations(t, stations, |stations|);
    assert stations[..|stations|] == stations;
    forall x ensures (x in r.count <==> x in temps) && (x in r.base ==> x in temps) {
      AverageStationsCountKey(t, stations, |stations|, x);
      AverageStationsBaseKey(t, stations, |stations|, x);
    }
  }

  /**
   * ComputeBaselines on empty baseline maps: every station/month of the
   * temperature map gets its number of valid 1951..1980 samples, and a
   * baseline exactly when that number is positive, which is then the mean of
   * those samples.
   */
  lemma BaselineMapsCorrect(temps: TempsMap)
    requires TempsWellFormed(temps)
    ensures var r := BaselineMaps(temps);
      BaselinesOf(temps, r.count, r.base)
  {
    var stations := SortedKeys(temps.Keys);
    SortedKeysIncreasing(temps.Keys);
    SortedKeysMembers(temps.Keys);
    TallyStationsEffect(temps, stations, |stations|);
    var t := AfterTallyStations(temps, NoTally, stations, |stations|);
    TallyDone(temps, t.count, t.base, stations);
    AverageAll(temps, t, stations);
    AverageAllKeys(temps, t, stations);
  }
}
