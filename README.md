# ghcn_app in Dafny

This project models the core of `ghcn_app`, a program that turns GHCN monthly
station temperature records into a global temperature-anomaly series, in the
style of NASA/GISS. The model follows the class `GHCN` of
`ghcn_app/GHCNcsv.cpp` and `ghcn_app/GHCNcsv.hpp` stage by stage:

- **Ingestion.** Each station/year record stores twelve readings. A reading is
  in tenths of a degree. A value above the sentinel is divided by ten; any
  other value becomes the sentinel -9999. Years before 1880 are skipped, and a
  later record for the same station and year replaces an earlier one.
- **Baselines.** For every station and month, the baselines count the valid
  samples of 1951-1980 and average them.
- **Anomalies.** For every year and month, the model averages the anomalies of
  the stations that have a valid reading and enough baseline samples. Each
  station's anomaly is its reading minus its baseline. Where no station
  qualifies, the value is the sentinel.
- **Merging.** The twelve monthly anomalies of a year are merged into one
  value, by average, maximum or minimum.
- **Smoothing.** An odd-length running mean is applied to the annual series.
- **Report.** The smoothed series of several runs are aligned into
  comma-separated rows, one per year.
- **Options.** The two command-line options are clamped to their ranges.

Each class method is an imperative `method` on the class `Ghcn.GHCN`. Its
fields are the program's maps. Each method is proved equal to a function of
the fields before the call: one function per loop, from a single month up to
the whole method. Further lemmas then state what those functions compute in
the program's own terms. Examples:

- the baseline count is the number of valid samples in the period;
- the global anomaly is the mean over exactly the qualifying stations;
- a merged year exists exactly when a valid month does;
- the smoother places one output at each window centre.

Modules:

| module | contents |
|---|---|
| `GhcnHeader` | constants, types and sentinel of `GHCNcsv.hpp` |
| `OrderedKeys` | the ascending key order in which a `std::map` is walked |
| `NestedMaps` | `operator[]` on a map of maps |
| `RealBounds` | bounds on sums and means |
| `Ingest` | `ReadTemps` |
| `Baselines`, `BaselineLoops`, `BaselinePasses` | `ComputeBaselines` |
| `Anomalies`, `AnomalyLoops`, `AnomalyPasses` | `ComputeGlobalAverageAnomalies` |
| `Merge` | `MergeMonthsToYear` |
| `Smoothing` | `ComputeMovingAvg` |
| `Report` | the free function `DumpSmoothedResults` |
| `Options` | the clamps of `ProcessOptions` |
| `Ghcn` | the class itself |

Arithmetic is exact (`real` and unbounded `int`). The sentinel test
`v > GHCN_NOTEMP + ERR_EPS` is kept as written: a value is valid exactly when
it exceeds -9998.9.

## Model

| member | source | states |
|---|---|---|
| GhcnHeader.BaselineYears | ghcn_app/GHCNcsv.hpp:166-167 | the baseline period 1951-1980 spans 30 years |
| GhcnHeader.DefaultsInRange | ghcn_app/GHCNcsv.hpp:150-177 | the default sample count lies in 1..30; the default filter length is odd and in 1..MAX_AVG_NYEAR; the sentinel is not a valid reading |
| Options.ClampAvgNYear | ghcn_app/GHCNcsv.cpp:553 | the filter length ends up in 1..20, unchanged when already in range, otherwise the nearer bound |
| Options.ClampMinBaselineSampleCount | ghcn_app/GHCNcsv.cpp:554-556 | the sample threshold ends up in 1..30, unchanged when already in range, otherwise the nearer bound |
| Options.DefaultsSurviveClamping | ghcn_app/GHCNcsv.cpp:528-529 | the defaults pass through the clamps unchanged |
| Options.ClampedFilterWidth | ghcn_app/GHCNcsv.cpp:553 | after clamping, the filter the smoother uses is odd and at most 21 wide; a series longer than 20 years can always be smoothed |
| NestedMaps.Put | ghcn_app/GHCNcsv.cpp:383-410 | writing through `m[a][b]` sets that entry, creates only its keys and keeps every other entry |
| NestedMaps.PutPut | ghcn_app/GHCNcsv.cpp:398-410 | a second write to the same entry overrides the first |
| OrderedKeys.MinKey | ghcn_app/GHCNcsv.cpp:192 | the first key a map walk visits belongs to the map |
| OrderedKeys.MinKeyLeast | ghcn_app/GHCNcsv.cpp:192 | the first key a walk visits is the least one |
| OrderedKeys.MinExists | ghcn_app/GHCNcsv.cpp:192 | every non-empty key set has a least element |
| OrderedKeys.SortedKeysMembers | ghcn_app/GHCNcsv.cpp:192-194 | a map walk visits exactly the map's keys |
| OrderedKeys.SortedKeysLength | ghcn_app/GHCNcsv.cpp:192-194 | a map walk visits each key once |
| OrderedKeys.SortedKeysIncreasing | ghcn_app/GHCNcsv.cpp:192-194 | a map walk visits keys in strictly ascending order |
| OrderedKeys.PrefixStep | ghcn_app/GHCNcsv.cpp:192 | a key visited among the first i is one of the first i-1 or the i-th |
| OrderedKeys.NotBefore | ghcn_app/GHCNcsv.cpp:192 | in an ascending walk, a key is not visited twice |
| Ingest.DecodeTenth | ghcn_app/GHCNcsv.cpp:482-490 | a stored slot is valid exactly when the reading exceeds the sentinel; a valid slot is the reading divided by ten, any other slot is the sentinel |
| Ingest.IngestWellFormed | ghcn_app/GHCNcsv.cpp:474-480 | after ingestion every station/year row has twelve slots and no year precedes 1880 |
| Ingest.IngestLastWins | ghcn_app/GHCNcsv.cpp:474-492 | the row of a station/year is the decoded row of the last record for it from 1880 on |
| Ingest.IngestUntouched | ghcn_app/GHCNcsv.cpp:474 | a station/year that no record stores keeps its presence and row |
| Ghcn.GHCN.constructor | ghcn_app/GHCNcsv.hpp:238-256 | a new object starts with all seven maps empty |
| Ghcn.GHCN.InsertRecord | ghcn_app/GHCNcsv.cpp:466-496 | one record's effect on the temperature map is StoreRecord |
| Ghcn.GHCN.ReadTemps | ghcn_app/GHCNcsv.cpp:438-510 | the temperature map after reading is every record applied in file order |
| Baselines.CountUpTo | ghcn_app/GHCNcsv.cpp:366-376 | the baseline samples counted before a year are at most the number of years passed |
| Baselines.BaselineCount | ghcn_app/GHCNcsv.cpp:366-376 | a station-month has at most 30 baseline samples |
| Baselines.CountPositiveIff | ghcn_app/GHCNcsv.cpp:369-376 | the running count is positive exactly when a valid sample exists among the years passed |
| Baselines.BaselineExistsIff | ghcn_app/GHCNcsv.cpp:369-376 | a station-month has a baseline exactly when some year of 1951-1980 has a valid reading for it |
| Baselines.ZeroCountZeroSum | ghcn_app/GHCNcsv.cpp:398-410 | no sample means no sum |
| Baselines.CountIsNumberOfYears | ghcn_app/GHCNcsv.cpp:366-376 | the running count equals the number of years passed with a valid reading |
| Baselines.BaselineCountIsNumberOfYears | ghcn_app/GHCNcsv.cpp:366-376 | the sample count equals the number of baseline years with a valid reading |
| Baselines.OnlyPeriodMatters | ghcn_app/GHCNcsv.cpp:366 | running count and sum depend only on the rows for 1951-1980 |
| Baselines.BaselineIgnoresOtherYears | ghcn_app/GHCNcsv.cpp:366 | count and sum are unaffected by years outside the baseline period |
| Baselines.MeanOfOne | ghcn_app/GHCNcsv.cpp:430 | with a single sample the baseline is that sample, undivided |
| Baselines.SumWithin | ghcn_app/GHCNcsv.cpp:398-410 | the running sum lies between count·lo and count·hi when all samples do |
| Baselines.MeanUpToWithin | ghcn_app/GHCNcsv.cpp:426-435 | a running mean lies between the bounds of its samples |
| Baselines.BaselineMeanWithin | ghcn_app/GHCNcsv.cpp:426-435 | a baseline lies between the bounds of its samples |
| BaselinePasses.TallyMonthEffect | ghcn_app/GHCNcsv.cpp:371-418 | one month of the first pass adds that year's sample for that station and month, and changes no other entry |
| BaselinePasses.TallyMonthsEffect | ghcn_app/GHCNcsv.cpp:371-418 | the month loop adds the year's samples for the months done, and changes no other station |
| BaselinePasses.TallyYearEffect | ghcn_app/GHCNcsv.cpp:369-419 | one baseline year adds its samples for every month, or nothing when the station lacks the year |
| BaselinePasses.TallyYearsEffect | ghcn_app/GHCNcsv.cpp:366-420 | the year loop leaves count and sum of the station's baseline years, touching no other station |
| BaselinePasses.TallyStart | ghcn_app/GHCNcsv.cpp:363 | empty maps are the state before any station |
| BaselinePasses.TallyStep | ghcn_app/GHCNcsv.cpp:363-421 | after a station is tallied, every station so far holds its count and sum |
| BaselinePasses.TallyDone | ghcn_app/GHCNcsv.cpp:363-421 | after every station, every station-month holds its count and sum |
| BaselinePasses.TallyStationsEffect | ghcn_app/GHCNcsv.cpp:363-421 | the first pass over the first i stations leaves their counts and sums |
| BaselinePasses.AverageEntry | ghcn_app/GHCNcsv.cpp:428-433 | a sum of more than one sample becomes their mean; one sample or none is left as it is; a zero count is created where none was |
| BaselinePasses.AverageMonthEntry | ghcn_app/GHCNcsv.cpp:428-433 | one month of the second pass averages only its own entry |
| BaselinePasses.AverageMonthKey | ghcn_app/GHCNcsv.cpp:430 | reading the count creates the station's count entry and no baseline of another station |
| BaselinePasses.AverageMonthsEntry | ghcn_app/GHCNcsv.cpp:428-434 | the month loop averages exactly the months done for that station |
| BaselinePasses.AverageMonthsKey | ghcn_app/GHCNcsv.cpp:428-434 | the month loop adds only the station's own keys |
| BaselinePasses.AverageStationsEntry | ghcn_app/GHCNcsv.cpp:426-435 | the second pass averages exactly the twelve months of the stations done |
| BaselinePasses.AverageStationsCountKey | ghcn_app/GHCNcsv.cpp:426-435 | after the second pass, a station has counts exactly when it had them before or was visited |
| BaselinePasses.AverageStationsBaseKey | ghcn_app/GHCNcsv.cpp:426-435 | the second pass creates no baseline for an unvisited station |
| BaselinePasses.AveragedFromTallied | ghcn_app/GHCNcsv.cpp:426-435 | averaging a finished tally yields the sample count and the mean of the valid baseline samples |
| BaselinePasses.AverageAll | ghcn_app/GHCNcsv.cpp:426-435 | after both passes every station-month holds its sample count, and its baseline mean when the count is positive |
| BaselinePasses.AverageAllKeys | ghcn_app/GHCNcsv.cpp:426-435 | after both passes the count map has exactly the stations as keys, and the baselines no other key |
| BaselinePasses.BaselineMapsCorrect | ghcn_app/GHCNcsv.cpp:354-436 | from empty maps, both passes yield, for every station and month, the number of valid 1951-1980 readings and, when positive, their mean |
| Ghcn.GHCN.AddSample | ghcn_app/GHCNcsv.cpp:383-418 | one valid sample creates or extends the count and sum of its station-month |
| Ghcn.GHCN.TallyMonth | ghcn_app/GHCNcsv.cpp:373-419 | one month of the first pass, as AfterTallyMonth |
| Ghcn.GHCN.TallyYear | ghcn_app/GHCNcsv.cpp:369-420 | one baseline year of a station, as AfterTallyYear |
| Ghcn.GHCN.TallyStation | ghcn_app/GHCNcsv.cpp:366-420 | the 1951-1980 loop of one station, as AfterTallyYears |
| Ghcn.GHCN.TallyStations | ghcn_app/GHCNcsv.cpp:363-421 | the first pass over the given stations in order |
| Ghcn.GHCN.AverageMonth | ghcn_app/GHCNcsv.cpp:430-433 | one month of the second pass, as AfterAverageMonth |
| Ghcn.GHCN.AverageStation | ghcn_app/GHCNcsv.cpp:428-434 | the twelve months of one station in the second pass |
| Ghcn.GHCN.AverageStations | ghcn_app/GHCNcsv.cpp:426-435 | the second pass over the given stations in order |
| Ghcn.GHCN.ComputeBaselines | ghcn_app/GHCNcsv.cpp:354-436 | the baseline maps become both passes applied to the old ones; from empty maps, they are the baseline counts and means of every station-month |
| Anomalies.StationCount | ghcn_app/GHCNcsv.cpp:208-212 | no more stations are counted than are walked |
| Anomalies.QualifyingLast | ghcn_app/GHCNcsv.cpp:192-212 | adding a station adds it to the qualifying set exactly when it qualifies |
| Anomalies.StationCountIsCardinality | ghcn_app/GHCNcsv.cpp:192-233 | the count over a walk of distinct stations is the number of qualifying stations in it |
| Anomalies.GlobalCountIsQualifyingStations | ghcn_app/GHCNcsv.hpp:97-105 | the global station count of a year-month is the number of stations with a valid reading and at least minCount baseline samples; it is zero exactly when none qualifies |
| Anomalies.GlobalCountAtMostStationsWithYear | ghcn_app/GHCNcsv.cpp:194-212 | only stations that report the year are counted |
| Anomalies.AppendStation | ghcn_app/GHCNcsv.cpp:205-231 | one more station adds one to the count and its anomaly to the sum exactly when it qualifies |
| Anomalies.NoStationNoSum | ghcn_app/GHCNcsv.cpp:212 | with no qualifying station the anomaly sum is zero |
| Anomalies.AnomalySumWithin | ghcn_app/GHCNcsv.cpp:212-228 | the anomaly sum lies between count·lo and count·hi when each anomaly does |
| Anomalies.GlobalAnomalyWithin | ghcn_app/GHCNcsv.cpp:240-259 | the global anomaly is within the bounds of the station anomalies when a station qualifies, otherwise the sentinel |
| AnomalyPasses.BaselinesAreReady | ghcn_app/GHCNcsv.cpp:212 | the finished baselines provide every count and baseline the anomaly stage reads |
| AnomalyPasses.SetEntrySlot | ghcn_app/GHCNcsv.cpp:226-228 | writing a year-month changes that entry only and keeps the rows' keys and length |
| AnomalyPasses.AddMonthSlot | ghcn_app/GHCNcsv.cpp:205-231 | one month adds one station's contribution to its own entry only |
| AnomalyPasses.AddMonthsSlot | ghcn_app/GHCNcsv.cpp:205-231 | the month loop adds one station's contributions to the months done |
| AnomalyPasses.StationYearSlot | ghcn_app/GHCNcsv.cpp:196-231 | one year of a station creates the year row if needed, then contributes to each month |
| AnomalyPasses.StationYearsSlot | ghcn_app/GHCNcsv.cpp:194-232 | the year loop contributes to exactly the years visited |
| AnomalyPasses.StationSlot | ghcn_app/GHCNcsv.cpp:194-232 | a station contributes to exactly the years it reports |
| AnomalyPasses.ExpectedStep | ghcn_app/GHCNcsv.cpp:192-233 | the expected entry after one more station adds that station's contribution when it reports the year |
| AnomalyPasses.StationsSlot | ghcn_app/GHCNcsv.cpp:192-233 | after the first pass over i stations each entry is the contribution of those stations |
| AnomalyPasses.FinishMonthSlot | ghcn_app/GHCNcsv.cpp:244-257 | the final pass at one month turns its entry into the mean or the sentinel and changes nothing else |
| AnomalyPasses.FinishMonthsSlot | ghcn_app/GHCNcsv.cpp:244-258 | the final month loop finishes exactly the months done |
| AnomalyPasses.FinishYearsSlot | ghcn_app/GHCNcsv.cpp:240-259 | the final pass finishes exactly the months of the years done |
| AnomalyPasses.FinishSlot | ghcn_app/GHCNcsv.cpp:240-259 | the final pass finishes every month of every year with a row and nothing else |
| AnomalyPasses.RowSeenIff | ghcn_app/GHCNcsv.cpp:196-203 | a year row is created exactly when some station walked reports the year |
| AnomalyPasses.NoRowNoStation | ghcn_app/GHCNcsv.cpp:194-212 | a year no station reports has no qualifying station |
| AnomalyPasses.NoMonthNoStation | ghcn_app/GHCNcsv.cpp:205 | no station is counted outside months 0-11 |
| AnomalyPasses.RowSeenAllYears | ghcn_app/GHCNcsv.cpp:192-203 | after all stations, the years with a row are the years some station reports |
| AnomalyPasses.FinalFromSlot | ghcn_app/GHCNcsv.cpp:240-259 | a finished entry holds the global count and global anomaly of its year-month |
| AnomalyPasses.AnomalyMapsAt | ghcn_app/GHCNcsv.cpp:184-263 | each year-month of the result holds the global count and global anomaly; rows exist for exactly the reported years |
| AnomalyPasses.AnomalyMapsCorrect | ghcn_app/GHCNcsv.cpp:184-263 | from empty maps, the anomaly stage yields a twelve-slot row per reported year, holding the mean anomaly of the qualifying stations or the sentinel, and their count |
| Ghcn.GHCN.AddMonth | ghcn_app/GHCNcsv.cpp:205-231 | one month of one station-year, as AfterAddMonth; the rows keep twelve slots |
| Ghcn.GHCN.AddStationYear | ghcn_app/GHCNcsv.cpp:196-231 | one year of one station, as AfterStationYear |
| Ghcn.GHCN.AddStation | ghcn_app/GHCNcsv.cpp:194-232 | every year of one station in ascending order |
| Ghcn.GHCN.SumStations | ghcn_app/GHCNcsv.cpp:192-233 | the first pass over every station in ascending order |
| Ghcn.GHCN.FinishMonth | ghcn_app/GHCNcsv.cpp:246-257 | one month of the final pass, as AfterFinishMonth |
| Ghcn.GHCN.FinishYear | ghcn_app/GHCNcsv.cpp:244-258 | the twelve months of one year of the final pass |
| Ghcn.GHCN.FinishYears | ghcn_app/GHCNcsv.cpp:240-259 | the final pass over every year row in ascending order |
| Ghcn.GHCN.ComputeGlobalAverageAnomalies | ghcn_app/GHCNcsv.cpp:184-263 | the anomaly maps become both passes applied to the old ones; from empty maps, they are the global anomalies and station counts of every reported year |
| Merge.ValidCount | ghcn_app/GHCNcsv.cpp:124-131 | no more valid months are counted than are scanned |
| Merge.ValidCountPositive | ghcn_app/GHCNcsv.cpp:124-134 | the valid-month count is positive exactly when a valid month exists |
| Merge.ValidSumWithin | ghcn_app/GHCNcsv.cpp:124-131 | the sum of valid months lies between count·lo and count·hi |
| Merge.RawMax | ghcn_app/GHCNcsv.cpp:143-147 | the maximum scan yields one of the months and is at least every month, valid or not |
| Merge.SeededMin | ghcn_app/GHCNcsv.cpp:159-167 | the minimum scan, seeded with January, yields January or a valid month and is at most January and every valid month |
| Merge.MergeAvgMeaning | ghcn_app/GHCNcsv.cpp:122-139 | the average mode stores a year exactly when a month is valid, and the value lies within the bounds of the valid months |
| Merge.MergeMaxMeaning | ghcn_app/GHCNcsv.cpp:140-155 | the maximum mode stores a year exactly when a month is valid, and the value is a valid month at least all months |
| Merge.MergeMinMeaning | ghcn_app/GHCNcsv.cpp:156-175 | the minimum mode stores a year exactly when January is valid, and the value is a valid month at most every valid month |
| Merge.MergeYear | ghcn_app/GHCNcsv.cpp:118-176 | the per-year loops compute MergedYear |
| Merge.MergedFromGrows | ghcn_app/GHCNcsv.cpp:112-177 | one more year adds its merged value when there is one, and nothing otherwise |
| Merge.MergedFromStep | ghcn_app/GHCNcsv.cpp:112-177 | the annual map after one more year is the map before, updated at that year when it merges to a value |
| Merge.MergedFromAll | ghcn_app/GHCNcsv.cpp:112-177 | walking every year in order yields the merged annual map |
| Ghcn.GHCN.MergeMonthsToYear | ghcn_app/GHCNcsv.cpp:103-181 | the annual map becomes the old one overwritten with the merged value of every year that has one |
| Smoothing.SeriesKeys | ghcn_app/GHCNcsv.cpp:301-303 | the walk of the annual map visits one key per year |
| Smoothing.SeriesKeysIn | ghcn_app/GHCNcsv.cpp:301-303 | the walk visits only years in the map |
| Smoothing.ValuesAt | ghcn_app/GHCNcsv.cpp:325-329 | the values read along a key walk, in order |
| Smoothing.SeriesValues | ghcn_app/GHCNcsv.cpp:325-329 | the annual series in ascending year order |
| Smoothing.FilterWidth | ghcn_app/GHCNcsv.cpp:286-295 | the filter length is made odd by adding one to an even request |
| Smoothing.Outputs | ghcn_app/GHCNcsv.cpp:325-350 | there is one output per window position, the k-th being the running mean after k steps |
| Smoothing.FirstOutputs | ghcn_app/GHCNcsv.cpp:325-350 | the first n outputs are the running means of the first n steps |
| Smoothing.OutputStep | ghcn_app/GHCNcsv.cpp:341 | each later output is the previous one plus (leading − trailing)/nel |
| Smoothing.FirstOutputIsWindowMean | ghcn_app/GHCNcsv.cpp:325-330 | the first output is the mean of the first nel values |
| Smoothing.RunningMeanClosedForm | ghcn_app/GHCNcsv.cpp:333-345 | the k-th output is (window sum − xs[k] + xs[0])/nel: the trailing iterator starts one ahead, so from the second output on, the window mean keeps xs[0] in place of xs[k] |
| Smoothing.ConstantSeriesUnchanged | ghcn_app/GHCNcsv.cpp:325-345 | a constant series is smoothed to itself |
| Smoothing.PlacedRange | ghcn_app/GHCNcsv.cpp:317-345 | outputs are written only to years between the first and last window centres |
| Smoothing.PlacedSize | ghcn_app/GHCNcsv.cpp:317-345 | each output is written to a different year |
| Smoothing.PlacedValues | ghcn_app/GHCNcsv.cpp:317-345 | the k-th output is written at the centre of the k-th window |
| Smoothing.PlacedShape | ghcn_app/GHCNcsv.cpp:317-345 | outputs cover exactly the interior years, h from each end, with the k-th at the k-th centre |
| Smoothing.PlacedStep | ghcn_app/GHCNcsv.cpp:342 | writing one more output extends the placed outputs by one centre |
| Smoothing.SmoothedIsPlaced | ghcn_app/GHCNcsv.cpp:271-351 | for a filter longer than one, the smoothed entries are the outputs at the window centres |
| Smoothing.SmoothedRange | ghcn_app/GHCNcsv.cpp:271-351 | n − nel + 1 years are smoothed, all between the first and last centre |
| Smoothing.SmoothedValues | ghcn_app/GHCNcsv.cpp:271-351 | the k-th window centre receives the k-th running mean |
| Smoothing.SmoothedByWindows | ghcn_app/GHCNcsv.cpp:317-350 | the smoothed entries are the outputs over the key walk, placed from the half-width on |
| Smoothing.CopyIsPlaced | ghcn_app/GHCNcsv.cpp:298-309 | copying along the key walk reproduces the annual map |
| Smoothing.PlacedCopy | ghcn_app/GHCNcsv.cpp:301-305 | writing every value at its own year reproduces the map |
| Smoothing.UnitFilterCopies | ghcn_app/GHCNcsv.cpp:286-309 | a request of 0 or 1 yields a one-year filter, which copies the series unchanged |
| Ghcn.GHCN.CopyYears | ghcn_app/GHCNcsv.cpp:298-309 | the copy loop writes every annual value at its year |
| Ghcn.GHCN.FirstWindow | ghcn_app/GHCNcsv.cpp:323-330 | the first window sum is the first output, the mean of the first nel values |
| Ghcn.GHCN.SlideWindow | ghcn_app/GHCNcsv.cpp:332-350 | the sliding loop writes every output at its window centre |
| Ghcn.GHCN.ComputeMovingAvg | ghcn_app/GHCNcsv.cpp:271-351 | the smoothed map becomes the old one overwritten with the smoothed entries |
| Report.Split | ghcn_app/GHCNcsv.cpp:560-602 | splitting a row at commas gives at least one comma-free field |
| Report.Cells | ghcn_app/GHCNcsv.cpp:577-595 | the cells built series by series are exactly one per series, cell g holding series g's value for the year or nothing |
| Report.RowFields | ghcn_app/GHCNcsv.cpp:567-597 | the intended fields of a row contain no comma |
| Report.RowFieldAt | ghcn_app/GHCNcsv.cpp:567-597 | a row's fields are the year and one cell per series, with an empty last field when there is a single series |
| Report.SplitJoin | ghcn_app/GHCNcsv.cpp:577-595 | splitting a joined row gives back its comma-free fields |
| Report.JoinSplit | ghcn_app/GHCNcsv.cpp:577-595 | joining the split fields gives back the row |
| Report.RowFieldsShape | ghcn_app/GHCNcsv.cpp:567-597 | column g+1 is empty exactly when series g lacks the year, and otherwise holds its value |
| Report.RowColumns | ghcn_app/GHCNcsv.cpp:567-597 | every row reads back as the same number of columns, so the series stay aligned |
| Report.JoinRow | ghcn_app/GHCNcsv.cpp:577-595 | joining the year and the cells gives the row text built series by series |
| Report.RowIsJoin | ghcn_app/GHCNcsv.cpp:577-595 | the row text built series by series is the join of the row's fields |
| Report.WriteRow | ghcn_app/GHCNcsv.cpp:569-597 | the loop over the series writes exactly the joined fields of the row |
| Report.DumpSmoothedResults | ghcn_app/GHCNcsv.cpp:560-602 | one row per year of the first series, in ascending order, each the joined fields of that year |
| RealBounds.MeanWithin | ghcn_app/GHCNcsv.cpp:246-248 | a mean lies within the bounds of the terms summed |

## Left out

- File input: opening the file, reading lines, fixed-column `sscanf` parsing and the `mCbuf` buffer. `ReadTemps` takes the parsed records as a parameter. A record carries its readings in tenths; a field `sscanf` did not fill stays the sentinel.
- `getopt`, `atoi` and the usage message of `ProcessOptions`. Only the clamps are modelled.
- All console output: the `cout` formatting of numbers, `DumpResults` (`ghcn_app/GHCNcsv.cpp:60-83`) and the member `DumpSmoothedResults` (`ghcn_app/GHCNcsv.cpp:85-100`), which only print. The free `DumpSmoothedResults` is modelled with years and values as abstract tokens, not digits.
- `main`, `new`/`delete`, the destructor and the run over several files. The run parameters (merge mode, filter length, sample threshold) are passed to the methods as arguments.
- Floating point: `float` and `double` are exact reals, so rounding and the `float` to `double` widening are not modelled.
- Ghcn.GHCN.ComputeMovingAvg: requires at least nel annual values when the filter is longer than one year, and a non-negative request. With fewer values the source walks iterators past the end, which is undefined behaviour.
- Ghcn.GHCN.ComputeGlobalAverageAnomalies: requires the inputs the anomaly stage reads (twelve-slot rows, a count for every station-month, a baseline wherever the count is positive) and a threshold of at least one. A threshold of one is what the clamp guarantees. Without a baseline the source would read a default zero.
- The branch at `ghcn_app/GHCNcsv.cpp:214-222` is modelled in Ghcn.GHCN.AddMonth as a branch proved unreachable: the year row is always created at lines 196-203 before it.
- Report.DumpSmoothedResults: requires at least one series; with none the source reads `ghcn[0]` of an empty array (`ghcn_app/GHCNcsv.cpp:567-568`), which is undefined behaviour.
- AnomalyLoops.SetEntry: leaves the maps unchanged for an entry outside a twelve-slot row. The loops never reach such an entry.
- Ghcn.GHCN.ComputeBaselines and Ghcn.GHCN.ComputeGlobalAverageAnomalies: their meaning in terms of baseline means and qualifying stations is proved only when they start from empty maps, as `main` calls them on a fresh object. Otherwise they are stated as the passes applied to the old maps.
