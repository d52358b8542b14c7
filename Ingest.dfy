/**
 * What reading a GHCN file does to the temperature map, once each line has
 * been parsed into a station id, a year and twelve readings in tenths of a
 * degree (ghcn_app/GHCNcsv.cpp:466-496).
 */
module Ingest {

  import opened GhcnHeader

  /** One parsed line: station id, year and twelve readings in tenths of a degree. */
  datatype Record = Record(station: int32, year: int32, tenths: seq<int>)

  /**
   * One stored slot: a reading above the sentinel is scaled down to degrees,
   * anything else becomes the sentinel.
   */
  function DecodeTenth(t: int): (v: real)
    ensures IsValidTemp(v) <==> t >= -9998
    ensures IsValidTemp(v) ==> v * 10.0 == t as real
    ensures !IsValidTemp(v) ==> v == GHCN_NOTEMP
  {
    if t as real > GHCN_NOTEMP + ERR_EPS then t as real / 10.0 else GHCN_NOTEMP
  }

  /**
   * The reading of month `i`: a field the line does not supply keeps the
   * sentinel the reading buffer starts with.
   */
  function TenthAt(tt: seq<int>, i: int): int {
    if 0 <= i < |tt| then tt[i] else -9999
  }

  /** The twelve slots stored for one record. */
  function DecodeTenths(tt: seq<int>): Row {
    seq(MONTHS, i requires 0 <= i < MONTHS => DecodeTenth(TenthAt(tt, i)))
  }

  function YearsOfStation(temps: TempsMap, s: int32): map<int32, Row> {
    if s in temps then temps[s] else map[]
  }

  /** The effect of one record on the temperature map. */
  function StoreRecord(temps: TempsMap, r: Record): TempsMap {
    if r.year < MIN_GISS_YEAR then temps
    else temps[r.station := YearsOfStation(temps, r.station)[r.year := DecodeTenths(r.tenths)]]
  }

  /** The effect of a sequence of records, applied in file order. */
  function IngestAll(temps: TempsMap, rs: seq<Record>): TempsMap
    decreases |rs|
  {
    if rs == [] then temps else StoreRecord(IngestAll(temps, rs[..|rs| - 1]), rs[|rs| - 1])
  }

  predicate Stores(r: Record, s: int32, y: int32) {
    r.station == s && r.year == y && r.year >= MIN_GISS_YEAR
  }

  /** Ingestion keeps every row at twelve slots and never stores a year before 1880. */
  lemma {:induction false} IngestWellFormed(temps: TempsMap, rs: seq<Record>)
    requires TempsWellFormed(temps)
    ensures TempsWellFormed(IngestAll(temps, rs))
  {
    if rs != [] {
      IngestWellFormed(temps, rs[..|rs| - 1]);
    }
  }

  /**
   * The last record that stores a station/year decides all twelve of its
   * slots, whatever was there before.
   */
  lemma {:induction false} IngestLastWins(temps: TempsMap, rs: seq<Record>, j: int)
    requires 0 <= j < |rs| && rs[j].year >= MIN_GISS_YEAR
    requires forall k :: j < k < |rs| ==> !Stores(rs[k], rs[j].station, rs[j].year)
    ensures var t := IngestAll(temps, rs);
      rs[j].station in t && rs[j].year in t[rs[j].station]
      && t[rs[j].station][rs[j].year] == DecodeTenths(rs[j].tenths)
  {
    var last := |rs| - 1;
    if j < last {
      IngestLastWins(temps, rs[..last], j);
    }
  }

  /**
   * A station/year that no record stores (in particular one whose records all
   * predate 1880) keeps exactly what it had before.
   */
  lemma {:induction false} IngestUntouched(temps: TempsMap, rs: seq<Record>, s: int32, y: int32)
    requires forall k :: 0 <= k < |rs| ==> !Stores(rs[k], s, y)
    ensures var t := IngestAll(temps, rs);
      && ((s in t && y in t[s]) <==> (s in temps && y in temps[s]))
      && (s in t && y in t[s] ==> t[s][y] == temps[s][y])
  {
    if rs != [] {
      IngestUntouched(temps, rs[..|rs| - 1], s, y);
    }
  }
}
