/**
 * Two-level std::map access as the class performs it: `m[a][b]` on a map of
 * maps, which inserts the missing levels on a write and, through
 * operator[], a zero on a read.
 */
module NestedMaps {

  import opened GhcnHeader

  /** Both levels of `mm[a][b]` already exist. */
  predicate Has<V>(mm: map<int32, map<int32, V>>, a: int32, b: int32) {
    a in mm && b in mm[a]
  }

  /** `mm[a][b] = v`: creates the inner map when `a` is new; every other entry is kept. */
  function Put<V>(mm: map<int32, map<int32, V>>, a: int32, b: int32, v: V): (r: map<int32, map<int32, V>>)
    ensures Has(r, a, b) && r[a][b] == v
    ensures forall x :: x in r <==> x in mm || x == a
    ensures forall x, y :: Has(r, x, y) <==> Has(mm, x, y) || (x == a && y == b)
    ensures forall x, y :: Has(mm, x, y) && !(x == a && y == b) ==> Has(r, x, y) && r[x][y] == mm[x][y]
  {
    mm[a := (if a in mm then mm[a] else map[])[b := v]]
  }

  /** A second write to the same entry replaces the first. */
  lemma PutPut<V>(mm: map<int32, map<int32, V>>, a: int32, b: int32, v: V, w: V)
    ensures Put(Put(mm, a, b, v), a, b, w) == Put(mm, a, b, w)
  {
    var inner := if a in mm then mm[a] else map[];
    assert Put(mm, a, b, v)[a][b := w] == inner[b := w];
  }

  /** The value an integer `mm[a][b]` reads: zero when the entry is absent. */
  function IntAt(mm: map<int32, map<int32, int>>, a: int32, b: int32): int {
    if Has(mm, a, b) then mm[a][b] else 0
  }

  /** The value a floating-point `mm[a][b]` reads: zero when the entry is absent. */
  function RealAt(mm: map<int32, map<int32, real>>, a: int32, b: int32): real {
    if Has(mm, a, b) then mm[a][b] else 0.0
  }
}
