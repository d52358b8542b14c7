/**
 * The comma-separated rows the free function DumpSmoothedResults writes for
 * several smoothed series side by side (ghcn_app/GHCNcsv.cpp:560-602). A row
 * is a sequence of tokens; how a number is rendered as text is abstracted
 * away.
 */
module Report {

  import opened GhcnHeader
  import opened OrderedKeys

  datatype Token = YearToken(year: int32) | ValueToken(value: real) | Comma

  /** The tokens between two separators. */
  type Field = seq<Token>

  predicate Plain(fs: seq<Field>) {
    forall i :: 0 <= i < |fs| ==> Comma !in fs[i]
  }

  /** Fields written one after another, a separator between neighbours. */
  function Join(fs: seq<Field>): seq<Token>
    requires |fs| >= 1
  {
    if |fs| == 1 then fs[0] else Join(fs[..|fs| - 1]) + [Comma] + fs[|fs| - 1]
  }

  /** A row cut at its separators: what a CSV reader sees. */
  function Split(ts: seq<Token>): (fs: seq<Field>)
    ensures |fs| >= 1 && Plain(fs)
  {
    if ts == [] then [[]]
    else
      var fs := Split(ts[..|ts| - 1]);
      var t := ts[|ts| - 1];
      if t == Comma then fs + [[]] else fs[..|fs| - 1] + [fs[|fs| - 1] + [t]]
  }

  /** The field of one series for one year: its value, or nothing when it has no entry for the year. */
  function Cell(series: AnnualMap, y: int32): Field {
    if y in series then [ValueToken(series[y])] else []
  }

  /** The field of every series for year `y`, in series order. */
  function Cells(series: seq<AnnualMap>, y: int32): (cs: seq<Field>)
    ensures |cs| == |series|
    ensures forall g :: 0 <= g < |series| ==> cs[g] == Cell(series[g], y)
    decreases |series|
  {
    if series == [] then [] else Cells(series[..|series| - 1], y) + [Cell(series[|series| - 1], y)]
  }

  /**
   * The fields of the row of year `y`: the year, the first series' value,
   * then one field per further series; a single series leaves an empty last
   * field behind its trailing separator.
   */
  function RowFields(series: seq<AnnualMap>, y: int32): (fs: seq<Field>)
    requires |series| >= 1 && y in series[0]
    ensures Plain(fs)
  {
    [[YearToken(y)]] + Cells(series, y) + (if |series| == 1 then [[]] else [])
  }

  /** Field g+1 of the row is series g's field; the year comes first. */
  lemma RowFieldAt(series: seq<AnnualMap>, y: int32, g: int)
    requires |series| >= 1 && y in series[0] && 0 <= g < |series|
    ensures |RowFields(series, y)| == |series| + (if |series| == 1 then 2 else 1)
    ensures RowFields(series, y)[0] == [YearToken(y)]
    ensures RowFields(series, y)[g + 1] == Cell(series[g], y)
    ensures |series| == 1 ==> RowFields(series, y)[2] == []
  {
    var cs := Cells(series, y);
    var fs := RowFields(series, y);
    var front := [[YearToken(y)]] + cs;
    assert fs == front + (if |series| == 1 then [[]] else []);
    assert fs[g + 1] == front[g + 1] == cs[g];
  }

  lemma {:induction false} SplitPlain(f: Field)
    requires Comma !in f
    ensures Split(f) == [f]
  {
    if f != [] {
      var init := f[..|f| - 1];
      assert forall t :: t in init ==> t in f;
      SplitPlain(init);
      assert f[|f| - 1] != Comma;
      assert init + [f[|f| - 1]] == f;
    }
  }

  lemma {:induction false} SplitAfterSeparator(a: seq<Token>, f: Field)
    requires Comma !in f
    ensures Split(a + [Comma] + f) == Split(a) + [f]
  {
    if f == [] {
      assert a + [Comma] + f == a + [Comma];
      assert (a + [Comma])[..|a|] == a;
    } else {
      var init := f[..|f| - 1];
      SplitAfterSeparator(a, init);
      assert (a + [Comma] + f)[..|a + [Comma] + f| - 1] == a + [Comma] + init;
      assert init + [f[|f| - 1]] == f;
    }
  }

  /** Reading a row back gives exactly the fields that were written. */
  lemma {:induction false} SplitJoin(fs: seq<Field>)
    requires |fs| >= 1 && Plain(fs)
    ensures Split(Join(fs)) == fs
  {
    if |fs| == 1 {
      SplitPlain(fs[0]);
    } else {
      var init := fs[..|fs| - 1];
      SplitJoin(init);
      SplitAfterSeparator(Join(init), fs[|fs| - 1]);
      assert init + [fs[|fs| - 1]] == fs;
    }
  }

  /** One more field written after the others. */
  lemma JoinAppend(fs: seq<Field>, f: Field)
    requires |fs| >= 1
    ensures Join(fs + [f]) == Join(fs) + [Comma] + f
  {
    assert (fs + [f])[..|fs|] == fs;
  }

  /** One more token written at the end of the last field. */
  lemma JoinExtendLast(fs: seq<Field>, t: Token)
    requires |fs| >= 1
    ensures Join(fs[..|fs| - 1] + [fs[|fs| - 1] + [t]]) == Join(fs) + [t]
  {
    var front := fs[..|fs| - 1];
    var last := fs[|fs| - 1];
    var gs := front + [last + [t]];
    assert gs[..|gs| - 1] == front;
    assert gs[|gs| - 1] == last + [t];
    if |fs| == 1 {
      assert Join(gs) == last + [t];
    } else {
      assert Join(gs) == Join(front) + [Comma] + (last + [t]);
      assert Join(fs) == Join(front) + [Comma] + last;
      assert Join(front) + [Comma] + (last + [t]) == Join(front) + [Comma] + last + [t];
    }
  }

  /** A separator read last opens an empty field; writing it back gives the separator again. */
  lemma JoinSplitComma(init: seq<Token>)
    requires Join(Split(init)) == init
    ensures Join(Split(init + [Comma])) == init + [Comma]
  {
    var ts := init + [Comma];
    assert ts[..|ts| - 1] == init;
    var fs := Split(init);
    assert Split(ts) == fs + [[]];
    JoinAppend(fs, []);
    assert Join(fs + [[]]) == init + [Comma] + [];
  }

  /** Any other token read last ends the last field; writing it back gives the token again. */
  lemma JoinSplitToken(init: seq<Token>, t: Token)
    requires t != Comma
    requires Join(Split(init)) == init
    ensures Join(Split(init + [t])) == init + [t]
  {
    var ts := init + [t];
    assert ts[..|ts| - 1] == init;
    var fs := Split(init);
    assert Split(ts) == fs[..|fs| - 1] + [fs[|fs| - 1] + [t]];
    JoinExtendLast(fs, t);
  }

  /** Writing the fields of a row back reproduces the row. */
  lemma {:induction false} JoinSplit(ts: seq<Token>)
    ensures Join(Split(ts)) == ts
  {
    if ts != [] {
      var init := ts[..|ts| - 1];
      var t := ts[|ts| - 1];
      JoinSplit(init);
      assert init + [t] == ts;
      if t == Comma {
        JoinSplitComma(init);
      } else {
        JoinSplitToken(init, t);
      }
    }
  }

  /**
   * The fields of the row of year `y`: the year, then series g's value in
   * field g+1 or an empty field when series g has no entry for the year;
   * |series|+1 fields, or three for a single series.
   */
  lemma RowFieldsShape(series: seq<AnnualMap>, y: int32)
    requires |series| >= 1 && y in series[0]
    ensures var fs := RowFields(series, y);
      && |fs| == (if |series| == 1 then 3 else |series| + 1)
      && fs[0] == [YearToken(y)]
      && fs[1] == [ValueToken(series[0][y])]
      && (forall g :: 1 <= g < |series| ==>
            (fs[g + 1] == [] <==> y !in series[g])
            && (y in series[g] ==> fs[g + 1] == [ValueToken(series[g][y])]))
      && (|series| == 1 ==> fs[2] == [])
  {
    var fs := RowFields(series, y);
    RowFieldAt(series, y, 0);
    forall g | 1 <= g < |series|
      ensures (fs[g + 1] == [] <==> y !in series[g])
            && (y in series[g] ==> fs[g + 1] == [ValueToken(series[g][y])])
    {
      RowFieldAt(series, y, g);
    }
  }

  /** The row of year `y` as written, read back as CSV, gives back its fields. */
  lemma RowColumns(series: seq<AnnualMap>, y: int32)
    requires |series| >= 1 && y in series[0]
    ensures Split(Join(RowFields(series, y))) == RowFields(series, y)
    ensures |Split(Join(RowFields(series, y)))| == (if |series| == 1 then 3 else |series| + 1)
  {
    SplitJoin(RowFields(series, y));
    RowFieldsShape(series, y);
  }

  /** The prefix as long as the fields is all of them. */
  lemma JoinWhole(fs: seq<Field>)
    requires |fs| >= 1
    ensures Join(fs[..|fs|]) == Join(fs)
  {
    assert fs[..|fs|] == fs;
  }

  /** A prefix of fields one longer: one more separator and field. */
  lemma JoinPrefixStep(fs: seq<Field>, k: int)
    requires 1 <= k < |fs|
    ensures Join(fs[..k + 1]) == Join(fs[..k]) + [Comma] + fs[k]
  {
    var p := fs[..k + 1];
    assert p[..k] == fs[..k];
    assert p[k] == fs[k];
  }

  /**
   * The tokens of a row up to and including the cell of series k-1, as the
   * row writer has them before it decides on the separator that follows.
   */
  function RowPrefix(series: seq<AnnualMap>, y: int32, k: int): seq<Token>
    requires 1 <= k <= |series| && y in series[0]
    decreases k
  {
    if k == 1 then [YearToken(y), Comma, ValueToken(series[0][y])]
    else RowPrefix(series, y, k - 1) + [Comma] + Cell(series[k - 1], y)
  }

  /** Fields that begin as a row of year `y` does, joined up to field k, give the row prefix. */
  lemma {:induction false} JoinRowPrefix(fs: seq<Field>, series: seq<AnnualMap>, y: int32, k: int)
    requires 1 <= k <= |series| && y in series[0] && k < |fs|
    requires fs[0] == [YearToken(y)]
    requires forall g :: 0 <= g < k ==> fs[g + 1] == Cell(series[g], y)
    ensures RowPrefix(series, y, k) == Join(fs[..k + 1])
  {
    if k == 1 {
      var p := fs[..2];
      assert p[..1] == [fs[0]];
      assert p[1] == fs[1] == Cell(series[0], y);
    } else {
      JoinRowPrefix(fs, series, y, k - 1);
      JoinPrefixStep(fs, k);
      assert fs[k] == Cell(series[k - 1], y);
    }
  }

  /** Fields shaped as the row of year `y`, joined, give the whole row prefix and the trailing separator. */
  lemma JoinRow(fs: seq<Field>, series: seq<AnnualMap>, y: int32)
    requires |series| >= 1 && y in series[0]
    requires |fs| == (if |series| == 1 then 3 else |series| + 1)
    requires fs[0] == [YearToken(y)]
    requires forall g :: 0 <= g < |series| ==> fs[g + 1] == Cell(series[g], y)
    requires |series| == 1 ==> fs[2] == []
    ensures Join(fs) == RowPrefix(series, y, |series|) + (if |series| == 1 then [Comma] else [])
  {
    var n := |series|;
    JoinRowPrefix(fs, series, y, n);
    JoinWhole(fs);
    if n == 1 {
      JoinPrefixStep(fs, 2);
      assert Join(fs) == RowPrefix(series, y, 1) + [Comma] + [];
    }
  }

  /** Field g+1 of the row of year `y` is series g's field, for every g. */
  lemma RowFieldsCells(series: seq<AnnualMap>, y: int32)
    requires |series| >= 1 && y in series[0]
    ensures |RowFields(series, y)| == (if |series| == 1 then 3 else |series| + 1)
    ensures RowFields(series, y)[0] == [YearToken(y)]
    ensures forall g :: 0 <= g < |series| ==> RowFields(series, y)[g + 1] == Cell(series[g], y)
    ensures |series| == 1 ==> RowFields(series, y)[2] == []
  {
    forall g | 0 <= g < |series|
      ensures RowFields(series, y)[g + 1] == Cell(series[g], y)
    {
      RowFieldAt(series, y, g);
    }
    RowFieldAt(series, y, 0);
  }

  /** The whole row: every cell, and an empty third field when there is one series only. */
  lemma RowIsJoin(series: seq<AnnualMap>, y: int32)
    requires |series| >= 1 && y in series[0]
    ensures Join(RowFields(series, y)) == RowPrefix(series, y, |series|) + (if |series| == 1 then [Comma] else [])
  {
    RowFieldsCells(series, y);
    JoinRow(RowFields(series, y), series, y);
  }

  /** One row as the loop over the further series emits it. */
  method WriteRow(series: seq<AnnualMap>, y: int32) returns (row: seq<Token>)
    requires |series| >= 1 && y in series[0]
    ensures row == Join(RowFields(series, y))
  {
    var ngh := |series|;
    row := [YearToken(y), Comma, ValueToken(series[0][y]), Comma];
    var igh := 1;
    while igh < ngh
      invariant 1 <= igh <= ngh
      invariant row == RowPrefix(series, y, igh) + (if igh < ngh || ngh == 1 then [Comma] else [])
    {
      if y in series[igh] {
        row := row + [ValueToken(series[igh][y])];
        if igh < ngh - 1 {
          row := row + [Comma];
        }
      } else {
        assert RowPrefix(series, y, igh + 1) == RowPrefix(series, y, igh) + [Comma] + [];
        if igh < ngh - 1 {
          row := row + [Comma];
        }
      }
      igh := igh + 1;
    }
    RowIsJoin(series, y);
  }

  /**
   * One row per year of the first series, in ascending year order; every
   * other series contributes the value it has for that year, if any.
   */
  method DumpSmoothedResults(series: seq<AnnualMap>) returns (rows: seq<seq<Token>>)
    requires |series| >= 1
    ensures |rows| == |SortedKeys(series[0].Keys)| == |series[0]|
    ensures forall i :: 0 <= i < |rows| ==>
      SortedKeys(series[0].Keys)[i] in series[0] && rows[i] == Join(RowFields(series, SortedKeys(series[0].Keys)[i]))
  {
    var years := SortedKeys(series[0].Keys);
    SortedKeysLength(series[0].Keys);
    SortedKeysMembers(series[0].Keys);
    rows := [];
    var i := 0;
    while i < |years|
      invariant 0 <= i <= |years|
      invariant |rows| == i
      invariant forall k {:trigger rows[k]} :: 0 <= k < i ==> rows[k] == Join(RowFields(series, years[k]))
    {
      SortedKeysIn(series[0].Keys, i);
      var row := WriteRow(series, years[i]);
      ghost var done := rows;
      rows := rows + [row];
      forall k | 0 <= k < i + 1 ensures rows[k] == Join(RowFields(series, years[k])) {
        if k < i {
          assert rows[k] == done[k];
        }
      }
      i := i + 1;
    }
  }
}
