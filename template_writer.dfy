/** `scheduler/template_writer.py`: force the uploaded player table into the
    eight columns the workbook's macros read, write it with its header into
    the `Players` sheet from cell A1, and size the columns. */
module TemplateWriter {
  import opened Values
  import opened Text
  import opened Frame
  import opened Worksheets
  import Ingest

  /** A DataFrame cell: `None` is a missing value (NaN). */
  type Cell = Option<Value>

  /** The header cleaning of `_normalize_players_df`: every byte-order mark
      removed, then whitespace stripped (no case change). */
  function CleanHeader(h: string): string {
    Strip(RemoveChar(h, Bom))
  }

  /** A cleaned header holds no byte-order mark and no surrounding whitespace,
      cleaning is idempotent, and a leading byte-order mark makes no difference. */
  lemma CleanHeaderShape(h: string)
    ensures Bom !in CleanHeader(h) && Trimmed(CleanHeader(h))
    ensures CleanHeader(CleanHeader(h)) == CleanHeader(h)
    ensures CleanHeader([Bom] + h) == CleanHeader(h)
  {
    var x := RemoveChar(h, Bom);
    var a, b := StripSplit(x);
    var s := Strip(x);
    assert forall ch :: ch in s ==> ch in x by {
      AppendAssoc(a, s, b);
      assert x == a + (s + b);
    }
    RemoveCharAbsent(s, Bom);
    StripIdempotent(x);
    assert ([Bom] + h)[0] == Bom && ([Bom] + h)[1..] == h;
    assert RemoveChar([Bom] + h, Bom) == [] + RemoveChar(h, Bom);
    assert [] + RemoveChar(h, Bom) == RemoveChar(h, Bom);
  }

  /** The expected column names survive cleaning unchanged, with or without a
      byte-order mark in front. */
  lemma ExpectedNameClean(k: nat)
    requires k < |ExpectedOrder|
    ensures CleanHeader(ExpectedOrder[k]) == ExpectedOrder[k]
    ensures CleanHeader([Bom] + ExpectedOrder[k]) == ExpectedOrder[k]
  {
    var c := ExpectedOrder[k];
    Ingest.ExpectedNameShape(k);
    RemoveCharAbsent(c, Bom);
    StripTrimmed(c);
    CleanHeaderShape(c);
  }

  /** `cleaned_headers`, position by position. */
  function CleanedHeaders(cols: seq<string>): (hs: seq<string>)
    ensures |hs| == |cols|
    ensures forall j :: 0 <= j < |cols| ==> hs[j] == CleanHeader(cols[j])
  {
    seq(|cols|, j requires 0 <= j < |cols| => CleanHeader(cols[j]))
  }

  /** `str(v)` after `fillna("")`. */
  function AsText(v: Cell): string {
    match v
    case None => ""
    case Some(x) => Display(x)
  }

  /** `col.fillna("").astype(str).str.strip()` on one cell: always a trimmed
      string; a missing value becomes `""`, a string is stripped, an integer is
      written out in decimal. */
  function TextCell(v: Cell): (r: Cell)
    ensures r.Some? && r.value.Str? && Trimmed(r.value.s)
    ensures v.None? ==> r == Some(Str(""))
    ensures v.Some? && v.value.Str? ==> r == Some(Str(Strip(v.value.s)))
    ensures v.Some? && v.value.Int? ==> r == Some(Str(ShowInt(v.value.i)))
  {
    if v.Some? && v.value.Int? then ShowIntStripped(v.value.i); Some(Str(Strip(AsText(v))))
    else Some(Str(Strip(AsText(v))))
  }

  /** Cleaning text twice is cleaning it once. */
  lemma TextCellIdempotent(v: Cell)
    ensures TextCell(TextCell(v)) == TextCell(v)
  {
    StripIdempotent(TextCell(v).value.s);
  }

  /** Relabel with `hs`, append each column of `names` that is missing as
      blanks, keep exactly `names` in that order, and clean every cell. */
  method Conform(t: Table<Cell>, hs: seq<string>, names: seq<string>) returns (r: Table<Cell>)
    requires WellFormed(t) && |hs| == |t.columns| && Distinct(hs) && Distinct(names)
    ensures WellFormed(r) && r.columns == names && |r.rows| == |t.rows|
    ensures forall i, j :: 0 <= i < |t.rows| && 0 <= j < |t.columns| && hs[j] in names ==>
              hs[j] in r.rows[i] && r.rows[i][hs[j]] == TextCell(t.rows[i][t.columns[j]])
    ensures forall i, c :: 0 <= i < |t.rows| && c in names && c !in hs ==>
              c in r.rows[i] && r.rows[i][c] == Some(Str(""))
  {
    var renamed := Rename(t, hs);
    var added := AddMissingColumns(renamed, names, Some(Str("")));
    var selected := Select(added, names);
    r := MapColumns(selected, names, TextCell);
    forall i, j | 0 <= i < |t.rows| && 0 <= j < |t.columns| && hs[j] in names
      ensures hs[j] in r.rows[i] && r.rows[i][hs[j]] == TextCell(t.rows[i][t.columns[j]])
    {
      var c := hs[j];
      assert r.rows[i][c] == TextCell(selected.rows[i][c]);
      assert selected.rows[i][c] == added.rows[i][c];
      assert added.rows[i][c] == renamed.rows[i][c];
    }
    forall i, c | 0 <= i < |t.rows| && c in names && c !in hs
      ensures c in r.rows[i] && r.rows[i][c] == Some(Str(""))
    {
      assert r.rows[i][c] == TextCell(selected.rows[i][c]);
      assert selected.rows[i][c] == added.rows[i][c];
      assert added.rows[i][c] == Some(Str(""));
      StripEmpty();
    }
  }

  /** `_normalize_players_df`: whatever the upload's columns, the result has
      exactly the expected columns in the expected order; an expected column
      the upload has (after header cleaning) carries its cleaned cells, one it
      lacks is blank, and every other column is gone. Two upload columns that
      clean to the same label are outside the model. */
  method NormalizePlayers(t: Table<Cell>) returns (r: Table<Cell>)
    requires WellFormed(t) && Distinct(CleanedHeaders(t.columns))
    ensures WellFormed(r) && r.columns == ExpectedOrder && |r.rows| == |t.rows|
    ensures forall i, j :: 0 <= i < |t.rows| && 0 <= j < |t.columns| && CleanHeader(t.columns[j]) in ExpectedOrder ==>
              CleanHeader(t.columns[j]) in r.rows[i] &&
              r.rows[i][CleanHeader(t.columns[j])] == TextCell(t.rows[i][t.columns[j]])
    ensures forall i, c :: 0 <= i < |t.rows| && c in ExpectedOrder && c !in CleanedHeaders(t.columns) ==>
              c in r.rows[i] && r.rows[i][c] == Some(Str(""))
  {
    var hs := CleanedHeaders(t.columns);
    ExpectedOrderDistinct();
    r := Conform(t, hs, ExpectedOrder);
  }

  /** Every cell of a normalised table is a trimmed string, never missing. */
  lemma NormalizedCellsAreText(t: Table<Cell>, r: Table<Cell>)
    requires WellFormed(t) && WellFormed(r) && r.columns == ExpectedOrder && |r.rows| == |t.rows|
    requires forall i, j :: 0 <= i < |t.rows| && 0 <= j < |t.columns| && CleanHeader(t.columns[j]) in ExpectedOrder ==>
               CleanHeader(t.columns[j]) in r.rows[i] &&
               r.rows[i][CleanHeader(t.columns[j])] == TextCell(t.rows[i][t.columns[j]])
    requires forall i, c :: 0 <= i < |t.rows| && c in ExpectedOrder && c !in CleanedHeaders(t.columns) ==>
               c in r.rows[i] && r.rows[i][c] == Some(Str(""))
    ensures forall i, c :: 0 <= i < |r.rows| && c in ExpectedOrder ==>
              c in r.rows[i] && r.rows[i][c].Some? && r.rows[i][c].value.Str? && Trimmed(r.rows[i][c].value.s)
  {
    forall i, c | 0 <= i < |r.rows| && c in ExpectedOrder
      ensures c in r.rows[i] && r.rows[i][c].Some? && r.rows[i][c].value.Str? && Trimmed(r.rows[i][c].value.s)
    {
      var hs := CleanedHeaders(t.columns);
      if c in hs {
        var j :| 0 <= j < |hs| && hs[j] == c;
        assert r.rows[i][c] == TextCell(t.rows[i][t.columns[j]]);
      } else {
        assert r.rows[i][c] == Some(Str(""));
      }
    }
  }

  /** `"" if pd.isna(val) else val`. */
  function CellOut(v: Cell): (r: Value)
    ensures v.None? ==> r == Str("")
    ensures v.Some? ==> r == v.value
  {
    if v.Some? then v.value else Str("")
  }

  /** The header cells, one per column. */
  function HeaderValues(t: Table<Cell>): (vs: seq<Value>)
    ensures |vs| == |t.columns|
    ensures forall j :: 0 <= j < |t.columns| ==> vs[j] == Str(t.columns[j])
  {
    seq(|t.columns|, j requires 0 <= j < |t.columns| => Str(t.columns[j]))
  }

  /** The cells of data row `i`, one per column, missing values as `""`. */
  function RowValues(t: Table<Cell>, i: nat): (vs: seq<Value>)
    requires WellFormed(t) && i < |t.rows|
    ensures |vs| == |t.columns|
    ensures forall j :: 0 <= j < |t.columns| ==> vs[j] == CellOut(t.rows[i][t.columns[j]])
  {
    seq(|t.columns|, j requires 0 <= j < |t.columns| => CellOut(Column(t, t.columns[j])[i]))
  }

  /** Sheet row `row` holds `vs` from column `sc` rightwards. */
  ghost predicate RowHas(cells: map<Address, Value>, row: int, sc: int, vs: seq<Value>) {
    forall c :: sc <= c < sc + |vs| ==> (c, row) in cells && cells[(c, row)] == vs[c - sc]
  }

  /** `now` and `was` agree outside columns `sc .. sc + w - 1` of rows `r0 .. r1`. */
  ghost predicate SameOutside(now: map<Address, Value>, was: map<Address, Value>, sc: int, w: int, r0: int, r1: int) {
    forall a: Address :: !(sc <= a.0 < sc + w && r0 <= a.1 <= r1) ==>
      (a in now <==> a in was) && (a in was ==> now[a] == was[a])
  }

  /** A row outside the rectangle that changed keeps its cells. */
  lemma RowKept(was: map<Address, Value>, now: map<Address, Value>, row: int, sc: int, vs: seq<Value>,
                w: int, r0: int, r1: int)
    requires RowHas(was, row, sc, vs) && SameOutside(now, was, sc, w, r0, r1) && !(r0 <= row <= r1)
    ensures RowHas(now, row, sc, vs)
  {
    forall c | sc <= c < sc + |vs|
      ensures (c, row) in now && now[(c, row)] == vs[c - sc]
    {
      assert (c, row) in was;
    }
  }

  /** Changing rows `r0 .. r1` and then row `r1 + 1` changes only rows `r0 .. r1 + 1`. */
  lemma SameOutsideGrow(a: map<Address, Value>, b: map<Address, Value>, c: map<Address, Value>,
                        sc: int, w: int, r0: int, r1: int)
    requires r0 <= r1 + 1
    requires SameOutside(b, a, sc, w, r0, r1) && SameOutside(c, b, sc, w, r1 + 1, r1 + 1)
    ensures SameOutside(c, a, sc, w, r0, r1 + 1)
  {
  }

  /** The cells of every data row, top to bottom. */
  function DataValues(t: Table<Cell>): (vss: seq<seq<Value>>)
    requires WellFormed(t)
    ensures |vss| == |t.rows|
    ensures forall i :: 0 <= i < |t.rows| ==> vss[i] == RowValues(t, i)
  {
    seq(|t.rows|, i requires 0 <= i < |t.rows| => RowValues(t, i))
  }

  /** The first `n` of the rows `vss` sit in sheet rows `sr + 1 ..` from column `sc`. */
  ghost predicate DataRowsHas(cells: map<Address, Value>, vss: seq<seq<Value>>, sr: int, sc: int, n: nat) {
    n <= |vss| && forall k :: 0 <= k < n ==> RowHas(cells, sr + 1 + k, sc, vss[k])
  }

  /** Writing row `i` of `vss`, `w` cells wide, keeps rows `0 .. i - 1` written before. */
  lemma NextRowWritten(was: map<Address, Value>, now: map<Address, Value>, vss: seq<seq<Value>>,
                       w: int, sr: int, sc: int, i: nat)
    requires i < |vss| && DataRowsHas(was, vss, sr, sc, i)
    requires SameOutside(now, was, sc, w, sr + 1 + i, sr + 1 + i)
    requires RowHas(now, sr + 1 + i, sc, vss[i])
    ensures DataRowsHas(now, vss, sr, sc, i + 1)
  {
    forall k | 0 <= k < i + 1
      ensures RowHas(now, sr + 1 + k, sc, vss[k])
    {
      if k < i {
        RowKept(was, now, sr + 1 + k, sc, vss[k], w, sr + 1 + i, sr + 1 + i);
      }
    }
  }

  /** One pass of the inner loop of `_write_dataframe_to_sheet`: `vs` into
      sheet row `row` from column `sc` rightwards; no other cell changes. */
  method WriteCells(ws: Worksheet, row: int, sc: int, vs: seq<Value>)
    requires ws.Valid() && row >= 1 && sc >= 1
    modifies ws
    ensures ws.Valid() && ws.widths == old(ws.widths)
    ensures RowHas(ws.cells, row, sc, vs)
    ensures SameOutside(ws.cells, old(ws.cells), sc, |vs|, row, row)
  {
    for j := 0 to |vs|
      invariant ws.Valid() && ws.widths == old(ws.widths)
      invariant RowHas(ws.cells, row, sc, vs[..j])
      invariant SameOutside(ws.cells, old(ws.cells), sc, j, row, row)
    {
      ws.SetCell(sc + j, row, vs[j]);
    }
    assert vs[..|vs|] == vs;
  }

  /** `_write_dataframe_to_sheet(ws, df, start_row, start_col)`: the header in
      sheet row `sr`, data row `i` in sheet row `sr + 1 + i`, column `j` in
      sheet column `sc + j` (missing values as `""`); no other cell changes. */
  method WriteDataFrame(ws: Worksheet, t: Table<Cell>, sr: int, sc: int)
    requires ws.Valid() && WellFormed(t) && sr >= 1 && sc >= 1
    modifies ws
    ensures ws.Valid() && ws.widths == old(ws.widths)
    ensures RowHas(ws.cells, sr, sc, HeaderValues(t))
    ensures forall i :: 0 <= i < |t.rows| ==> RowHas(ws.cells, sr + 1 + i, sc, RowValues(t, i))
    ensures SameOutside(ws.cells, old(ws.cells), sc, |t.columns|, sr, sr + |t.rows|)
    ensures forall i, j :: 0 <= i < |t.rows| && 0 <= j < |t.columns| && t.rows[i][t.columns[j]].None? ==>
              (sc + j, sr + 1 + i) in ws.cells && ws.cells[(sc + j, sr + 1 + i)] == Str("")
  {
    var w := |t.columns|;
    WriteCells(ws, sr, sc, HeaderValues(t));
    for i := 0 to |t.rows|
      invariant ws.Valid() && ws.widths == old(ws.widths)
      invariant RowHas(ws.cells, sr, sc, HeaderValues(t))
      invariant DataRowsHas(ws.cells, DataValues(t), sr, sc, i)
      invariant SameOutside(ws.cells, old(ws.cells), sc, w, sr, sr + i)
    {
      ghost var before := ws.cells;
      WriteCells(ws, sr + 1 + i, sc, RowValues(t, i));
      RowKept(before, ws.cells, sr, sc, HeaderValues(t), w, sr + 1 + i, sr + 1 + i);
      NextRowWritten(before, ws.cells, DataValues(t), w, sr, sc, i);
      SameOutsideGrow(old(ws.cells), before, ws.cells, sc, w, sr, sr + i);
    }
    forall i, j | 0 <= i < |t.rows| && 0 <= j < |t.columns| && t.rows[i][t.columns[j]].None?
      ensures (sc + j, sr + 1 + i) in ws.cells && ws.cells[(sc + j, sr + 1 + i)] == Str("")
    {
      assert DataValues(t)[i] == RowValues(t, i);
      assert RowValues(t, i)[j] == Str("");
    }
  }

  /** `_clear_sheet`: delete `max_row` rows from row 1, which empties the sheet. */
  method ClearSheet(ws: Worksheet)
    requires ws.Valid()
    modifies ws
    ensures ws.Valid() && ws.cells == map[] && ws.widths == old(ws.widths)
  {
    var maxRow := ws.maxRow;
    ws.DeleteRows(1, maxRow);
    assert ws.cells == map[] by {
      forall a | a in old(ws.cells) ensures a.1 < 1 + maxRow {
      }
    }
  }

  /** The autofit width for a column whose longest sample (header included)
      has `len` characters: two characters of padding, at least 10, at most 30. */
  function ColumnWidth(len: int): (w: int)
    ensures 10 <= w <= 30
    ensures 8 <= len <= 28 ==> w == len + 2
    ensures len < 8 ==> w == 10
    ensures len > 28 ==> w == 30
  {
    var padded := if len + 2 > 10 then len + 2 else 10;
    if padded < 30 then padded else 30
  }

  /** A longer sample never gives a narrower column. */
  lemma ColumnWidthMonotone(a: int, b: int)
    requires a <= b
    ensures ColumnWidth(a) <= ColumnWidth(b)
  {
  }

  /** `str(v)` under `astype(str)`: a missing value reads `nan`. */
  function Shown(v: Cell): string {
    match v
    case None => "nan"
    case Some(x) => Display(x)
  }

  /** The lengths of the first 50 cells of column `c`, as text. */
  function SampleLengths(t: Table<Cell>, c: string): (ls: seq<nat>)
    requires WellFormed(t) && c in t.columns
    ensures |ls| == if |t.rows| < 50 then |t.rows| else 50
    ensures forall k :: 0 <= k < |ls| ==> ls[k] == |Shown(t.rows[k][c])|
  {
    var n := if |t.rows| < 50 then |t.rows| else 50;
    seq(n, k requires 0 <= k < n => |Shown(Column(t, c)[k])|)
  }

  /** `max(lengths + [floor])`: the largest of the lengths and `floor`. */
  function MaxOr(ls: seq<nat>, floor: nat): (m: nat)
    ensures m >= floor && forall k :: 0 <= k < |ls| ==> ls[k] <= m
    ensures m == floor || exists k :: 0 <= k < |ls| && ls[k] == m
  {
    if ls == [] then floor
    else
      var m := MaxOr(ls[..|ls| - 1], floor);
      if ls[|ls| - 1] > m then ls[|ls| - 1] else m
  }

  /** The width the autofit loop gives column `c`. */
  function AutofitWidth(t: Table<Cell>, c: string): (w: int)
    requires WellFormed(t) && c in t.columns
    ensures 10 <= w <= 30
  {
    ColumnWidth(MaxOr(SampleLengths(t, c), |c|))
  }

  /** The header alone decides the width when no sample is longer, and the
      width never falls below what the header or any sampled cell needs, up
      to the cap of 30. */
  lemma AutofitCoversSamples(t: Table<Cell>, c: string)
    requires WellFormed(t) && c in t.columns
    ensures forall k :: 0 <= k < |t.rows| && k < 50 ==>
              AutofitWidth(t, c) >= ColumnWidth(|Shown(t.rows[k][c])|)
    ensures AutofitWidth(t, c) >= ColumnWidth(|c|)
  {
    var ls := SampleLengths(t, c);
    var m := MaxOr(ls, |c|);
    forall k | 0 <= k < |t.rows| && k < 50
      ensures AutofitWidth(t, c) >= ColumnWidth(|Shown(t.rows[k][c])|)
    {
      assert ls[k] <= m;
      ColumnWidthMonotone(ls[k], m);
    }
    ColumnWidthMonotone(|c|, m);
  }

  /** The autofit width of every column of `t`, in column order. */
  function AutofitWidths(t: Table<Cell>): (ws: seq<int>)
    requires WellFormed(t)
    ensures |ws| == |t.columns|
    ensures forall k :: 0 <= k < |ws| ==> ws[k] == AutofitWidth(t, t.columns[k]) && 10 <= ws[k] <= 30
  {
    seq(|t.columns|, k requires 0 <= k < |t.columns| => AutofitWidth(t, t.columns[k]))
  }

  /** Sheet columns `1 .. n` carry the first `n` of the widths `want`. */
  ghost predicate WidthsSet(widths: map<int, int>, want: seq<int>, n: int) {
    n <= |want| && forall c :: 1 <= c <= n ==> c in widths && widths[c] == want[c - 1]
  }

  /** `now` and `was` agree on every column outside `1 .. n`. */
  ghost predicate SameWidthsOutside(now: map<int, int>, was: map<int, int>, n: int) {
    forall c :: !(1 <= c <= n) ==> (c in now <==> c in was) && (c in was ==> now[c] == was[c])
  }

  /** Setting sheet column `n + 1` to the (n+1)-th wanted width extends the
      widths already set. */
  lemma WidthsSetStep(was: map<int, int>, want: seq<int>, n: nat)
    requires n < |want| && WidthsSet(was, want, n)
    ensures WidthsSet(was[n + 1 := want[n]], want, n + 1)
  {
  }

  /** Setting sheet column `n + 1` keeps every column outside `1 .. n + 1`. */
  lemma SameWidthsStep(was: map<int, int>, orig: map<int, int>, n: nat, w: int)
    requires SameWidthsOutside(was, orig, n)
    ensures SameWidthsOutside(was[n + 1 := w], orig, n + 1)
  {
  }

  /** The autofit loop: sheet column `c` gets the width of the table's c-th
      column; the cells and the other widths are untouched. */
  method Autofit(ws: Worksheet, t: Table<Cell>)
    requires WellFormed(t)
    modifies ws
    ensures ws.cells == old(ws.cells) && ws.maxRow == old(ws.maxRow)
    ensures WidthsSet(ws.widths, AutofitWidths(t), |t.columns|)
    ensures SameWidthsOutside(ws.widths, old(ws.widths), |t.columns|)
  {
    for j := 0 to |t.columns|
      invariant ws.cells == old(ws.cells) && ws.maxRow == old(ws.maxRow)
      invariant WidthsSet(ws.widths, AutofitWidths(t), j)
      invariant SameWidthsOutside(ws.widths, old(ws.widths), j)
    {
      var col := t.columns[j];
      var sampleLen := MaxOr(SampleLengths(t, col), |col|);
      var width := ColumnWidth(sampleLen);
      assert width == AutofitWidths(t)[j];
      WidthsSetStep(ws.widths, AutofitWidths(t), j);
      SameWidthsStep(ws.widths, old(ws.widths), j, width);
      ws.SetWidth(j + 1, width);
    }
  }

  /** The `Players` part of `write_into_template`: normalise the upload, empty
      the sheet, write the table with its header from A1, and size columns A–H.
      The sheet then holds exactly the header row and one row per player. */
  method WritePlayers(ws: Worksheet, t: Table<Cell>) returns (norm: Table<Cell>)
    requires ws.Valid() && WellFormed(t) && Distinct(CleanedHeaders(t.columns))
    modifies ws
    ensures WellFormed(norm) && norm.columns == ExpectedOrder && |norm.rows| == |t.rows|
    ensures forall i, j :: 0 <= i < |t.rows| && 0 <= j < |t.columns| && CleanHeader(t.columns[j]) in ExpectedOrder ==>
              CleanHeader(t.columns[j]) in norm.rows[i] &&
              norm.rows[i][CleanHeader(t.columns[j])] == TextCell(t.rows[i][t.columns[j]])
    ensures forall i, c :: 0 <= i < |t.rows| && c in ExpectedOrder && c !in CleanedHeaders(t.columns) ==>
              c in norm.rows[i] && norm.rows[i][c] == Some(Str(""))
    ensures ws.Valid()
    ensures RowHas(ws.cells, 1, 1, HeaderValues(norm))
    ensures forall i :: 0 <= i < |t.rows| ==> RowHas(ws.cells, 2 + i, 1, RowValues(norm, i))
    ensures forall a :: a in ws.cells ==> 1 <= a.0 <= |ExpectedOrder| && 1 <= a.1 <= |t.rows| + 1
    ensures forall c :: 1 <= c <= |ExpectedOrder| ==> c in ws.widths && 10 <= ws.widths[c] <= 30
    ensures WidthsSet(ws.widths, AutofitWidths(norm), |ExpectedOrder|)
    ensures SameWidthsOutside(ws.widths, old(ws.widths), |ExpectedOrder|)
  {
    norm := NormalizePlayers(t);
    ClearSheet(ws);
    WriteDataFrame(ws, norm, 1, 1);
    Autofit(ws, norm);
    forall i | 0 <= i < |t.rows|
      ensures RowHas(ws.cells, 2 + i, 1, RowValues(norm, i))
    {
      assert RowHas(ws.cells, 1 + 1 + i, 1, RowValues(norm, i));
    }
  }
}
