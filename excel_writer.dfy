/** `scheduler/excel_writer.py`: write normalised player rows into the
    `Players` sheet of the workbook template, one row per player from sheet
    row 2, one fixed column per field. */
module ExcelWriter {
  import opened Values
  import opened Text
  import opened Worksheets

  /** `PLAYERS_SHEET`. */
  const PlayersSheet: string := "Players"

  /** The keys of a normalised row, in `COLMAP` order. */
  datatype PlayerField = FirstName | LastName | Active | Number | P1 | P2 | P3 | Seed

  /** `COLMAP`: the column letter each field is written to. */
  function ColumnLetter(f: PlayerField): char {
    match f
    case FirstName => 'A'
    case LastName => 'B'
    case Active => 'C'
    case Number => 'D'
    case P1 => 'E'
    case P2 => 'F'
    case P3 => 'G'
    case Seed => 'H'
  }

  /** The column number of a field's letter. */
  function ColumnOf(f: PlayerField): (c: int)
    ensures 1 <= c <= 8
  {
    ColumnNumber(ColumnLetter(f))
  }

  /** The fields in `COLMAP` order. */
  const Fields: seq<PlayerField> := [FirstName, LastName, Active, Number, P1, P2, P3, Seed]

  /** `COLMAP` sends the k-th field to the k-th column (A is 1), so different
      fields land in different columns. */
  lemma ColumnMapInOrder()
    ensures forall k :: 0 <= k < |Fields| ==> ColumnOf(Fields[k]) == k + 1
    ensures forall f, g :: ColumnOf(f) == ColumnOf(g) ==> f == g
    ensures forall f :: f in Fields
  {
    forall f ensures Fields[ColumnOf(f) - 1] == f && f in Fields {
      match f
      case FirstName =>
      case LastName =>
      case Active =>
      case Number =>
      case P1 =>
      case P2 =>
      case P3 =>
      case Seed =>
    }
  }

  /** One entry of `rows`: each key's value, or `None` when the dictionary
      lacks the key. The text fields are strings; `number` and `seed` may be
      any cell value (the seed is an integer after `scheduler/schema.py`). */
  datatype PlayerRow = PlayerRow(
    firstName: Option<string>, lastName: Option<string>, active: Option<string>,
    number: Option<Value>, p1: Option<string>, p2: Option<string>, p3: Option<string>,
    seed: Option<Value>)

  /** `r.get(key, "")` for a field holding any value. */
  function ValueOr(x: Option<Value>): Value {
    if x.Some? then x.value else Str("")
  }

  /** The cell the loop writes for field `f` of row `r`. */
  function CellValue(r: PlayerRow, f: PlayerField): Value {
    match f
    case FirstName => Str(Strip(OrEmpty(r.firstName)))
    case LastName => Str(Strip(OrEmpty(r.lastName)))
    case Active =>
      var a := Upper(Strip(OrEmpty(r.active)));
      Str(if a == "" then "YES" else a)
    case Number => ValueOr(r.number)
    case P1 => Str(Upper(OrEmpty(r.p1)))
    case P2 => Str(Upper(OrEmpty(r.p2)))
    case P3 => Str(Upper(OrEmpty(r.p3)))
    case Seed =>
      var s := ValueOr(r.seed);
      if Strip(Display(s)) == "" then Int(3) else s
  }

  /** The active cell is never blank: it is the stripped, upper-cased value,
      and `YES` when that is empty or the key is missing. */
  lemma ActiveCell(r: PlayerRow)
    ensures CellValue(r, Active).Str?
    ensures Upper(Strip(OrEmpty(r.active))) == "" ==> CellValue(r, Active) == Str("YES")
    ensures Upper(Strip(OrEmpty(r.active))) != "" ==> CellValue(r, Active) == Str(Upper(Strip(OrEmpty(r.active))))
    ensures CellValue(r, Active).s != "" && Trimmed(CellValue(r, Active).s)
    ensures Upper(CellValue(r, Active).s) == CellValue(r, Active).s
  {
    var x := OrEmpty(r.active);
    StripUpper(x);
    UpperIdempotent(Strip(x));
    YesShape();
  }

  lemma YesShape()
    ensures Trimmed("YES") && Upper("YES") == "YES"
  {
    var u := Upper("YES");
    assert u[0] == 'Y' && u[1] == 'E' && u[2] == 'S';
  }

  /** The seed cell: 3 when the value reads as blank (including a missing key),
      otherwise the value unchanged; an integer seed is always kept. */
  lemma SeedCell(r: PlayerRow)
    ensures Strip(Display(ValueOr(r.seed))) == "" ==> CellValue(r, Seed) == Int(3)
    ensures Strip(Display(ValueOr(r.seed))) != "" ==> CellValue(r, Seed) == ValueOr(r.seed)
    ensures r.seed.None? ==> CellValue(r, Seed) == Int(3)
    ensures r.seed.Some? && r.seed.value.Int? ==> CellValue(r, Seed) == r.seed.value
  {
    StripEmpty();
    if r.seed.Some? && r.seed.value.Int? {
      ShowIntStripped(r.seed.value.i);
    }
  }

  /** Position cells are upper-cased but keep their whitespace and length;
      the number is copied as is; names are stripped. */
  lemma TextCells(r: PlayerRow)
    ensures CellValue(r, P1) == Str(Upper(OrEmpty(r.p1))) && |CellValue(r, P1).s| == |OrEmpty(r.p1)|
    ensures CellValue(r, P2) == Str(Upper(OrEmpty(r.p2))) && |CellValue(r, P2).s| == |OrEmpty(r.p2)|
    ensures CellValue(r, P3) == Str(Upper(OrEmpty(r.p3))) && |CellValue(r, P3).s| == |OrEmpty(r.p3)|
    ensures CellValue(r, Number) == ValueOr(r.number)
    ensures Trimmed(CellValue(r, FirstName).s) && Trimmed(CellValue(r, LastName).s)
  {
  }

  /** The eight cells of one player, in column order A to H. */
  function RowCells(r: PlayerRow): (vals: seq<Value>)
    ensures |vals| == |Fields|
    ensures forall k :: 0 <= k < |Fields| ==> vals[k] == CellValue(r, Fields[k])
  {
    seq(|Fields|, k requires 0 <= k < |Fields| => CellValue(r, Fields[k]))
  }

  /** Sheet row `row` with columns 1 to 8 set to `vals`. */
  function RowWritten(cells: map<Address, Value>, row: int, vals: seq<Value>): map<Address, Value>
    requires |vals| == 8
  {
    cells[(1, row) := vals[0]][(2, row) := vals[1]][(3, row) := vals[2]][(4, row) := vals[3]]
         [(5, row) := vals[4]][(6, row) := vals[5]][(7, row) := vals[6]][(8, row) := vals[7]]
  }

  /** Writing one row sets exactly its eight cells. */
  lemma RowWrittenCells(cells: map<Address, Value>, row: int, vals: seq<Value>, a: Address)
    requires |vals| == 8
    ensures a in RowWritten(cells, row, vals) <==> a in cells || (a.1 == row && 1 <= a.0 <= 8)
    ensures a.1 == row && 1 <= a.0 <= 8 ==> RowWritten(cells, row, vals)[a] == vals[a.0 - 1]
    ensures !(a.1 == row && 1 <= a.0 <= 8) && a in cells ==> RowWritten(cells, row, vals)[a] == cells[a]
  {
  }

  /** Writing one row leaves the cells of every other row alone. */
  lemma RowWrittenKeeps(cells: map<Address, Value>, row: int, vals: seq<Value>, a: Address)
    requires |vals| == 8 && a.1 != row && a in cells
    ensures a in RowWritten(cells, row, vals) && RowWritten(cells, row, vals)[a] == cells[a]
  {
  }

  /** The cells after the loop has written `rows`, the k-th in sheet row k + 2. */
  function Written(cells: map<Address, Value>, rows: seq<PlayerRow>): map<Address, Value> {
    if rows == [] then cells
    else RowWritten(Written(cells, rows[..|rows| - 1]), |rows| + 1, RowCells(rows[|rows| - 1]))
  }

  /** Field `f` of a player is the `COLMAP[f]`-th value of its row. */
  lemma RowCellAt(r: PlayerRow, f: PlayerField)
    ensures RowCells(r)[ColumnOf(f) - 1] == CellValue(r, f)
  {
    ColumnMapInOrder();
  }

  /** The last player of `rows` is written over the cells of the others. */
  lemma WrittenLast(cells: map<Address, Value>, rows: seq<PlayerRow>)
    requires rows != []
    ensures Written(cells, rows) ==
            RowWritten(Written(cells, rows[..|rows| - 1]), |rows| + 1, RowCells(rows[|rows| - 1]))
  {
  }

  /** The last player's c-th value lands in column c of sheet row |rows| + 1. */
  lemma PlacedLast(cells: map<Address, Value>, rows: seq<PlayerRow>, c: int)
    requires rows != [] && 1 <= c <= 8
    ensures (c, |rows| + 1) in Written(cells, rows)
    ensures Written(cells, rows)[(c, |rows| + 1)] == RowCells(rows[|rows| - 1])[c - 1]
  {
    var n := |rows| - 1;
    WrittenLast(cells, rows);
    RowWrittenCells(Written(cells, rows[..n]), n + 2, RowCells(rows[n]), (c, n + 2));
  }

  /** A cell of an earlier player's row is not touched by the last player. */
  lemma PlacedBefore(cells: map<Address, Value>, rows: seq<PlayerRow>, k: nat, c: int)
    requires k < |rows| - 1
    requires (c, k + 2) in Written(cells, rows[..|rows| - 1])
    ensures (c, k + 2) in Written(cells, rows)
    ensures Written(cells, rows)[(c, k + 2)] == Written(cells, rows[..|rows| - 1])[(c, k + 2)]
  {
    var n := |rows| - 1;
    var m := Written(cells, rows[..n]);
    WrittenLast(cells, rows);
    RowWrittenKeeps(m, n + 2, RowCells(rows[n]), (c, k + 2));
  }

  /** The k-th player's c-th value lands in column c of sheet row k + 2. */
  lemma {:induction false} PlacedAtColumn(cells: map<Address, Value>, rows: seq<PlayerRow>, k: nat, c: int)
    requires k < |rows| && 1 <= c <= 8
    ensures (c, k + 2) in Written(cells, rows)
    ensures Written(cells, rows)[(c, k + 2)] == RowCells(rows[k])[c - 1]
    decreases |rows|
  {
    var n := |rows| - 1;
    if k < n {
      PlacedAtColumn(cells, rows[..n], k, c);
      assert rows[..n][k] == rows[k];
      PlacedBefore(cells, rows, k, c);
    } else {
      PlacedLast(cells, rows, c);
    }
  }

  /** Field `f` of the k-th row lands in column `COLMAP[f]` of sheet row k + 2. */
  lemma PlacedAt(cells: map<Address, Value>, rows: seq<PlayerRow>, k: nat, f: PlayerField)
    requires k < |rows|
    ensures (ColumnOf(f), k + 2) in Written(cells, rows)
    ensures Written(cells, rows)[(ColumnOf(f), k + 2)] == CellValue(rows[k], f)
  {
    PlacedAtColumn(cells, rows, k, ColumnOf(f));
    RowCellAt(rows[k], f);
  }

  /** Every cell outside columns A–H of rows 2 .. |rows| + 1 keeps its value,
      so row 1 (the headers) is never written. */
  lemma {:induction false} WrittenElsewhere(cells: map<Address, Value>, rows: seq<PlayerRow>, a: Address)
    requires !(2 <= a.1 <= |rows| + 1 && 1 <= a.0 <= 8)
    ensures a in Written(cells, rows) <==> a in cells
    ensures a in cells ==> Written(cells, rows)[a] == cells[a]
    decreases |rows|
  {
    if rows != [] {
      var n := |rows| - 1;
      WrittenElsewhere(cells, rows[..n], a);
      RowWrittenCells(Written(cells, rows[..n]), n + 2, RowCells(rows[n]), a);
    }
  }

  /** `_clear_players_table`: delete `max_row` rows from row 2, which leaves
      only the header row. */
  method ClearPlayersTable(ws: Worksheet)
    requires ws.Valid()
    modifies ws
    ensures ws.Valid()
    ensures ws.cells == RowsAbove(old(ws.cells), 2)
    ensures ws.widths == old(ws.widths)
  {
    var maxRow := ws.maxRow;
    ws.DeleteRows(2, maxRow);
    assert ws.cells == RowsAbove(old(ws.cells), 2) by {
      forall a | a in old(ws.cells) ensures a.1 < 2 + maxRow {
      }
    }
  }

  /** Write the eight cells of one player into sheet row `row`. */
  method WriteRow(ws: Worksheet, row: int, r: PlayerRow)
    requires ws.Valid() && row >= 1
    modifies ws
    ensures ws.Valid()
    ensures ws.cells == RowWritten(old(ws.cells), row, RowCells(r))
    ensures ws.widths == old(ws.widths)
  {
    var first := Strip(OrEmpty(r.firstName));
    var last := Strip(OrEmpty(r.lastName));
    var active := Upper(Strip(OrEmpty(r.active)));
    if active == "" {
      active := "YES";
    }
    var number := ValueOr(r.number);
    var p1 := Upper(OrEmpty(r.p1));
    var p2 := Upper(OrEmpty(r.p2));
    var p3 := Upper(OrEmpty(r.p3));
    var seed := ValueOr(r.seed);
    if Strip(Display(seed)) == "" {
      seed := Int(3);
    }
    ghost var vals := RowCells(r);
    assert vals[0] == Str(first) && vals[1] == Str(last) && vals[2] == Str(active) && vals[3] == number;
    assert vals[4] == Str(p1) && vals[5] == Str(p2) && vals[6] == Str(p3) && vals[7] == seed;
    ghost var before := ws.cells;
    assert ColumnOf(FirstName) == 1 && ColumnOf(LastName) == 2 && ColumnOf(Active) == 3 && ColumnOf(Number) == 4;
    assert ColumnOf(P1) == 5 && ColumnOf(P2) == 6 && ColumnOf(P3) == 7 && ColumnOf(Seed) == 8;
    ws.SetCell(ColumnOf(FirstName), row, Str(first));
    ws.SetCell(ColumnOf(LastName), row, Str(last));
    ws.SetCell(ColumnOf(Active), row, Str(active));
    ws.SetCell(ColumnOf(Number), row, number);
    ws.SetCell(ColumnOf(P1), row, Str(p1));
    ws.SetCell(ColumnOf(P2), row, Str(p2));
    ws.SetCell(ColumnOf(P3), row, Str(p3));
    ws.SetCell(ColumnOf(Seed), row, seed);
    assert ws.cells == before[(1, row) := Str(first)][(2, row) := Str(last)][(3, row) := Str(active)]
                             [(4, row) := number][(5, row) := Str(p1)][(6, row) := Str(p2)]
                             [(7, row) := Str(p3)][(8, row) := seed];
  }

  /** `inject_players_csv` between loading and saving the workbook: fail when
      the template has no `Players` sheet; otherwise clear the rows under the
      headers and write the k-th player into sheet row k + 2. */
  method InjectPlayers(wb: Workbook, rows: seq<PlayerRow>) returns (ok: bool)
    requires PlayersSheet in wb.sheets ==> wb.sheets[PlayersSheet].Valid()
    modifies if PlayersSheet in wb.sheets then {wb.sheets[PlayersSheet]} else {}
    ensures ok <==> PlayersSheet in wb.sheets
    ensures ok ==> wb.sheets[PlayersSheet].Valid()
    ensures ok ==> wb.sheets[PlayersSheet].cells == Written(RowsAbove(old(wb.sheets[PlayersSheet].cells), 2), rows)
    ensures ok ==> wb.sheets[PlayersSheet].widths == old(wb.sheets[PlayersSheet].widths)
  {
    if PlayersSheet !in wb.sheets {
      return false;
    }
    var ws := wb.sheets[PlayersSheet];
    ClearPlayersTable(ws);
    ghost var cleared := ws.cells;
    var outRow := 2;
    for k := 0 to |rows|
      invariant outRow == k + 2
      invariant ws.Valid()
      invariant ws.cells == Written(cleared, rows[..k])
      invariant ws.widths == old(ws.widths)
    {
      assert rows[..k + 1][..k] == rows[..k];
      WriteRow(ws, outRow, rows[k]);
      outRow := outRow + 1;
    }
    assert rows[..|rows|] == rows;
    return true;
  }
}
