/** The slice of an openpyxl workbook the writers touch: worksheets as maps from
    cell address to value, row deletion, and column widths. */
module Worksheets {
  import opened Values

  /** A cell address `(column, row)`, both counted from 1; column A is 1. */
  type Address = (int, int)

  /** Column letter to column number: `A` is 1, `H` is 8. */
  function ColumnNumber(letter: char): int {
    letter as int - 'A' as int + 1
  }

  /** `ws.delete_rows(idx, amount)`: rows `idx .. idx + amount - 1` disappear
      and every row below them moves up by `amount`. */
  function RowsDeleted(cells: map<Address, Value>, idx: int, amount: nat): (r: map<Address, Value>)
    ensures forall a :: a in cells && a.1 < idx ==> a in r && r[a] == cells[a]
  {
    (map a | a in cells && a.1 < idx :: cells[a]) +
    (map a | a in cells && a.1 >= idx + amount :: (a.0, a.1 - amount) := cells[a])
  }

  /** The cells of the first `n` rows. */
  function RowsAbove(cells: map<Address, Value>, n: int): map<Address, Value> {
    map a | a in cells && a.1 < n :: cells[a]
  }

  class Worksheet {
    /** Cell values by address (openpyxl's `ws._cells`). */
    var cells: map<Address, Value>
    /** A bound on the last used row (openpyxl's `ws.max_row`, at least 1). */
    var maxRow: int
    /** `ws.column_dimensions[letter].width`, by column number. */
    var widths: map<int, int>

    ghost predicate Valid()
      reads this
    {
      maxRow >= 1 && forall a :: a in cells ==> a.0 >= 1 && 1 <= a.1 <= maxRow
    }

    /** A sheet with nothing in it. */
    constructor ()
      ensures Valid() && cells == map[] && widths == map[]
    {
      cells, maxRow, widths := map[], 1, map[];
    }

    /** `ws.cell(row=row, column=col, value=v)` / `ws["<letter><row>"] = v`. */
    method SetCell(col: int, row: int, v: Value)
      requires Valid() && col >= 1 && row >= 1
      modifies this
      ensures Valid()
      ensures cells == old(cells)[(col, row) := v]
      ensures widths == old(widths)
    {
      cells := cells[(col, row) := v];
      if row > maxRow {
        maxRow := row;
      }
    }

    /** `ws.delete_rows(idx, amount)`. */
    method DeleteRows(idx: int, amount: nat)
      requires Valid() && idx >= 1
      modifies this
      ensures Valid()
      ensures cells == RowsDeleted(old(cells), idx, amount)
      ensures widths == old(widths)
    {
      var bound := if maxRow >= idx + amount then maxRow - amount
                   else if maxRow < idx - 1 then maxRow else idx - 1;
      cells := RowsDeleted(cells, idx, amount);
      maxRow := if bound >= 1 then bound else 1;
    }

    /** `ws.column_dimensions[get_column_letter(col)].width = w`. */
    method SetWidth(col: int, w: int)
      modifies this
      ensures widths == old(widths)[col := w]
      ensures cells == old(cells) && maxRow == old(maxRow)
    {
      widths := widths[col := w];
    }
  }

  /** An open workbook: its worksheets by name. */
  class Workbook {
    var sheets: map<string, Worksheet>

    constructor (sheets: map<string, Worksheet>)
      ensures this.sheets == sheets
    {
      this.sheets := sheets;
    }
  }
}
