# Easy Netball Trials: the player pipeline around the workbook

Easy Netball Trials turns an uploaded player list into a macro-enabled Excel
workbook that schedules netball trial games. The Python side does no
scheduling itself: the round and court assignment runs in the workbook's
macros. What the Python side does, and what this project models and proves
things about, is the following.

- **Capacity guard.** Before a build, the app counts the active players and
  checks that the courts and rounds offer enough slots. There are two
  variants. `Scheduler/capacity.py` strips the `Active` cell and refuses an
  empty roster (module `CapacityGuard`). `scheduler/capacity.py` does not
  strip and has no empty-roster branch (module `CapacityCheck`). Lemmas
  relate the two.
- **Row validation** (`scheduler/schema.py`, module `Schema`). Uploaded rows
  become normalised player records. Nameless rows are dropped, position codes
  are checked against the seven netball positions, and the seed is parsed as
  an integer.
- **Header alias normalisation.** There are two `csv_ingest.py` files,
  modules `CsvIngest` and `CsvIngestPlain`; what they share is in `Ingest`.
  Upload headers are mapped through the alias table, and the missing
  expected columns are appended as blanks. Only the eight expected columns
  are kept, and every cell is stripped. The two files differ in how they
  treat a byte-order mark in a header.
- **Row defaulting and cell placement** (`scheduler/excel_writer.py`, module
  `ExcelWriter`). The rows under the `Players` header are cleared. The k-th
  player is then written to sheet row k + 2, one fixed column A–H per field.
  A blank `active` becomes `YES` and a blank seed becomes 3.
- **Column-schema enforcement and autofit**
  (`scheduler/template_writer.py`, module `TemplateWriter`). Any upload
  becomes exactly the eight expected columns in the macros' order. It is
  written with its header from cell A1, and each column's width is clamped
  to between 10 and 30.

Shared pieces:
- `Values` holds `Option` and the cell value type.
- `Text` holds ASCII `strip`/`upper`/`lower`, byte-order-mark removal and
  `int()`/`str()` on integers.
- `Frame` is a DataFrame as column labels plus one map per row, with the
  column operations the ingest and template code performs.
- `Worksheets` holds the `Worksheet` and `Workbook` classes. A sheet is a
  map from `(column, row)` to value, with row deletion and column widths.

The imperative parts of the source are methods proved against specification
functions. These are the header loops, the missing-column loop, the
row-filter loop, the cell-writing loops and the autofit loop. The pure parts
are functions with lemmas.

## Model

| member | source | states |
|---|---|---|
| CapacityGuard.IsActiveIgnoresCaseAndPadding | Scheduler/capacity.py:12-13 | an `Active` value counts exactly when the same value in any letter case, padded with whitespace, counts |
| CapacityGuard.CountActive | Scheduler/capacity.py:5-13 | the active count never exceeds the number of rows, and every row counts when there is no `Active` column |
| CapacityGuard.CountActiveExtremes | Scheduler/capacity.py:10-13 | every row counts iff every `Active` cell reads `YES` or blank after strip and upper; none counts iff no cell does |
| CapacityGuard.Assess | Scheduler/capacity.py:22-56 | capacity is courts × 14 × rounds and required is active × 3; zero active is not ok with its own verdict; otherwise ok iff capacity ≥ required; a shortfall is positive and equals required − capacity |
| CapacityGuard.CapacityReport | Scheduler/capacity.py:16-56 | the reported active count is at most the row count (all rows without an `Active` column); an ok report has active players and enough slots; an empty table is refused |
| CapacityGuard.TwentyPlayersOneCourtThreeRounds | Scheduler/capacity.py:35-48 | 20 players on 1 court over 3 rounds: 42 slots against 60 needed, short by 18 |
| CapacityGuard.MoreSlotsStayOk | Scheduler/capacity.py:23-56 | adding courts or rounds never turns an ok report into a warning |
| CapacityCheck.CountPlayers | scheduler/capacity.py:20-26 | the player count never exceeds the row count, and every row counts when there is no `Active` column |
| CapacityCheck.CapacityReport | scheduler/capacity.py:26-52 | capacity is courts × rounds × 14 and required is players × 3, both reported; ok iff capacity ≥ required |
| CapacityCheck.NoPlayersIsOk | scheduler/capacity.py:30-52 | with no active players and non-negative courts and rounds the report is ok, where the stripping guard refuses |
| CapacityCheck.SameVerdictForActiveRoster | scheduler/capacity.py:27-30 | for the same positive count the guard's verdict is exactly courts × rounds × 14 ≥ active × 3 |
| CapacityCheck.ReportsAgree | scheduler/capacity.py:20-52 | on a table where both checks count the same positive number of players, the two reports agree on players, capacity, games required and ok |
| CapacityCheck.ReportsAgreeWithoutActiveColumn | scheduler/capacity.py:20-24 | without an `Active` column both checks count every row, so on a non-empty table they give the same ok |
| CapacityCheck.ActiveHereIsActiveThere | scheduler/capacity.py:22 | a cell this filter accepts (upper-cased, unstripped, `YES` or empty) is accepted by the stripping guard |
| CapacityCheck.CountsNoMoreThanGuard | scheduler/capacity.py:21-26 | this check never counts more players than the guard counts active |
| CapacityCheck.PaddedYesDiffers | scheduler/capacity.py:22 | `" yes"` is active for the guard and inactive here |
| Schema.NormPos | scheduler/schema.py:5-9 | a normalised position is one of the seven codes or `""`, and a missing value gives `""` |
| Schema.NormPosIdempotent | scheduler/schema.py:7-9 | normalising a position twice equals normalising it once |
| Schema.NormPosIgnoresCaseAndPadding | scheduler/schema.py:8 | letter case and surrounding whitespace do not change the normalised position |
| Schema.ParseSeed | scheduler/schema.py:32-36 | the seed is an integer exactly when the stripped text parses as one, and is that integer; otherwise it is `""` |
| Schema.ParseSeedShowInt | scheduler/schema.py:32-36 | a seed written as a decimal integer, with any padding, reads back as that integer |
| Schema.NormalizeRowIsRecord | scheduler/schema.py:22-45 | the record of a kept row has stripped names (not both empty) and number, stripped upper-case active, valid-or-blank positions, and an integer-or-blank seed |
| Schema.Normalized | scheduler/schema.py:20-46 | the output is never longer than the input |
| Schema.NormalizedAppend | scheduler/schema.py:21-45 | each row is judged on its own and survivors keep their input order |
| Schema.NormalizedDropsNothing | scheduler/schema.py:21-25 | nothing is dropped iff every row has a first or last name |
| Schema.NormalizedOne | scheduler/schema.py:21-45 | a single row yields its record when a name is present and nothing otherwise |
| Schema.NormalizedAreRecords | scheduler/schema.py:20-46 | every output record has the normalised shape |
| Schema.ValidateAndNormalize | scheduler/schema.py:20-46 | the row loop with `continue` returns exactly the normalised survivors in order |
| Frame.Rename | scheduler/csv_ingest.py:53-54 | relabelling keeps the rows and moves each cell to its column's new label |
| Frame.AddMissingColumns | scheduler/csv_ingest.py:77-80 | the absent expected columns are appended in expected order holding the blank; existing cells are untouched |
| Frame.Select | scheduler/csv_ingest.py:84 | the named columns in the given order, each cell as before |
| Frame.MapColumns | scheduler/csv_ingest.py:86-88 | every cell of the named columns is replaced by its image; the other cells are untouched |
| Ingest.Alias | scheduler/csv_ingest.py:10-42 | every alias names an expected column; a key has no alias iff no table entry has that key |
| Ingest.ExpectedNameIsAlias | Scheduler/csv_ingest.py:6-51 | each expected column name, lower-cased, is an alias of itself |
| Ingest.AliasNeedsNoBom | Scheduler/csv_ingest.py:6-51 | no key starting with a byte-order mark has an alias |
| Ingest.Conform | scheduler/csv_ingest.py:77-90 | columns are the expected ones among the upload's, in upload order, then the missing ones in expected order; exactly the expected columns remain; cells are stripped and appended columns are `""` |
| Ingest.RelabelAndConform | scheduler/csv_ingest.py:75-90 | the same after relabelling, stated per upload column position |
| CsvIngest.CleanHeaderShape | scheduler/csv_ingest.py:44-46 | a cleaned header has no byte-order mark, no surrounding whitespace and no upper-case letter, and cleaning again changes nothing |
| CsvIngest.CleanHeaderIgnoresBom | scheduler/csv_ingest.py:44-46 | a leading byte-order mark does not change the cleaned header |
| CsvIngest.CleanHeaderOfStrip | scheduler/csv_ingest.py:44-46 | surrounding whitespace does not change the cleaned header |
| CsvIngest.NormalizeHeaderRange | scheduler/csv_ingest.py:50-52 | a normalised header is an expected column or the stripped original |
| CsvIngest.NormalizeHeaderIdempotent | scheduler/csv_ingest.py:50-52 | normalising a normalised header changes nothing |
| CsvIngest.NormalizeHeaderBehindBom | scheduler/csv_ingest.py:44-52 | a header with an alias keeps it behind a byte-order mark |
| CsvIngest.ExpectedNameBehindBom | scheduler/csv_ingest.py:44-52 | an expected column name behind a byte-order mark is recognised |
| CsvIngest.NormalizedHeaders | scheduler/csv_ingest.py:48-55 | one label per column, so the column count is kept |
| CsvIngest.NormalizeHeaders | scheduler/csv_ingest.py:48-55 | the appending loop produces exactly the normalised labels |
| CsvIngest.ReadPlayers | scheduler/csv_ingest.py:75-90 | every expected column is present and no other; upload-order expected columns then missing ones; each cell is the stripped upload cell, appended ones `""` |
| CsvIngestPlain.NormalizeHeaderRange | Scheduler/csv_ingest.py:56-58 | a normalised header is an expected column or the stripped original |
| CsvIngestPlain.NormalizeHeaderIdempotent | Scheduler/csv_ingest.py:56-58 | normalising a normalised header changes nothing |
| CsvIngestPlain.AgreesWithoutBom | Scheduler/csv_ingest.py:57-58 | on a header without a byte-order mark both ingest paths give the same label |
| CsvIngestPlain.BomBlocksAlias | Scheduler/csv_ingest.py:57-58 | an expected name behind a byte-order mark is kept verbatim, mark included |
| CsvIngestPlain.BomBlocksEveryAlias | Scheduler/csv_ingest.py:57-58 | no header that starts with a byte-order mark is ever aliased: it is only stripped |
| CsvIngestPlain.NormalizedHeaders | Scheduler/csv_ingest.py:54-61 | one label per column, so the column count is kept |
| CsvIngestPlain.NormalizeHeaders | Scheduler/csv_ingest.py:54-61 | the appending loop produces exactly the normalised labels |
| CsvIngestPlain.ReadPlayers | Scheduler/csv_ingest.py:79-93 | every expected column is present and no other; upload-order expected columns then missing ones; cells stripped, appended ones `""` |
| ExcelWriter.ColumnOf | scheduler/excel_writer.py:12-21 | every field goes to a column between A (1) and H (8) |
| ExcelWriter.ColumnMapInOrder | scheduler/excel_writer.py:12-21 | the k-th field goes to column k + 1, so no two fields share a column |
| ExcelWriter.ActiveCell | scheduler/excel_writer.py:78-80 | the active cell is the stripped upper-cased value, `YES` when that is blank, never blank, trimmed and upper-case |
| ExcelWriter.SeedCell | scheduler/excel_writer.py:85-87 | a seed reading blank (or missing) becomes 3; any other seed, an integer included, is kept |
| ExcelWriter.TextCells | scheduler/excel_writer.py:76-84 | positions are upper-cased but keep their length, the number is copied, names are stripped |
| ExcelWriter.RowCells | scheduler/excel_writer.py:89-96 | the eight values of a player, k-th value for the k-th field |
| ExcelWriter.RowWrittenCells | scheduler/excel_writer.py:89-96 | writing a row sets exactly its columns 1–8 to the row's values and keeps every other cell |
| ExcelWriter.PlacedAt | scheduler/excel_writer.py:73-97 | field f of the k-th player lands in column `COLMAP[f]` of sheet row k + 2 |
| ExcelWriter.WrittenElsewhere | scheduler/excel_writer.py:73-97 | no cell outside columns A–H of rows 2 .. n + 1 changes, so the header row is never written |
| ExcelWriter.ClearPlayersTable | scheduler/excel_writer.py:25-28 | only the header row survives the clear |
| ExcelWriter.WriteRow | scheduler/excel_writer.py:75-96 | one loop pass writes the player's eight cells into its row and nothing else |
| ExcelWriter.InjectPlayers | scheduler/excel_writer.py:59-97 | fails iff there is no `Players` sheet; otherwise the sheet is its header row with the players written from row 2, and its column widths are unchanged |
| TemplateWriter.CleanHeaderShape | scheduler/template_writer.py:24-26 | a cleaned header has no byte-order mark and no surrounding whitespace, cleaning is idempotent, and a leading mark makes no difference |
| TemplateWriter.ExpectedNameClean | scheduler/template_writer.py:24-26 | the expected names survive cleaning, with or without a leading byte-order mark |
| TemplateWriter.TextCell | scheduler/template_writer.py:36-44 | a cleaned cell is always a trimmed string: missing becomes `""`, a string is stripped, an integer is written in decimal |
| TemplateWriter.TextCellIdempotent | scheduler/template_writer.py:36-44 | cleaning a cell twice equals cleaning it once |
| TemplateWriter.Conform | scheduler/template_writer.py:28-44 | after relabelling, the columns are exactly the expected ones in order; present ones carry their cleaned cells, absent ones `""` |
| TemplateWriter.NormalizePlayers | scheduler/template_writer.py:17-46 | any upload becomes exactly the expected columns in order; a column the upload has (after header cleaning) carries its cleaned cells, one it lacks is `""` |
| TemplateWriter.NormalizedCellsAreText | scheduler/template_writer.py:36-44 | every cell of the normalised table is a trimmed string |
| TemplateWriter.WriteCells | scheduler/template_writer.py:59-61 | the inner loop puts the values in one row from the start column rightwards and changes no other cell |
| TemplateWriter.WriteDataFrame | scheduler/template_writer.py:49-61 | the header goes in the start row and data row i in start row + 1 + i, column j at start column + j; a missing value is written as `""`; nothing outside that rectangle changes and no width changes |
| TemplateWriter.ClearSheet | scheduler/template_writer.py:64-66 | the sheet is empty afterwards |
| TemplateWriter.ColumnWidth | scheduler/template_writer.py:116 | the width is always 10–30: length + 2 in between, 10 below and 30 above |
| TemplateWriter.ColumnWidthMonotone | scheduler/template_writer.py:116 | a longer sample never gives a narrower column |
| TemplateWriter.SampleLengths | scheduler/template_writer.py:115 | the text lengths of at most the first 50 cells of the column |
| TemplateWriter.MaxOr | scheduler/template_writer.py:115 | the maximum bounds every sample and the header length, and is one of them |
| TemplateWriter.AutofitWidth | scheduler/template_writer.py:113-116 | a column's autofit width is between 10 and 30 |
| TemplateWriter.AutofitCoversSamples | scheduler/template_writer.py:113-116 | the width is at least what the header or any of the first 50 cells would need alone |
| TemplateWriter.Autofit | scheduler/template_writer.py:112-116 | sheet column j gets the autofit width of the j-th column; cells and other widths are untouched |
| TemplateWriter.WritePlayers | scheduler/template_writer.py:94-116 | the `Players` sheet holds exactly the expected header in row 1 and one cleaned row per player below it; each of columns A–H gets the autofit width of its column, between 10 and 30; every other column keeps its width |

## Left out

- HTTP routing, uploads and downloads in `app.py` and `scheduler/webbridge.py`: web and workbook plumbing, with no logic of the core.
- Workbook loading and saving, macro preservation, `_unlock_bib_cells`, `_strip_all_comments`, template copying and `makedirs`: foreign library calls and file-system work.
- The `Control` flags written by `write_into_template` (rounds, courts, numbering, preferences, the `PENDING` trigger): constant writes to another sheet, whose meaning lives in the macros.
- Creating a missing `Players` or `Control` sheet, and clearing the `Schedule`, `CourtBoards` and `GameTally` sheets in `write_into_template`: workbook plumbing. `TemplateWriter.WritePlayers` starts from an existing sheet, and clearing any sheet is `TemplateWriter.ClearSheet`.
- The round and court assignment, swap repair and bib numbering: they run in the template's macros, and no Python source exists for them.
- CSV parsing and decoding (`pd.read_csv` delimiter detection, UTF-8-sig decoding, `csv.DictReader`): the model starts from the header list and the rows as maps. This includes pandas removing a byte-order mark at the very start of a file, so the two ingest paths differ only for a mark that survives into a header.
- String operations are ASCII-only: `strip` uses Python's ASCII whitespace, and `upper`/`lower` change only ASCII letters. Unicode case mapping and Unicode whitespace are not modelled.
- Schema.ParseSeed: follows `int()` only for an optional sign followed by ASCII digits. Underscores and non-ASCII digits, which `int()` also accepts, are not modelled.
- Capacity messages are reduced to a verdict (`NoActivePlayers`, `Shortfall`, `Enough`) in `CapacityGuard` and dropped in `CapacityCheck`: the wording is display text.
- Integer arguments are unbounded integers. `int(num_courts)` conversions of non-integers are not modelled.
- CsvIngest.ReadPlayers: requires the normalised headers to be distinct. Two upload columns that normalise to the same label give pandas duplicate columns, which the model does not cover.
- CsvIngestPlain.ReadPlayers: requires distinct normalised headers, for the same reason.
- TemplateWriter.NormalizePlayers: requires distinct cleaned headers, for the same reason.
- Cell values are strings or integers only. Floats that pandas may produce, and openpyxl cell types such as dates, are not modelled.
- `Worksheet.maxRow` is kept as an upper bound on the used rows, not as openpyxl's exact `max_row`. Deleting `max_row` rows from a row at or above the last used one clears the same cells either way.
- ExcelWriter.InjectPlayers: the `RuntimeError` for a missing `Players` sheet is a `false` result, and nothing is changed in that case.
