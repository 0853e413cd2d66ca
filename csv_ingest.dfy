/** `scheduler/csv_ingest.py`: bring an uploaded player table to the columns
    the workbook expects. Headers are cleaned (byte-order marks removed,
    whitespace stripped, lower-cased) before the alias lookup. */
module CsvIngest {
  import opened Values
  import opened Text
  import opened Frame
  import opened Ingest

  /** `_clean_header`: every byte-order mark removed, then stripped and lower-cased. */
  function CleanHeader(h: string): string {
    Lower(Strip(RemoveChar(h, Bom)))
  }

  /** A cleaned header holds no byte-order mark, no surrounding whitespace and
      no upper-case letter, and cleaning it again changes nothing. */
  lemma CleanHeaderShape(h: string)
    ensures Bom !in CleanHeader(h) && Trimmed(CleanHeader(h))
    ensures forall i :: 0 <= i < |CleanHeader(h)| ==> !IsUpperLetter(CleanHeader(h)[i])
    ensures CleanHeader(CleanHeader(h)) == CleanHeader(h)
  {
    var x := RemoveChar(h, Bom);
    var s := Strip(x);
    var k := Lower(s);
    StripChars(x);
    StripLower(x);
    LowerShape(s, Bom);
    assert Bom !in k;
    StripIdempotent(Lower(x));
    RemoveCharAbsent(k, Bom);
  }

  /** Byte-order marks anywhere in a header do not affect its cleaned form. */
  lemma CleanHeaderIgnoresBom(h: string)
    ensures CleanHeader([Bom] + h) == CleanHeader(h)
  {
    assert ([Bom] + h)[0] == Bom && ([Bom] + h)[1..] == h;
    assert RemoveChar([Bom] + h, Bom) == [] + RemoveChar(h, Bom);
    assert [] + RemoveChar(h, Bom) == RemoveChar(h, Bom);
  }

  /** Whitespace around a header does not affect its cleaned form. */
  lemma CleanHeaderOfStrip(h: string)
    ensures CleanHeader(Strip(h)) == CleanHeader(h)
  {
    var a, b := StripSplit(h);
    var s := Strip(h);
    assert Bom !in a && Bom !in b;
    RemoveCharAppend(a + s, b, Bom);
    RemoveCharAppend(a, s, Bom);
    RemoveCharAbsent(a, Bom);
    RemoveCharAbsent(b, Bom);
    StripPadding(a, RemoveChar(s, Bom), b);
  }

  /** One entry of `_normalize_headers`: the canonical name when the cleaned
      header is an alias, otherwise the header with whitespace stripped (a
      byte-order mark inside it is kept). */
  function NormalizeHeader(h: string): string {
    match Alias(CleanHeader(h))
    case Some(c) => c
    case None => Strip(h)
  }

  /** A normalised header is an expected column or the stripped original. */
  lemma NormalizeHeaderRange(h: string)
    ensures NormalizeHeader(h) in ExpectedOrder || NormalizeHeader(h) == Strip(h)
  {
  }

  /** Normalising a normalised header changes nothing. */
  lemma NormalizeHeaderIdempotent(h: string)
    ensures NormalizeHeader(NormalizeHeader(h)) == NormalizeHeader(h)
  {
    var r := NormalizeHeader(h);
    if Alias(CleanHeader(h)).Some? {
      var k := IndexOf(ExpectedOrder, r);
      ExpectedNameShape(k);
      ExpectedNameIsAlias(k);
      RemoveCharAbsent(r, Bom);
      StripTrimmed(r);
    } else {
      CleanHeaderOfStrip(h);
      StripIdempotent(h);
    }
  }

  /** A header that names a column through an alias still does so behind a
      byte-order mark. */
  lemma NormalizeHeaderBehindBom(h: string)
    requires Alias(CleanHeader(h)).Some?
    ensures NormalizeHeader([Bom] + h) == NormalizeHeader(h) == Alias(CleanHeader(h)).value
  {
    CleanHeaderIgnoresBom(h);
  }

  /** An expected column behind a byte-order mark is still recognised. */
  lemma ExpectedNameBehindBom(k: nat)
    requires k < |ExpectedOrder|
    ensures NormalizeHeader([Bom] + ExpectedOrder[k]) == ExpectedOrder[k]
  {
    var c := ExpectedOrder[k];
    ExpectedNameShape(k);
    ExpectedNameIsAlias(k);
    CleanHeaderIgnoresBom(c);
    RemoveCharAbsent(c, Bom);
    StripTrimmed(c);
  }

  /** The column labels `_normalize_headers` assigns, position by position. */
  function NormalizedHeaders(cols: seq<string>): (hs: seq<string>)
    ensures |hs| == |cols|
    ensures forall i :: 0 <= i < |cols| ==> hs[i] == NormalizeHeader(cols[i])
  {
    seq(|cols|, i requires 0 <= i < |cols| => NormalizeHeader(cols[i]))
  }

  /** `_normalize_headers`: one label per column, appended in column order. */
  method NormalizeHeaders(cols: seq<string>) returns (out: seq<string>)
    ensures out == NormalizedHeaders(cols)
  {
    out := [];
    assert MappedPrefix(out, cols, NormalizeHeader, 0);
    for i := 0 to |cols|
      invariant MappedPrefix(out, cols, NormalizeHeader, i)
    {
      var key := CleanHeader(cols[i]);
      var name := match Alias(key) case Some(c) => c case None => Strip(cols[i]);
      assert name == NormalizeHeader(cols[i]);
      MappedPrefixSnoc(out, cols, NormalizeHeader, i);
      out := out + [name];
    }
  }

  /** `read_players_csv_to_df` after the file is parsed into `t`: relabel
      the columns with the normalised headers, append the missing expected
      columns as blanks, keep only the expected columns in upload order, and
      strip every cell. Two upload columns that normalise to the same label
      are outside the model. */
  method ReadPlayers(t: Table<string>) returns (r: Table<string>)
    requires WellFormed(t) && Distinct(NormalizedHeaders(t.columns))
    ensures WellFormed(r) && |r.rows| == |t.rows|
    ensures r.columns == Filter(NormalizedHeaders(t.columns), ExpectedOrder)
                         + Missing(NormalizedHeaders(t.columns), ExpectedOrder)
    ensures forall c :: c in r.columns <==> c in ExpectedOrder
    ensures forall i, j :: 0 <= i < |t.rows| && 0 <= j < |t.columns| && NormalizeHeader(t.columns[j]) in ExpectedOrder ==>
              NormalizeHeader(t.columns[j]) in r.rows[i] &&
              r.rows[i][NormalizeHeader(t.columns[j])] == Strip(t.rows[i][t.columns[j]])
    ensures forall i, c :: 0 <= i < |t.rows| && c in ExpectedOrder && c !in NormalizedHeaders(t.columns) ==>
              c in r.rows[i] && r.rows[i][c] == ""
  {
    var hs := NormalizeHeaders(t.columns);
    ExpectedOrderDistinct();
    r := RelabelAndConform(t, hs, ExpectedOrder);
  }
}
