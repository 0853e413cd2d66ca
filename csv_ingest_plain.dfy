/** `Scheduler/csv_ingest.py`: the other ingest path. Its alias lookup key is
    the header stripped and lower-cased, with no byte-order-mark removal. */
module CsvIngestPlain {
  import opened Values
  import opened Text
  import opened Frame
  import opened Ingest
  import CsvIngest

  /** The lookup key `str(c).strip().lower()`. */
  function HeaderKey(h: string): string {
    Lower(Strip(h))
  }

  /** One entry of `_normalize_headers`: the canonical name when the key is an
      alias, otherwise the header with whitespace stripped. */
  function NormalizeHeader(h: string): string {
    match Alias(HeaderKey(h))
    case Some(c) => c
    case None => Strip(h)
  }

  /** A normalised header is an expected column or the stripped original. */
  lemma NormalizeHeaderRange(h: string)
    ensures NormalizeHeader(h) in ExpectedOrder || NormalizeHeader(h) == Strip(h)
  {
  }

  /** Normalising a normalised header changes nothing. */
  lemma NormalizeHeaderIdempotent(h: string)
    ensures NormalizeHeader(NormalizeHeader(h)) == NormalizeHeader(h)
  {
    var r := NormalizeHeader(h);
    if Alias(HeaderKey(h)).Some? {
      var k := IndexOf(ExpectedOrder, r);
      ExpectedNameShape(k);
      ExpectedNameIsAlias(k);
      StripTrimmed(r);
    } else {
      StripIdempotent(h);
    }
  }

  /** On a header without a byte-order mark both ingest paths agree. */
  lemma AgreesWithoutBom(h: string)
    requires Bom !in h
    ensures CsvIngest.NormalizeHeader(h) == NormalizeHeader(h)
  {
    RemoveCharAbsent(h, Bom);
  }

  /** An expected column behind a byte-order mark is kept verbatim, mark
      included, where `scheduler/csv_ingest.py` recognises it
      (`CsvIngest.ExpectedNameBehindBom`). */
  lemma BomBlocksAlias(k: nat)
    requires k < |ExpectedOrder|
    ensures NormalizeHeader([Bom] + ExpectedOrder[k]) == [Bom] + ExpectedOrder[k]
  {
    var c := ExpectedOrder[k];
    var h := [Bom] + c;
    ExpectedNameShape(k);
    assert Trimmed(h) by {
      assert h[0] == Bom && h[|h| - 1] == c[|c| - 1];
    }
    StripTrimmed(h);
    assert Lower(h)[0] == Bom;
    AliasNeedsNoBom(Lower(h));
  }

  /** No header that starts with a byte-order mark is ever aliased: its key
      keeps the mark, and no alias key starts with one. */
  lemma BomBlocksEveryAlias(h: string)
    ensures Alias(HeaderKey([Bom] + h)) == None
    ensures NormalizeHeader([Bom] + h) == Strip([Bom] + h)
  {
    var x := [Bom] + h;
    var a, b := StripSplit(x);
    assert a == [] && Strip(x) != [];
    assert Strip(x)[0] == x[0];
    assert Lower(Strip(x))[0] == Bom;
    AliasNeedsNoBom(HeaderKey(x));
  }

  /** The column labels `_normalize_headers` assigns, position by position. */
  function NormalizedHeaders(cols: seq<string>): (hs: seq<string>)
    ensures |hs| == |cols|
    ensures forall i :: 0 <= i < |cols| ==> hs[i] == NormalizeHeader(cols[i])
  {
    seq(|cols|, i requires 0 <= i < |cols| => NormalizeHeader(cols[i]))
  }

  /** `_normalize_headers`: one label per column, appended in column order. */
  method NormalizeHeaders(cols: seq<string>) returns (out: seq<string>)
    ensures out == NormalizedHeaders(cols)
  {
    out := [];
    assert MappedPrefix(out, cols, NormalizeHeader, 0);
    for i := 0 to |cols|
      invariant MappedPrefix(out, cols, NormalizeHeader, i)
    {
      var key := HeaderKey(cols[i]);
      var name := match Alias(key) case Some(c) => c case None => Strip(cols[i]);
      assert name == NormalizeHeader(cols[i]);
      MappedPrefixSnoc(out, cols, NormalizeHeader, i);
      out := out + [name];
    }
  }

  /** `read_players_csv_to_df` after the file is parsed into `t`: relabel the
      columns, append the missing expected columns as blanks, keep only the
      expected columns, and strip every cell. Two upload columns that
      normalise to the same label are outside the model. */
  method ReadPlayers(t: Table<string>) returns (r: Table<string>)
    requires WellFormed(t) && Distinct(NormalizedHeaders(t.columns))
    ensures WellFormed(r) && |r.rows| == |t.rows|
    ensures r.columns == Filter(NormalizedHeaders(t.columns), ExpectedOrder)
                         + Missing(NormalizedHeaders(t.columns), ExpectedOrder)
    ensures forall c :: c in r.columns <==> c in ExpectedOrder
    ensures forall i, j :: 0 <= i < |t.rows| && 0 <= j < |t.columns| && NormalizeHeader(t.columns[j]) in ExpectedOrder ==>
              NormalizeHeader(t.columns[j]) in r.rows[i] &&
              r.rows[i][NormalizeHeader(t.columns[j])] == Strip(t.rows[i][t.columns[j]])
    ensures forall i, c :: 0 <= i < |t.rows| && c in ExpectedOrder && c !in NormalizedHeaders(t.columns) ==>
              c in r.rows[i] && r.rows[i][c] == ""
  {
    var hs := NormalizeHeaders(t.columns);
    ExpectedOrderDistinct();
    r := RelabelAndConform(t, hs, ExpectedOrder);
  }
}
