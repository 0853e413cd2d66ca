/** What the two `csv_ingest.py` files share: the header alias table and the
    column logic `read_players_csv_to_df` applies once the headers are
    normalised. */
module Ingest {
  import opened Values
  import opened Text
  import opened Frame

  /** A position in `ExpectedOrder`. */
  type ColumnIndex = k: nat | k < 8

  /** `HEADER_ALIASES`, in table order: each cleaned header variant with the
      position in `ExpectedOrder` of the column it stands for. */
  const AliasTable: seq<(string, ColumnIndex)> := [
    ("firstname", 0), ("first name", 0), ("givenname", 0), ("forename", 0),
    ("lastname", 1), ("surname", 1), ("familyname", 1), ("last name", 1),
    ("active", 2), ("status", 2),
    ("number", 3), ("player number", 3), ("bib", 3), ("bib number", 3),
    ("no", 3), ("#", 3), ("jersey", 3), ("jersey number", 3),
    ("preferredpos1", 4), ("preferred pos1", 4), ("preferred pos 1", 4), ("p1", 4),
    ("preferredpos2", 5), ("preferred pos2", 5), ("preferred pos 2", 5), ("p2", 5),
    ("preferredpos3", 6), ("preferred pos3", 6), ("preferred pos 3", 6), ("p3", 6),
    ("seed", 7)]

  /** No alias key is empty or starts with a byte-order mark. */
  lemma AliasKeysShape()
    ensures forall i :: 0 <= i < |AliasTable| ==> AliasTable[i].0 != [] && AliasTable[i].0[0] != Bom
  {
  }

  /** The value stored under `key` in a table of pairs, if any. */
  function Find(table: seq<(string, nat)>, key: string): (r: Option<nat>)
    ensures r.Some? ==> (key, r.value) in table
    ensures r.None? <==> forall i :: 0 <= i < |table| ==> table[i].0 != key
  {
    if table == [] then None
    else if table[0].0 == key then Some(table[0].1)
    else Find(table[1..], key)
  }

  /** The lookup returns the value of the first entry under `key`. */
  lemma {:induction false} FindFirst(table: seq<(string, nat)>, i: nat, key: string)
    requires i < |table| && table[i].0 == key
    requires forall j :: 0 <= j < i ==> table[j].0 != key
    ensures Find(table, key) == Some(table[i].1)
  {
    if i > 0 {
      FindFirst(table[1..], i - 1, key);
    }
  }

  /** `HEADER_ALIASES.get(key)`: the canonical column a cleaned header stands
      for (the same table in `scheduler/csv_ingest.py` and
      `Scheduler/csv_ingest.py`). */
  function Alias(key: string): (r: Option<string>)
    ensures r.Some? ==> r.value in ExpectedOrder
    ensures r.None? <==> forall i :: 0 <= i < |AliasTable| ==> AliasTable[i].0 != key
  {
    match Find(AliasTable, key)
    case None => None
    case Some(k) =>
      assert (key, k) in AliasTable;
      Some(ExpectedOrder[k])
  }

  /** The first entry under `key` decides its alias. */
  lemma AliasAt(i: nat, key: string, k: nat)
    requires i < |AliasTable| && AliasTable[i] == (key, k)
    requires forall j :: 0 <= j < i ==> AliasTable[j].0 != key
    ensures k < |ExpectedOrder| && Alias(key) == Some(ExpectedOrder[k])
  {
    FindFirst(AliasTable, i, key);
  }

  /** Every expected column, lower-cased, is an alias of itself, so a header
      already in canonical form keeps its name. */
  lemma ExpectedNameIsAlias(k: nat)
    requires k < |ExpectedOrder|
    ensures Alias(Lower(ExpectedOrder[k])) == Some(ExpectedOrder[k])
  {
    if k == 0 {
      FirstNameIsAlias();
    } else if k == 1 {
      LastNameIsAlias();
    } else if k == 2 {
      ActiveIsAlias();
    } else if k == 3 {
      NumberIsAlias();
    } else if k == 4 {
      Pos1IsAlias();
    } else if k == 5 {
      Pos2IsAlias();
    } else if k == 6 {
      Pos3IsAlias();
    } else {
      SeedIsAlias();
    }
  }

  lemma FirstNameIsAlias()
    ensures Alias(Lower(ExpectedOrder[0])) == Some(ExpectedOrder[0])
  {
    var key := Lower(ExpectedOrder[0]);
    assert key == "first name";
    AliasAt(1, key, 0);
  }

  lemma LastNameIsAlias()
    ensures Alias(Lower(ExpectedOrder[1])) == Some(ExpectedOrder[1])
  {
    var key := Lower(ExpectedOrder[1]);
    assert key == "last name";
    AliasAt(7, key, 1);
  }

  lemma ActiveIsAlias()
    ensures Alias(Lower(ExpectedOrder[2])) == Some(ExpectedOrder[2])
  {
    var key := Lower(ExpectedOrder[2]);
    assert key == "active";
    AliasAt(8, key, 2);
  }

  lemma NumberIsAlias()
    ensures Alias(Lower(ExpectedOrder[3])) == Some(ExpectedOrder[3])
  {
    var key := Lower(ExpectedOrder[3]);
    assert key == "number";
    AliasAt(10, key, 3);
  }

  lemma Pos1IsAlias()
    ensures Alias(Lower(ExpectedOrder[4])) == Some(ExpectedOrder[4])
  {
    var key := Lower(ExpectedOrder[4]);
    assert key == "preferredpos1";
    AliasAt(18, key, 4);
  }

  lemma Pos2IsAlias()
    ensures Alias(Lower(ExpectedOrder[5])) == Some(ExpectedOrder[5])
  {
    var key := Lower(ExpectedOrder[5]);
    assert key == "preferredpos2";
    AliasAt(22, key, 5);
  }

  lemma Pos3IsAlias()
    ensures Alias(Lower(ExpectedOrder[6])) == Some(ExpectedOrder[6])
  {
    var key := Lower(ExpectedOrder[6]);
    assert key == "preferredpos3";
    AliasAt(26, key, 6);
  }

  lemma SeedIsAlias()
    ensures Alias(Lower(ExpectedOrder[7])) == Some(ExpectedOrder[7])
  {
    var key := Lower(ExpectedOrder[7]);
    assert key == "seed";
    AliasAt(30, key, 7);
  }

  /** The expected names hold no byte-order mark and no surrounding whitespace. */
  lemma ExpectedNameShape(k: nat)
    requires k < |ExpectedOrder|
    ensures Trimmed(ExpectedOrder[k]) && Bom !in ExpectedOrder[k]
  {
    var c := ExpectedOrder[k];
    assert forall i :: 0 <= i < |c| ==> c[i] < '\U{80}';
  }

  /** No alias key starts with a byte-order mark. */
  lemma AliasNeedsNoBom(key: string)
    requires key != [] && key[0] == Bom
    ensures Alias(key) == None
  {
    AliasKeysShape();
  }

  /** The column logic of `read_players_csv_to_df` once the headers are
      normalised, for the expected columns `names` (`EXPECTED_ORDER`): each
      missing one is appended as blanks, only the expected columns are kept
      (in their current order), and every cell is stripped. */
  method Conform(t: Table<string>, names: seq<string>) returns (r: Table<string>)
    requires WellFormed(t) && Distinct(names)
    ensures WellFormed(r) && |r.rows| == |t.rows|
    ensures r.columns == Filter(t.columns, names) + Missing(t.columns, names)
    ensures forall c :: c in r.columns <==> c in names
    ensures forall i, c :: 0 <= i < |t.rows| && c in names && c in t.columns ==>
              c in r.rows[i] && r.rows[i][c] == Strip(t.rows[i][c])
    ensures forall i, c :: 0 <= i < |t.rows| && c in names && c !in t.columns ==>
              c in r.rows[i] && r.rows[i][c] == ""
  {
    var missing := Missing(t.columns, names);
    var added := AddMissingColumns(t, names, "");
    var keep := Filter(added.columns, names);
    assert keep == Filter(t.columns, names) + missing by {
      FilterAppend(t.columns, missing, names);
      FilterAll(missing, names);
    }
    FilterDistinct(added.columns, names);
    var kept := Select(added, keep);
    r := MapColumns(kept, kept.columns, Strip);
    forall i, c | 0 <= i < |t.rows| && c in names && c in t.columns
      ensures c in r.rows[i] && r.rows[i][c] == Strip(t.rows[i][c])
    {
      assert c in keep;
      assert r.rows[i][c] == Strip(kept.rows[i][c]);
      assert kept.rows[i][c] == added.rows[i][c];
      assert added.rows[i][c] == t.rows[i][c];
    }
    forall i, c | 0 <= i < |t.rows| && c in names && c !in t.columns
      ensures c in r.rows[i] && r.rows[i][c] == ""
    {
      assert c in keep;
      assert r.rows[i][c] == Strip(kept.rows[i][c]);
      assert kept.rows[i][c] == added.rows[i][c];
      assert added.rows[i][c] == "";
      StripEmpty();
    }
  }

  /** What relabelling then conforming does to each cell, position by position. */
  lemma RelabelledCells(t: Table<string>, hs: seq<string>, names: seq<string>,
                        renamed: Table<string>, r: Table<string>)
    requires WellFormed(t) && WellFormed(renamed)
    requires renamed.columns == hs && |hs| == |t.columns|
    requires |renamed.rows| == |t.rows| && |r.rows| == |t.rows|
    requires forall i, j :: 0 <= i < |t.rows| && 0 <= j < |hs| ==>
               renamed.rows[i][hs[j]] == t.rows[i][t.columns[j]]
    requires forall i, c :: 0 <= i < |t.rows| && c in names && c in renamed.columns ==>
               c in r.rows[i] && r.rows[i][c] == Strip(renamed.rows[i][c])
    requires forall i, c :: 0 <= i < |t.rows| && c in names && c !in renamed.columns ==>
               c in r.rows[i] && r.rows[i][c] == ""
    ensures forall i, j :: 0 <= i < |t.rows| && 0 <= j < |t.columns| && hs[j] in names ==>
              hs[j] in r.rows[i] && r.rows[i][hs[j]] == Strip(t.rows[i][t.columns[j]])
    ensures forall i, c :: 0 <= i < |t.rows| && c in names && c !in hs ==>
              c in r.rows[i] && r.rows[i][c] == ""
  {
    forall i, j | 0 <= i < |t.rows| && 0 <= j < |t.columns| && hs[j] in names
      ensures hs[j] in r.rows[i] && r.rows[i][hs[j]] == Strip(t.rows[i][t.columns[j]])
    {
      var c := hs[j];
      assert r.rows[i][c] == Strip(renamed.rows[i][c]);
    }
  }

  /** `df.columns = hs` followed by `Conform`. */
  method RelabelAndConform(t: Table<string>, hs: seq<string>, names: seq<string>) returns (r: Table<string>)
    requires WellFormed(t) && |hs| == |t.columns| && Distinct(hs) && Distinct(names)
    ensures WellFormed(r) && |r.rows| == |t.rows|
    ensures r.columns == Filter(hs, names) + Missing(hs, names)
    ensures forall c :: c in r.columns <==> c in names
    ensures forall i, j :: 0 <= i < |t.rows| && 0 <= j < |t.columns| && hs[j] in names ==>
              hs[j] in r.rows[i] && r.rows[i][hs[j]] == Strip(t.rows[i][t.columns[j]])
    ensures forall i, c :: 0 <= i < |t.rows| && c in names && c !in hs ==>
              c in r.rows[i] && r.rows[i][c] == ""
  {
    var renamed := Rename(t, hs);
    r := Conform(renamed, names);
    RelabelledCells(t, hs, names, renamed, r);
  }
}
