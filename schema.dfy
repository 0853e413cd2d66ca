/** `scheduler/schema.py`: turn the rows of an uploaded player CSV into
    normalised player records. The bytes are already decoded and split by
    `csv.DictReader`: each input row maps a header to its field, and a field
    the line was too short to hold is `None`. */
module Schema {
  import opened Values
  import opened Text

  /** `VALID_POS`: the seven netball positions. */
  const ValidPositions: set<string> := {"GS", "GA", "WA", "C", "WD", "GD", "GK"}

  /** The dictionary `validate_and_normalize_csv` appends per surviving row,
      one field per key: `first_name`, `last_name`, `active`, `number`, `p1`,
      `p2`, `p3` and `seed` (an integer, or "" as `Str("")`). */
  datatype Record = Record(
    firstName: string, lastName: string, active: string, number: string,
    p1: string, p2: string, p3: string, seed: Value)

  /** `row.get(key, "")`. */
  function Lookup(row: map<string, Option<string>>, key: string): Option<string> {
    if key in row then row[key] else Some("")
  }

  /** `(row.get(key, "") or "")`. */
  function Field(row: map<string, Option<string>>, key: string): string {
    OrEmpty(Lookup(row, key))
  }

  /** `_norm_pos`: a position code, or "" for anything that is not one. */
  function NormPos(x: Option<string>): (r: string)
    ensures r in ValidPositions || r == ""
    ensures x.None? ==> r == ""
  {
    var s := Upper(Strip(OrEmpty(x)));
    if s in ValidPositions then s else ""
  }

  /** A non-empty run of upper-case ASCII letters. */
  predicate IsCode(s: string) {
    |s| > 0 && forall k :: 0 <= k < |s| ==> IsUpperLetter(s[k])
  }

  lemma PositionsAreCodes()
    ensures forall p :: p in ValidPositions ==> IsCode(p)
  {
  }

  /** A code is its own stripped, upper-cased form. */
  lemma CodeIsCanonical(s: string)
    requires IsCode(s)
    ensures Upper(Strip(s)) == s
  {
    assert Trimmed(s) by {
      assert IsUpperLetter(s[0]) && IsUpperLetter(s[|s| - 1]);
    }
    StripTrimmed(s);
    assert Upper(s) == s by {
      forall k | 0 <= k < |s| ensures Upper(s)[k] == s[k] {
        assert IsUpperLetter(s[k]);
      }
    }
  }

  /** `_norm_pos(_norm_pos(x)) == _norm_pos(x)`. */
  lemma NormPosIdempotent(x: Option<string>)
    ensures NormPos(Some(NormPos(x))) == NormPos(x)
  {
    var r := NormPos(x);
    if r != "" {
      PositionsAreCodes();
      CodeIsCanonical(r);
    } else {
      assert Strip("") == "";
      assert "" !in ValidPositions;
    }
  }

  /** `_norm_pos` ignores letter case and whitespace around the code. */
  lemma NormPosIgnoresCaseAndPadding(p: string, s: string, q: string)
    requires AllSpaces(p) && AllSpaces(q)
    ensures NormPos(Some(p + Lower(s) + q)) == NormPos(Some(s))
  {
    StripPadding(p, Lower(s), q);
    StripLower(s);
    UpperOfLower(Strip(s));
  }

  /** The seed: the integer `int()` reads from the stripped field, or "" when
      the field is blank or is not an integer. */
  function ParseSeed(raw: string): (v: Value)
    ensures v.Int? <==> ParseInt(Strip(raw)).Some?
    ensures v.Int? ==> ParseInt(Strip(raw)) == Some(v.i)
    ensures !v.Int? ==> v == Str("")
  {
    var s := Strip(raw);
    if s == "" then Str("")
    else match ParseInt(s)
      case Some(n) => Int(n)
      case None => Str("")
  }

  /** A seed written as `str(n)`, with any whitespace around it, reads back as `n`. */
  lemma ParseSeedShowInt(p: string, n: int, q: string)
    requires AllSpaces(p) && AllSpaces(q)
    ensures ParseSeed(p + ShowInt(n) + q) == Int(n)
  {
    StripPadding(p, ShowInt(n), q);
    ShowIntStripped(n);
    ParseShowInt(n);
  }

  /** A row survives unless both its stripped first and last names are empty. */
  predicate Kept(row: map<string, Option<string>>) {
    Strip(Field(row, "First Name")) != "" || Strip(Field(row, "Last Name")) != ""
  }

  /** The record `validate_and_normalize_csv` appends for a surviving row. */
  function NormalizeRow(row: map<string, Option<string>>): Record {
    Record(
      Strip(Field(row, "First Name")),
      Strip(Field(row, "Last Name")),
      Upper(Strip(Field(row, "Active"))),
      Strip(Field(row, "Number")),
      NormPos(Lookup(row, "PreferredPos1")),
      NormPos(Lookup(row, "PreferredPos2")),
      NormPos(Lookup(row, "PreferredPos3")),
      ParseSeed(Field(row, "Seed")))
  }

  /** What a normalised record looks like: names, number and active stripped;
      active upper-cased; position codes valid or ""; the seed an integer or
      ""; and not both names empty. */
  predicate IsRecord(o: Record) {
    && Trimmed(o.firstName) && Trimmed(o.lastName)
    && (o.firstName != "" || o.lastName != "")
    && Trimmed(o.number)
    && Trimmed(o.active) && Upper(o.active) == o.active
    && (o.p1 in ValidPositions || o.p1 == "")
    && (o.p2 in ValidPositions || o.p2 == "")
    && (o.p3 in ValidPositions || o.p3 == "")
    && (o.seed.Int? || o.seed == Str(""))
  }

  lemma NormalizeRowIsRecord(row: map<string, Option<string>>)
    requires Kept(row)
    ensures IsRecord(NormalizeRow(row))
  {
    var a := Strip(Field(row, "Active"));
    UpperIdempotent(a);
    StripUpper(a);
    StripIdempotent(a);
  }

  /** The records of the surviving rows, in input order. */
  function Normalized(rows: seq<map<string, Option<string>>>): (out: seq<Record>)
    ensures |out| <= |rows|
  {
    if rows == [] then []
    else
      var last := rows[|rows| - 1];
      Normalized(rows[..|rows| - 1]) + (if Kept(last) then [NormalizeRow(last)] else [])
  }

  /** Normalising a concatenation normalises each part: survivors keep their
      relative order and each row is judged on its own. */
  lemma {:induction false} NormalizedAppend(a: seq<map<string, Option<string>>>, b: seq<map<string, Option<string>>>)
    ensures Normalized(a + b) == Normalized(a) + Normalized(b)
    decreases |b|
  {
    if b == [] {
      assert a + b == a;
    } else {
      var b' := b[..|b| - 1];
      assert (a + b)[..|a + b| - 1] == a + b';
      assert (a + b)[|a + b| - 1] == b[|b| - 1];
      NormalizedAppend(a, b');
    }
  }

  /** Every row of `rows` has a name. */
  predicate AllKept(rows: seq<map<string, Option<string>>>) {
    forall i :: 0 <= i < |rows| ==> Kept(rows[i])
  }

  lemma AllKeptSnoc(rows: seq<map<string, Option<string>>>)
    requires rows != []
    ensures AllKept(rows) <==> AllKept(rows[..|rows| - 1]) && Kept(rows[|rows| - 1])
  {
    var init := rows[..|rows| - 1];
    if AllKept(init) && Kept(rows[|rows| - 1]) {
      forall i | 0 <= i < |rows| ensures Kept(rows[i]) {
        if i < |init| {
          assert rows[i] == init[i];
        }
      }
    }
    if AllKept(rows) {
      forall i | 0 <= i < |init| ensures Kept(init[i]) {
        assert rows[i] == init[i];
      }
    }
  }

  /** Nothing is dropped exactly when every row has a name. */
  lemma {:induction false} NormalizedDropsNothing(rows: seq<map<string, Option<string>>>)
    ensures |Normalized(rows)| == |rows| <==> AllKept(rows)
    decreases |rows|
  {
    if rows != [] {
      var init := rows[..|rows| - 1];
      NormalizedDropsNothing(init);
      AllKeptSnoc(rows);
      if Kept(rows[|rows| - 1]) {
        assert |Normalized(rows)| == |Normalized(init)| + 1;
      } else {
        assert |Normalized(rows)| == |Normalized(init)|;
      }
    }
  }

  /** A single row yields its record when a name is present and nothing otherwise. */
  lemma NormalizedOne(row: map<string, Option<string>>)
    ensures Normalized([row]) == if Kept(row) then [NormalizeRow(row)] else []
  {
    assert [row][..0] == [];
  }

  /** Every output record has the normalised shape. */
  lemma {:induction false} NormalizedAreRecords(rows: seq<map<string, Option<string>>>)
    ensures forall k :: 0 <= k < |Normalized(rows)| ==> IsRecord(Normalized(rows)[k])
    decreases |rows|
  {
    if rows != [] {
      var last := rows[|rows| - 1];
      NormalizedAreRecords(rows[..|rows| - 1]);
      if Kept(last) {
        NormalizeRowIsRecord(last);
      }
    }
  }

  /** `validate_and_normalize_csv`, after decoding: walk the rows, skip those
      without a name, and append the normalised record of each other row. */
  method ValidateAndNormalize(rows: seq<map<string, Option<string>>>) returns (out: seq<Record>)
    ensures out == Normalized(rows)
  {
    out := [];
    var i := 0;
    while i < |rows|
      invariant 0 <= i <= |rows|
      invariant out == Normalized(rows[..i])
    {
      var row := rows[i];
      assert rows[..i + 1][..i] == rows[..i];
      i := i + 1;
      var fn := Strip(Field(row, "First Name"));
      var ln := Strip(Field(row, "Last Name"));
      if fn == "" && ln == "" {
        continue;
      }
      var active := Upper(Strip(Field(row, "Active")));
      var number := Strip(Field(row, "Number"));
      var p1 := NormPos(Lookup(row, "PreferredPos1"));
      var p2 := NormPos(Lookup(row, "PreferredPos2"));
      var p3 := NormPos(Lookup(row, "PreferredPos3"));
      var seedRaw := Strip(Field(row, "Seed"));
      var seed := Str("");
      if seedRaw != "" {
        var parsed := ParseInt(seedRaw);
        if parsed.Some? {
          seed := Int(parsed.value);
        }
      }
      out := out + [Record(fn, ln, active, number, p1, p2, p3, seed)];
    }
    assert rows[..|rows|] == rows;
  }
}
