/** The part of a pandas DataFrame the ingest and template code uses: column
    labels in order, and rows that map each label to a cell. The column
    operations here are the ones both `csv_ingest.py` files and
    `template_writer.py` perform. */
module Frame {
  import opened Values
  import opened Text

  /** The eight columns the workbook's macros read, in their order
      (`EXPECTED_ORDER`, the same list in both `csv_ingest.py` files and in
      `template_writer.py`). */
  const ExpectedOrder: seq<string> :=
    ["First Name", "Last Name", "Active", "Number",
     "PreferredPos1", "PreferredPos2", "PreferredPos3", "Seed"]

  predicate Distinct(cols: seq<string>) {
    forall i, j :: 0 <= i < j < |cols| ==> cols[i] != cols[j]
  }

  lemma ExpectedOrderDistinct()
    ensures Distinct(ExpectedOrder) && |ExpectedOrder| == 8
  {
  }

  /** `ys` holds the images under `f` of the first `n` elements of `xs`. */
  ghost predicate MappedPrefix<A, B>(ys: seq<B>, xs: seq<A>, f: A -> B, n: nat) {
    n <= |xs| && |ys| == n && forall j :: 0 <= j < n ==> ys[j] == f(xs[j])
  }

  lemma MappedPrefixSnoc<A, B>(ys: seq<B>, xs: seq<A>, f: A -> B, n: nat)
    requires MappedPrefix(ys, xs, f, n) && n < |xs|
    ensures MappedPrefix(ys + [f(xs[n])], xs, f, n + 1)
  {
  }

  /** A DataFrame whose cells have type `T`. */
  datatype Table<T> = Table(columns: seq<string>, rows: seq<map<string, T>>)

  /** Each row holds exactly the table's columns. */
  ghost predicate HasColumns<T>(row: map<string, T>, cols: seq<string>) {
    forall c :: c in row <==> c in cols
  }

  /** Column labels are distinct and every row has a cell under each of them. */
  ghost predicate WellFormed<T>(t: Table<T>) {
    Distinct(t.columns) && forall i :: 0 <= i < |t.rows| ==> HasColumns(t.rows[i], t.columns)
  }

  /** `df[name]`: the cells of one column, top to bottom. */
  function Column<T>(t: Table<T>, name: string): (col: seq<T>)
    requires WellFormed(t) && name in t.columns
    ensures |col| == |t.rows|
    ensures forall i :: 0 <= i < |t.rows| ==> col[i] == t.rows[i][name]
  {
    seq(|t.rows|, i requires 0 <= i < |t.rows| && HasColumns(t.rows[i], t.columns) => t.rows[i][name])
  }

  /** Position of the first occurrence of `c`. */
  function IndexOf(cols: seq<string>, c: string): (k: nat)
    requires c in cols
    ensures k < |cols| && cols[k] == c
    ensures forall j :: 0 <= j < k ==> cols[j] != c
  {
    if cols[0] == c then 0 else 1 + IndexOf(cols[1..], c)
  }

  /** `df.columns = newCols`: the same cells under new labels, position by position. */
  method Rename<T>(t: Table<T>, newCols: seq<string>) returns (r: Table<T>)
    requires WellFormed(t) && |newCols| == |t.columns| && Distinct(newCols)
    ensures WellFormed(r) && r.columns == newCols && |r.rows| == |t.rows|
    ensures forall i, j :: 0 <= i < |t.rows| && 0 <= j < |newCols| ==>
              r.rows[i][newCols[j]] == t.rows[i][t.columns[j]]
  {
    r := Table(newCols, seq(|t.rows|, i requires 0 <= i < |t.rows| && HasColumns(t.rows[i], t.columns) =>
      map c | c in newCols :: t.rows[i][t.columns[IndexOf(newCols, c)]]));
  }

  /** The labels of `names` that are not in `cols`, in the order of `names`. */
  function Missing(cols: seq<string>, names: seq<string>): (m: seq<string>)
    ensures forall x :: x in m <==> x in names && x !in cols
  {
    if names == [] then []
    else
      var last := names[|names| - 1];
      assert names == names[..|names| - 1] + [last];
      Missing(cols, names[..|names| - 1]) + (if last in cols then [] else [last])
  }

  lemma {:induction false} MissingDistinct(cols: seq<string>, names: seq<string>)
    requires Distinct(names)
    ensures Distinct(Missing(cols, names))
    decreases |names|
  {
    if names != [] {
      var init := names[..|names| - 1];
      assert forall x :: x in init ==> x != names[|names| - 1];
      MissingDistinct(cols, init);
    }
  }

  lemma MissingStep(cols: seq<string>, names: seq<string>, k: nat)
    requires k < |names|
    ensures Missing(cols, names[..k + 1]) ==
            Missing(cols, names[..k]) + (if names[k] in cols then [] else [names[k]])
  {
    assert names[..k + 1][..k] == names[..k];
  }

  /** `[c for c in cols if c in keep]`. */
  function Filter(cols: seq<string>, keep: seq<string>): (f: seq<string>)
    ensures forall x :: x in f <==> x in cols && x in keep
  {
    if cols == [] then []
    else
      var last := cols[|cols| - 1];
      assert cols == cols[..|cols| - 1] + [last];
      Filter(cols[..|cols| - 1], keep) + (if last in keep then [last] else [])
  }

  lemma {:induction false} FilterDistinct(cols: seq<string>, keep: seq<string>)
    requires Distinct(cols)
    ensures Distinct(Filter(cols, keep))
    decreases |cols|
  {
    if cols != [] {
      var init := cols[..|cols| - 1];
      assert forall x :: x in init ==> x != cols[|cols| - 1];
      FilterDistinct(init, keep);
    }
  }

  lemma {:induction false} FilterAppend(a: seq<string>, b: seq<string>, keep: seq<string>)
    ensures Filter(a + b, keep) == Filter(a, keep) + Filter(b, keep)
    decreases |b|
  {
    if b == [] {
      assert a + b == a;
    } else {
      var b' := b[..|b| - 1];
      assert (a + b)[..|a + b| - 1] == a + b';
      FilterAppend(a, b', keep);
    }
  }

  lemma {:induction false} FilterAll(a: seq<string>, keep: seq<string>)
    requires forall x :: x in a ==> x in keep
    ensures Filter(a, keep) == a
    decreases |a|
  {
    if a != [] {
      var a' := a[..|a| - 1];
      assert forall x :: x in a' ==> x in a;
      FilterAll(a', keep);
      assert a == a' + [a[|a| - 1]];
    }
  }

  /** `df[col] = blank` for a new column: appended last, `blank` in every row. */
  function AddColumn<T>(t: Table<T>, col: string, blank: T): (r: Table<T>)
    requires WellFormed(t) && col !in t.columns
    ensures WellFormed(r) && r.columns == t.columns + [col] && |r.rows| == |t.rows|
    ensures forall i, c :: 0 <= i < |t.rows| && c in t.columns ==> r.rows[i][c] == t.rows[i][c]
    ensures forall i :: 0 <= i < |t.rows| ==> r.rows[i][col] == blank
  {
    Table(t.columns + [col], seq(|t.rows|, i requires 0 <= i < |t.rows| => t.rows[i][col := blank]))
  }

  /** `r` is `t` with columns appended: the cells of `t` are kept and every
      added column holds `blank`. */
  ghost predicate Extends<T>(t: Table<T>, r: Table<T>, blank: T) {
    WellFormed(t) && WellFormed(r) && |r.rows| == |t.rows| &&
    (forall c :: c in t.columns ==> c in r.columns) &&
    (forall i, c :: 0 <= i < |t.rows| && c in t.columns ==> r.rows[i][c] == t.rows[i][c]) &&
    (forall i, c :: 0 <= i < |t.rows| && c in r.columns && c !in t.columns ==> r.rows[i][c] == blank)
  }

  /** Appending a blank column to an extension of `t` extends `t` again. */
  lemma AddColumnKeeps<T>(t: Table<T>, r: Table<T>, col: string, blank: T)
    requires Extends(t, r, blank) && col !in r.columns
    ensures Extends(t, AddColumn(r, col, blank), blank)
  {
  }

  /** `for col in EXPECTED_ORDER: if col not in df.columns: df[col] = blank`:
      each expected column that is absent is appended, in `EXPECTED_ORDER`
      order, holding `blank` in every row; the existing columns are untouched. */
  method AddMissingColumns<T>(t: Table<T>, names: seq<string>, blank: T) returns (r: Table<T>)
    requires WellFormed(t) && Distinct(names)
    ensures WellFormed(r)
    ensures r.columns == t.columns + Missing(t.columns, names)
    ensures |r.rows| == |t.rows|
    ensures forall i, c :: 0 <= i < |t.rows| && c in t.columns ==> r.rows[i][c] == t.rows[i][c]
    ensures forall i, c :: 0 <= i < |t.rows| && c in names && c !in t.columns ==> r.rows[i][c] == blank
  {
    r := t;
    for k := 0 to |names|
      invariant Extends(t, r, blank)
      invariant r.columns == t.columns + Missing(t.columns, names[..k])
    {
      var col := names[k];
      MissingStep(t.columns, names, k);
      assert col !in names[..k];
      if col !in r.columns {
        AddColumnKeeps(t, r, col, blank);
        r := AddColumn(r, col, blank);
      }
    }
    assert names[..|names|] == names;
  }

  /** `df[names]` / `df.loc[:, names]`: the named columns, in the order given. */
  function Select<T>(t: Table<T>, names: seq<string>): (r: Table<T>)
    requires WellFormed(t) && Distinct(names)
    requires forall c :: c in names ==> c in t.columns
    ensures WellFormed(r) && r.columns == names && |r.rows| == |t.rows|
    ensures forall i, c :: 0 <= i < |t.rows| && c in names ==> r.rows[i][c] == t.rows[i][c]
  {
    Table(names, seq(|t.rows|, i requires 0 <= i < |t.rows| && HasColumns(t.rows[i], t.columns) =>
      map c | c in names :: t.rows[i][c]))
  }

  /** `for col in names: df[col] = f(df[col])`: every cell of the named columns
      is replaced by its image under `f`; the other cells are untouched. */
  method MapColumns<T>(t: Table<T>, names: seq<string>, f: T -> T) returns (r: Table<T>)
    requires WellFormed(t) && Distinct(names)
    requires forall c :: c in names ==> c in t.columns
    ensures WellFormed(r) && r.columns == t.columns && |r.rows| == |t.rows|
    ensures forall i, c :: 0 <= i < |t.rows| && c in t.columns ==>
              r.rows[i][c] == if c in names then f(t.rows[i][c]) else t.rows[i][c]
  {
    var rows := t.rows;
    for k := 0 to |names|
      invariant |rows| == |t.rows|
      invariant forall i :: 0 <= i < |rows| ==> HasColumns(rows[i], t.columns)
      invariant forall i, c :: 0 <= i < |rows| && c in t.columns ==>
                  rows[i][c] == if c in names[..k] then f(t.rows[i][c]) else t.rows[i][c]
    {
      var col := names[k];
      assert names[..k + 1] == names[..k] + [col];
      assert col !in names[..k];
      rows := seq(|rows|, i requires 0 <= i < |rows| && HasColumns(rows[i], t.columns) =>
        rows[i][col := f(rows[i][col])]);
    }
    assert names[..|names|] == names;
    r := Table(t.columns, rows);
  }

  /** How many of `xs` satisfy `p` (`series.isin(...).sum()`, `len(df[mask])`). */
  function Count<T>(xs: seq<T>, p: T -> bool): (n: nat)
    ensures n <= |xs|
  {
    if xs == [] then 0
    else Count(xs[..|xs| - 1], p) + (if p(xs[|xs| - 1]) then 1 else 0)
  }

  /** The count reaches the length exactly when every element satisfies `p`. */
  lemma {:induction false} CountAll<T>(xs: seq<T>, p: T -> bool)
    ensures Count(xs, p) == |xs| <==> forall i :: 0 <= i < |xs| ==> p(xs[i])
    decreases |xs|
  {
    if xs != [] {
      var init := xs[..|xs| - 1];
      CountAll(init, p);
      assert forall i :: 0 <= i < |init| ==> init[i] == xs[i];
    }
  }

  /** The count is zero exactly when no element satisfies `p`. */
  lemma {:induction false} CountNone<T>(xs: seq<T>, p: T -> bool)
    ensures Count(xs, p) == 0 <==> forall i :: 0 <= i < |xs| ==> !p(xs[i])
    decreases |xs|
  {
    if xs != [] {
      var init := xs[..|xs| - 1];
      CountNone(init, p);
      assert forall i :: 0 <= i < |init| ==> init[i] == xs[i];
    }
  }

  /** A predicate that holds wherever `p` holds counts at least as many. */
  lemma {:induction false} CountMono<T>(xs: seq<T>, p: T -> bool, q: T -> bool)
    requires forall x :: p(x) ==> q(x)
    ensures Count(xs, p) <= Count(xs, q)
    decreases |xs|
  {
    if xs != [] {
      CountMono(xs[..|xs| - 1], p, q);
    }
  }
}
