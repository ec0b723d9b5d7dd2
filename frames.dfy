/**
 * The table operations the consolidation step performs with pandas: building a frame from
 * records, selecting columns, replacing a column, `dropna(subset=...)`, `fillna(0)` and
 * `drop_duplicates(subset=[...], keep="first")`, plus the flattening of per-file payloads.
 */
module Frames {
  import opened Values

  /** One row: the cell of each column; a column absent from the map reads as missing. */
  type Row = map<string, Value>

  /** A data frame: its column labels in order and its rows in order. */
  datatype DataFrame = DataFrame(columns: seq<string>, rows: seq<Row>)

  function Cell(row: Row, col: string): Value {
    if col in row then row[col] else Null
  }

  // ---------------------------------------------------------------- flattening

  /** The content of one JSON file: a single record or a list of records. */
  datatype Payload = Single(record: Obj) | Many(records: seq<Obj>)

  /** The records of one file: a list payload as it is, a single record as a one-element list. */
  function RecordsOf(p: Payload): seq<Obj> {
    match p
    case Single(r) => [r]
    case Many(rs) => rs
  }

  /** The records of all files, file after file. */
  function Flatten(ps: seq<Payload>): seq<Obj> {
    if ps == [] then [] else Flatten(ps[..|ps| - 1]) + RecordsOf(ps[|ps| - 1])
  }

  lemma {:induction false} FlattenAppend(a: seq<Payload>, b: seq<Payload>)
    ensures Flatten(a + b) == Flatten(a) + Flatten(b)
    decreases |b|
  {
    if b == [] {
      assert a + b == a;
    } else {
      assert (a + b)[..|a + b| - 1] == a + b[..|b| - 1];
      FlattenAppend(a, b[..|b| - 1]);
    }
  }

  /** A record is collected exactly when some file holds it. */
  lemma {:induction false} FlattenMembers(ps: seq<Payload>, rec: Obj)
    ensures rec in Flatten(ps) <==> exists i :: 0 <= i < |ps| && rec in RecordsOf(ps[i])
  {
    if ps != [] {
      var init := ps[..|ps| - 1];
      FlattenMembers(init, rec);
      if rec in Flatten(init) {
        var i :| 0 <= i < |init| && rec in RecordsOf(init[i]);
        assert ps[i] == init[i];
      }
      if exists i :: 0 <= i < |ps| && rec in RecordsOf(ps[i]) {
        var i :| 0 <= i < |ps| && rec in RecordsOf(ps[i]);
        if i < |init| {
          assert init[i] == ps[i];
        }
      }
    }
  }

  /** When every file holds one record, the records are those, one per file, in file order. */
  lemma {:induction false} FlattenSingles(ps: seq<Payload>)
    requires forall i :: 0 <= i < |ps| ==> ps[i].Single?
    ensures |Flatten(ps)| == |ps|
    ensures forall i :: 0 <= i < |ps| ==> Flatten(ps)[i] == ps[i].record
  {
    if ps != [] {
      FlattenSingles(ps[..|ps| - 1]);
    }
  }

  /** The loop of `combine_metadata` that extends `all_records` file by file. */
  method CollectRecords(ps: seq<Payload>) returns (all: seq<Obj>)
    ensures all == Flatten(ps)
  {
    all := [];
    for i := 0 to |ps|
      invariant all == Flatten(ps[..i])
    {
      assert ps[..i + 1][..i] == ps[..i];
      var records := match ps[i] case Many(rs) => rs case Single(r) => [r];
      all := all + records;
    }
    assert ps[..|ps|] == ps;
  }

  // ---------------------------------------------------------------- building a frame

  /** `ks` appended to `cols`, skipping labels already present. */
  function AddColumns(cols: seq<string>, ks: seq<string>): (r: seq<string>)
    ensures forall c :: c in r <==> c in cols || c in ks
  {
    if ks == [] then cols
    else
      var c := AddColumns(cols, ks[..|ks| - 1]);
      assert forall k :: k in ks[..|ks| - 1] ==> k in ks;
      assert forall k :: k in ks ==> k in ks[..|ks| - 1] || k == ks[|ks| - 1];
      if ks[|ks| - 1] in c then c else c + [ks[|ks| - 1]]
  }

  predicate Distinct(cols: seq<string>) {
    forall i, j :: 0 <= i < j < |cols| ==> cols[i] != cols[j]
  }

  lemma {:induction false} AddColumnsDistinct(cols: seq<string>, ks: seq<string>)
    requires Distinct(cols)
    ensures Distinct(AddColumns(cols, ks))
  {
    if ks != [] {
      AddColumnsDistinct(cols, ks[..|ks| - 1]);
    }
  }

  /** The columns of `pd.DataFrame(records)`: every key, in order of first appearance. */
  function ColumnsOf(records: seq<Obj>): seq<string> {
    if records == [] then []
    else AddColumns(ColumnsOf(records[..|records| - 1]), Keys(records[|records| - 1]))
  }

  /** A column exists exactly when some record has that key, and no column is repeated. */
  lemma {:induction false} ColumnsOfSpec(records: seq<Obj>, c: string)
    ensures Distinct(ColumnsOf(records))
    ensures c in ColumnsOf(records) <==> exists i :: 0 <= i < |records| && c in Keys(records[i])
  {
    if records != [] {
      var init := records[..|records| - 1];
      ColumnsOfSpec(init, c);
      AddColumnsDistinct(ColumnsOf(init), Keys(records[|records| - 1]));
      if c in ColumnsOf(init) {
        var i :| 0 <= i < |init| && c in Keys(init[i]);
        assert records[i] == init[i];
      }
      if exists i :: 0 <= i < |records| && c in Keys(records[i]) {
        var i :| 0 <= i < |records| && c in Keys(records[i]);
        if i < |init| {
          assert init[i] == records[i];
        }
      }
    }
  }

  /** One record as a row. */
  function RowOf(rec: Obj): Row {
    map k | k in Keys(rec) :: Get(rec, k)
  }

  /** Each cell of a record's row is the record's value for that key, missing when absent. */
  lemma {:induction false} RowOfCell(rec: Obj, k: string)
    ensures Cell(RowOf(rec), k) == Get(rec, k)
  {
    if k !in Keys(rec) {
      forall j | 0 <= j < |rec| ensures rec[j].key != k {
        assert Keys(rec)[j] == rec[j].key;
      }
      GetAbsent(rec, k);
    }
  }

  /** `pd.DataFrame(records)`. */
  function FromRecords(records: seq<Obj>): (t: DataFrame)
    ensures |t.rows| == |records|
  {
    DataFrame(ColumnsOf(records), seq(|records|, i requires 0 <= i < |records| => RowOf(records[i])))
  }

  // ---------------------------------------------------------------- column operations

  /** The labels of `cols` that are in `declared`, in their order. */
  function KeepColumns(cols: seq<string>, declared: set<string>): (r: seq<string>)
    ensures |r| <= |cols|
  {
    if cols == [] then []
    else (if cols[0] in declared then [cols[0]] else []) + KeepColumns(cols[1..], declared)
  }

  lemma {:induction false} KeepColumnsMembers(cols: seq<string>, declared: set<string>, c: string)
    ensures c in KeepColumns(cols, declared) <==> c in cols && c in declared
  {
    if cols != [] {
      KeepColumnsMembers(cols[1..], declared, c);
      assert c in cols <==> c == cols[0] || c in cols[1..];
    }
  }

  /** Column selection down to the declared labels; the rows are left as they are. */
  function Project(t: DataFrame, declared: set<string>): (r: DataFrame)
    ensures r.rows == t.rows
  {
    DataFrame(KeepColumns(t.columns, declared), t.rows)
  }

  /**
   * Column assignment from another column, on the rows: each row's `dst` cell becomes `f` of its `src` cell;
   * the other cells stay.
   */
  function DeriveColumn(rows: seq<Row>, src: string, dst: string, f: Value -> Value): (r: seq<Row>)
    ensures |r| == |rows|
  {
    seq(|rows|, i requires 0 <= i < |rows| => rows[i][dst := f(Cell(rows[i], src))])
  }

  lemma {:induction false} DeriveColumnAt(rows: seq<Row>, src: string, dst: string, f: Value -> Value, i: nat)
    requires i < |rows|
    ensures DeriveColumn(rows, src, dst, f)[i] == rows[i][dst := f(Cell(rows[i], src))]
  {
  }

  /**
   * Replacing a column touches only that column: in every row the `dst` cell is `f` of the
   * `src` cell and every other cell reads as before.
   */
  lemma {:induction false} DeriveColumnCell(rows: seq<Row>, src: string, dst: string, f: Value -> Value, i: nat, c: string)
    requires i < |rows|
    ensures Cell(DeriveColumn(rows, src, dst, f)[i], c) == if c == dst then f(Cell(rows[i], src)) else Cell(rows[i], c)
  {
    DeriveColumnAt(rows, src, dst, f, i);
  }

  /** Column assignment on a frame: an existing column keeps its place, a new one goes last. */
  function SetColumn(t: DataFrame, dst: string, src: string, f: Value -> Value): (r: DataFrame)
    ensures |r.rows| == |t.rows|
    ensures forall c :: c in r.columns <==> c in t.columns || c == dst
  {
    DataFrame(if dst in t.columns then t.columns else t.columns + [dst], DeriveColumn(t.rows, src, dst, f))
  }

  /** `fillna(0)` on one cell. */
  function ZeroIfMissing(v: Value): (r: Value)
    ensures r != Null
    ensures v == Null ==> r == Int(0)
    ensures v != Null ==> r == v
  {
    if v == Null then Int(0) else v
  }

  // ---------------------------------------------------------------- dropna

  predicate NoneMissing(row: Row, subset: seq<string>) {
    forall k :: 0 <= k < |subset| ==> Cell(row, subset[k]) != Null
  }

  /** `dropna` over a subset of columns: the rows whose cells in `subset` are all present, in order. */
  function DropMissing(rows: seq<Row>, subset: seq<string>): (r: seq<Row>)
    ensures |r| <= |rows|
  {
    if rows == [] then []
    else
      var last := rows[|rows| - 1];
      DropMissing(rows[..|rows| - 1], subset) + (if NoneMissing(last, subset) then [last] else [])
  }

  /** A row survives exactly when it is an input row with no missing cell in `subset`. */
  lemma {:induction false} DropMissingMembers(rows: seq<Row>, subset: seq<string>, x: Row)
    ensures x in DropMissing(rows, subset) <==> x in rows && NoneMissing(x, subset)
  {
    if rows != [] {
      var init := rows[..|rows| - 1];
      DropMissingMembers(init, subset, x);
      assert rows == init + [rows[|rows| - 1]];
    }
  }

  /** The key values left by the filter are those of the rows it keeps. */
  lemma {:induction false} DropMissingKeyValues(rows: seq<Row>, subset: seq<string>, col: string)
    ensures KeyValues(DropMissing(rows, subset), col)
      == set i | 0 <= i < |rows| && NoneMissing(rows[i], subset) :: Cell(rows[i], col)
  {
    var d := DropMissing(rows, subset);
    forall v | v in KeyValues(d, col)
      ensures v in set i | 0 <= i < |rows| && NoneMissing(rows[i], subset) :: Cell(rows[i], col)
    {
      var j :| 0 <= j < |d| && Cell(d[j], col) == v;
      DropMissingMembers(rows, subset, d[j]);
      var i :| 0 <= i < |rows| && rows[i] == d[j];
    }
    forall i | 0 <= i < |rows| && NoneMissing(rows[i], subset) ensures Cell(rows[i], col) in KeyValues(d, col) {
      DropMissingMembers(rows, subset, rows[i]);
      var j :| 0 <= j < |d| && d[j] == rows[i];
    }
  }

  /** The filter works row by row, so it keeps the order of the input. */
  lemma {:induction false} DropMissingAppend(a: seq<Row>, b: seq<Row>, subset: seq<string>)
    ensures DropMissing(a + b, subset) == DropMissing(a, subset) + DropMissing(b, subset)
    decreases |b|
  {
    if b == [] {
      assert a + b == a;
    } else {
      assert (a + b)[..|a + b| - 1] == a + b[..|b| - 1];
      DropMissingAppend(a, b[..|b| - 1], subset);
    }
  }

  /** Rewriting a column outside `subset` does not change which rows `dropna` keeps. */
  lemma {:induction false} DropMissingDerive(rows: seq<Row>, subset: seq<string>, src: string, dst: string, f: Value -> Value)
    requires dst !in subset
    ensures DropMissing(DeriveColumn(rows, src, dst, f), subset) == DeriveColumn(DropMissing(rows, subset), src, dst, f)
  {
    if rows != [] {
      var init := rows[..|rows| - 1];
      var last := rows[|rows| - 1];
      var mapped := DeriveColumn(rows, src, dst, f);
      assert mapped[..|rows| - 1] == DeriveColumn(init, src, dst, f);
      DropMissingDerive(init, subset, src, dst, f);
      assert NoneMissing(mapped[|rows| - 1], subset) == NoneMissing(last, subset) by {
        assert forall k :: 0 <= k < |subset| ==> Cell(mapped[|rows| - 1], subset[k]) == Cell(last, subset[k]);
      }
      var d := DropMissing(init, subset);
      if NoneMissing(last, subset) {
        assert DeriveColumn(d + [last], src, dst, f) == DeriveColumn(d, src, dst, f) + [mapped[|rows| - 1]];
      } else {
        assert d + [] == d;
        assert DeriveColumn(d, src, dst, f) + [] == DeriveColumn(d, src, dst, f);
      }
    }
  }

  // ---------------------------------------------------------------- drop_duplicates

  /** The values of column `col` over the rows. */
  function KeyValues(rows: seq<Row>, col: string): set<Value> {
    set i | 0 <= i < |rows| :: Cell(rows[i], col)
  }

  /** The error pandas raises when it hashes a list while looking for duplicates. */
  const UnhashableList: Exc := TypeError("unhashable type: 'list'")

  /** A key column pandas can hash: no list among its values. */
  predicate HashableKeys(rows: seq<Row>, col: string) {
    forall v :: v in KeyValues(rows, col) ==> !v.StrList?
  }

  /** The keys can be hashed exactly when no row holds a list in the key column. */
  lemma {:induction false} HashableKeysAt(rows: seq<Row>, col: string)
    ensures HashableKeys(rows, col) <==> forall i :: 0 <= i < |rows| ==> !Cell(rows[i], col).StrList?
  {
    if !HashableKeys(rows, col) {
      var v :| v in KeyValues(rows, col) && v.StrList?;
      var i :| 0 <= i < |rows| && Cell(rows[i], col) == v;
    }
  }

  /**
   * Duplicate removal on one column keeping the first occurrence, once the keys are
   * `HashableKeys`: a row is kept when no earlier row has
   * the same value in `col`.
   */
  function DropDuplicates(rows: seq<Row>, col: string): (r: seq<Row>)
    ensures |r| <= |rows|
  {
    if rows == [] then []
    else
      var init := rows[..|rows| - 1];
      var last := rows[|rows| - 1];
      DropDuplicates(init, col) + (if Cell(last, col) in KeyValues(init, col) then [] else [last])
  }

  lemma {:induction false} KeyValuesSnoc(rows: seq<Row>, col: string)
    requires rows != []
    ensures KeyValues(rows, col) == KeyValues(rows[..|rows| - 1], col) + {Cell(rows[|rows| - 1], col)}
  {
    var init := rows[..|rows| - 1];
    forall v | v in KeyValues(rows, col) ensures v in KeyValues(init, col) + {Cell(rows[|rows| - 1], col)} {
      var i :| 0 <= i < |rows| && Cell(rows[i], col) == v;
      if i < |init| {
        assert init[i] == rows[i];
      }
    }
    forall v | v in KeyValues(init, col) ensures v in KeyValues(rows, col) {
      var i :| 0 <= i < |init| && Cell(init[i], col) == v;
      assert rows[i] == init[i];
    }
  }

  /** Deduplication keeps every key value, and its keys are pairwise different. */
  lemma {:induction false} DropDuplicatesKeys(rows: seq<Row>, col: string)
    ensures KeyValues(DropDuplicates(rows, col), col) == KeyValues(rows, col)
    ensures forall i, j :: 0 <= i < j < |DropDuplicates(rows, col)| ==>
      Cell(DropDuplicates(rows, col)[i], col) != Cell(DropDuplicates(rows, col)[j], col)
  {
    if rows != [] {
      var init := rows[..|rows| - 1];
      var last := rows[|rows| - 1];
      var d := DropDuplicates(init, col);
      DropDuplicatesKeys(init, col);
      KeyValuesSnoc(rows, col);
      if Cell(last, col) !in KeyValues(init, col) {
        assert DropDuplicates(rows, col) == d + [last];
        KeyValuesSnoc(d + [last], col);
        assert (d + [last])[..|d|] == d;
        forall i | 0 <= i < |d| ensures Cell(d[i], col) != Cell(last, col) {
          assert Cell(d[i], col) in KeyValues(d, col);
        }
      } else {
        assert DropDuplicates(rows, col) == d + [];
        assert d + [] == d;
      }
    }
  }

  /** Every kept row is an input row. */
  lemma {:induction false} DropDuplicatesElements(rows: seq<Row>, col: string)
    ensures forall k :: 0 <= k < |DropDuplicates(rows, col)| ==> DropDuplicates(rows, col)[k] in rows
  {
    if rows != [] {
      var init := rows[..|rows| - 1];
      DropDuplicatesElements(init, col);
      assert forall r :: r in init ==> r in rows;
    }
  }

  /** What is kept from a prefix of the rows stays at the front of what is kept from all of them. */
  lemma {:induction false} DropDuplicatesPrefix(rows: seq<Row>, col: string, n: nat)
    requires n <= |rows|
    ensures DropDuplicates(rows[..n], col) <= DropDuplicates(rows, col)
    decreases |rows|
  {
    if n < |rows| {
      var init := rows[..|rows| - 1];
      assert init[..n] == rows[..n];
      DropDuplicatesPrefix(init, col, n);
    } else {
      assert rows[..n] == rows;
    }
  }

  /**
   * The first row with a given key is kept, right after what is kept from the rows before
   * it; since positions only grow with the input index, kept rows keep their relative order.
   */
  lemma {:induction false} DropDuplicatesKeepsFirst(rows: seq<Row>, col: string, i: nat)
    requires i < |rows|
    requires forall j :: 0 <= j < i ==> Cell(rows[j], col) != Cell(rows[i], col)
    ensures |DropDuplicates(rows[..i], col)| < |DropDuplicates(rows, col)|
    ensures DropDuplicates(rows, col)[|DropDuplicates(rows[..i], col)|] == rows[i]
  {
    var upto := rows[..i + 1];
    assert upto[..i] == rows[..i];
    assert upto[i] == rows[i];
    assert Cell(rows[i], col) !in KeyValues(rows[..i], col);
    assert DropDuplicates(upto, col) == DropDuplicates(rows[..i], col) + [rows[i]];
    DropDuplicatesPrefix(rows, col, i + 1);
  }
}
