/**
 * `validate_columns(df)` (processing/combine_metadata.py and extract_metadata.py): walk the
 * columns; an undeclared column raises, otherwise every cell that is neither missing nor of
 * the declared type is converted with the type's constructor, or set to missing when that
 * fails. The cells are overwritten in place, so the writes made before a raise remain.
 */
module Validation {
  import opened Values
  import opened Text
  import opened Dates
  import opened Frames

  /** The Python types a `COLUMNS` schema declares: `str`, `int`, `list` and `pd.Timestamp`. */
  datatype FieldType = TText | TInt | TList | TDate

  /** Whether a value has the declared type of its column. */
  predicate HasType(v: Value, ty: FieldType) {
    match ty
    case TText => v.Str?
    case TInt => v.Int?
    case TList => v.StrList?
    case TDate => v.Date?
  }

  /** The parts joined with a comma and a space between them. */
  function JoinComma(parts: seq<string>): string {
    if parts == [] then []
    else if |parts| == 1 then parts[0]
    else parts[0] + ", " + JoinComma(parts[1..])
  }

  /** `str(items)` for a list of strings: `['a', 'b']`. */
  function ListText(items: seq<string>): (s: string)
    ensures |s| >= 2 && s[0] == '[' && s[|s| - 1] == ']'
  {
    "[" + JoinComma(seq(|items|, i requires 0 <= i < |items| => "'" + items[i] + "'")) + "]"
  }

  /**
   * `expected_type(value)` for a present value of another type: `str()` of anything,
   * `int()` of a numeric string, `list()` of a string (its characters), `pd.Timestamp()`
   * of a `YYYYMMDD` string; None where the constructor raises.
   */
  function Convert(v: Value, ty: FieldType): (r: Option<Value>)
    ensures r.Some? ==> HasType(r.value, ty)
    ensures ty == TText && v != Null ==> r.Some?
  {
    match ty
    case TText =>
      (match v
       case Str(_) => Some(v)
       case Int(n) => Some(Str(IntToString(n)))
       case StrList(items) => Some(Str(ListText(items)))
       case Date(d) => Some(Str(TimestampText(d)))
       case Null => Some(Str("None")))
    case TInt =>
      (match v
       case Int(_) => Some(v)
       case Str(s) => (match ParseInt(s) case Some(n) => Some(Int(n)) case None => None)
       case _ => None)
    case TList =>
      (match v
       case StrList(_) => Some(v)
       case Str(s) => Some(StrList(seq(|s|, i requires 0 <= i < |s| => [s[i]])))
       case _ => None)
    case TDate =>
      (match v
       case Date(_) => Some(v)
       case Str(s) => (match ParseYmd(s) case Some(d) => Some(Date(d)) case None => None)
       case _ => None)
  }

  /** A present value of another type than the declared one: the cell is rewritten. */
  predicate NeedsConversion(v: Value, ty: FieldType) {
    v != Null && !HasType(v, ty)
  }

  /**
   * The value a cell holds once checked: unchanged when missing or well typed, else the
   * converted value, else missing.
   */
  function Checked(v: Value, ty: FieldType): (r: Value)
    ensures r == Null || HasType(r, ty)
    ensures !NeedsConversion(v, ty) ==> r == v
    ensures NeedsConversion(v, ty) && Convert(v, ty).Some? ==> r == Convert(v, ty).value
    ensures NeedsConversion(v, ty) && Convert(v, ty).None? ==> r == Null
  {
    if !NeedsConversion(v, ty) then v
    else match Convert(v, ty)
      case Some(w) => w
      case None => Null
  }

  /** Checking twice changes nothing more. */
  lemma {:induction false} CheckedIdempotent(v: Value, ty: FieldType)
    ensures Checked(Checked(v, ty), ty) == Checked(v, ty)
  {
  }

  /** The inner loop over one column: every cell of `col` checked against `ty`. */
  function CheckColumn(rows: seq<Row>, col: string, ty: FieldType): (r: seq<Row>)
    ensures |r| == |rows|
  {
    seq(|rows|, i requires 0 <= i < |rows| =>
      if NeedsConversion(Cell(rows[i], col), ty) then rows[i][col := Checked(Cell(rows[i], col), ty)] else rows[i])
  }

  lemma {:induction false} CheckColumnCell(rows: seq<Row>, col: string, ty: FieldType, i: nat, c: string)
    requires i < |rows|
    ensures Cell(CheckColumn(rows, col, ty)[i], c) == if c == col then Checked(Cell(rows[i], c), ty) else Cell(rows[i], c)
  {
  }

  /** The columns `cols` checked one after the other, each against its declared type. */
  function CheckColumns(rows: seq<Row>, cols: seq<string>, schema: map<string, FieldType>): (r: seq<Row>)
    requires forall k :: 0 <= k < |cols| ==> cols[k] in schema
    ensures |r| == |rows|
  {
    if cols == [] then rows
    else
      var last := cols[|cols| - 1];
      CheckColumn(CheckColumns(rows, cols[..|cols| - 1], schema), last, schema[last])
  }

  /**
   * After checking, a cell of a checked column is its checked original value (checking a
   * column twice is the same as once); any other cell is untouched.
   */
  lemma {:induction false} CheckColumnsCell(rows: seq<Row>, cols: seq<string>, schema: map<string, FieldType>, i: nat, c: string)
    requires forall k :: 0 <= k < |cols| ==> cols[k] in schema
    requires i < |rows|
    ensures c in cols ==> Cell(CheckColumns(rows, cols, schema)[i], c) == Checked(Cell(rows[i], c), schema[c])
    ensures c !in cols ==> Cell(CheckColumns(rows, cols, schema)[i], c) == Cell(rows[i], c)
  {
    if cols != [] {
      var init := cols[..|cols| - 1];
      var last := cols[|cols| - 1];
      CheckColumnsCell(rows, init, schema, i, c);
      CheckColumnCell(CheckColumns(rows, init, schema), last, schema[last], i, c);
      assert c in cols <==> c in init || c == last;
      if c == last && c in init {
        CheckedIdempotent(Cell(rows[i], c), schema[c]);
      }
    }
  }

  /** Position of the first undeclared column, or the number of columns when all are declared. */
  function FirstUndeclared(cols: seq<string>, schema: map<string, FieldType>): (k: nat)
    ensures k <= |cols|
  {
    if cols == [] || cols[0] !in schema then 0 else 1 + FirstUndeclared(cols[1..], schema)
  }

  lemma {:induction false} FirstUndeclaredSpec(cols: seq<string>, schema: map<string, FieldType>)
    ensures forall k :: 0 <= k < FirstUndeclared(cols, schema) ==> cols[k] in schema
    ensures FirstUndeclared(cols, schema) < |cols| ==> cols[FirstUndeclared(cols, schema)] !in schema
  {
    if cols != [] && cols[0] in schema {
      FirstUndeclaredSpec(cols[1..], schema);
      forall k | 1 <= k < FirstUndeclared(cols, schema) ensures cols[k] in schema {
        assert cols[k] == cols[1..][k - 1];
      }
    }
  }

  /** What a call leaves behind: the exception raised, if any, and the rows as they now are. */
  datatype Outcome = Outcome(error: Option<Exc>, rows: seq<Row>)

  /** The effect of `validate_columns` on a frame with the given schema. */
  function Validate(t: DataFrame, schema: map<string, FieldType>): Outcome {
    var k := FirstUndeclared(t.columns, schema);
    FirstUndeclaredSpec(t.columns, schema);
    Outcome(if k < |t.columns| then Some(UnexpectedColumn(t.columns[k])) else None,
            CheckColumns(t.rows, t.columns[..k], schema))
  }

  /**
   * `validate_columns` raises exactly when some column is undeclared, and then names the
   * first such column; the columns before it are declared and have been checked.
   */
  lemma {:induction false} ValidateRaises(t: DataFrame, schema: map<string, FieldType>)
    ensures Validate(t, schema).error.Some? <==> exists k :: 0 <= k < |t.columns| && t.columns[k] !in schema
    ensures Validate(t, schema).error.Some? ==>
      var c := Validate(t, schema).error.value.column;
      && Validate(t, schema).error.value.UnexpectedColumn?
      && c in t.columns && c !in schema
  {
    FirstUndeclaredSpec(t.columns, schema);
  }

  /**
   * When every column is declared, every cell of every column ends up missing or of its
   * declared type; a cell already missing or well typed is left as it was, any other one is
   * converted or set to missing; cells outside the frame's columns are untouched.
   */
  lemma {:induction false} ValidateCells(t: DataFrame, schema: map<string, FieldType>, i: nat, c: string)
    requires forall k :: 0 <= k < |t.columns| ==> t.columns[k] in schema
    requires i < |t.rows|
    ensures Validate(t, schema).error == None
    ensures |Validate(t, schema).rows| == |t.rows|
    ensures c in t.columns ==>
      var v := Cell(Validate(t, schema).rows[i], c);
      && (v == Null || HasType(v, schema[c]))
      && v == Checked(Cell(t.rows[i], c), schema[c])
    ensures c !in t.columns ==> Cell(Validate(t, schema).rows[i], c) == Cell(t.rows[i], c)
  {
    FirstUndeclaredSpec(t.columns, schema);
    var k := FirstUndeclared(t.columns, schema);
    assert k == |t.columns|;
    assert t.columns[..k] == t.columns;
    CheckColumnsCell(t.rows, t.columns, schema, i, c);
  }

  /** A frame whose cells `validate_columns` overwrites in place. */
  class Frame {
    var columns: seq<string>
    var rows: seq<Row>

    constructor (t: DataFrame)
      ensures columns == t.columns && rows == t.rows
    {
      columns := t.columns;
      rows := t.rows;
    }

    function Contents(): DataFrame
      reads this
    {
      DataFrame(columns, rows)
    }

    /** Overwrites one cell of the frame. */
    method SetCell(idx: nat, col: string, v: Value)
      requires idx < |rows|
      modifies this
      ensures columns == old(columns)
      ensures rows == old(rows)[idx := old(rows)[idx][col := v]]
    {
      rows := rows[idx := rows[idx][col := v]];
    }

    /** The inner loop of `validate_columns`: every cell of `col` checked against `ty`, in place. */
    method CheckColumnInPlace(col: string, ty: FieldType)
      modifies this
      ensures columns == old(columns)
      ensures rows == CheckColumn(old(rows), col, ty)
    {
      var idx := 0;
      while idx < |rows|
        invariant columns == old(columns)
        invariant |rows| == |old(rows)| && idx <= |rows|
        invariant forall k :: 0 <= k < idx ==> rows[k] == CheckColumn(old(rows), col, ty)[k]
        invariant forall k :: idx <= k < |rows| ==> rows[k] == old(rows)[k]
      {
        var value := Cell(rows[idx], col);
        if NeedsConversion(value, ty) {
          SetCell(idx, col, Checked(value, ty));
        }
        idx := idx + 1;
      }
    }

    /** `validate_columns(df)`: its outcome is `Validate` of the frame as it was. */
    method ValidateColumns(schema: map<string, FieldType>) returns (error: Option<Exc>)
      modifies this
      ensures columns == old(columns)
      ensures Outcome(error, rows) == Validate(old(Contents()), schema)
    {
      FirstUndeclaredSpec(columns, schema);
      var c := 0;
      while c < |columns|
        invariant c <= FirstUndeclared(columns, schema)
        invariant columns == old(columns)
        invariant rows == CheckColumns(old(rows), columns[..c], schema)
      {
        var col := columns[c];
        if col !in schema {
          return Some(UnexpectedColumn(col));
        }
        CheckColumnInPlace(col, schema[col]);
        assert columns[..c + 1][..c] == columns[..c];
        c := c + 1;
      }
      return None;
    }
  }
}
