/** Cell values, JSON objects and the exceptions the pipeline can raise. */
module Values {

  datatype Option<+T> = None | Some(value: T)

  datatype Result<+T, +E> = Ok(value: T) | Err(error: E)

  /** A calendar date as produced by a successful date parse (a midnight timestamp). */
  datatype DateVal = DateVal(year: nat, month: nat, day: nat)

  /**
   * The shapes a metadata cell takes: a JSON null / pandas missing value, a string,
   * an integer, a list of strings, or a parsed timestamp.
   */
  datatype Value = Null | Str(s: string) | Int(n: int) | StrList(items: seq<string>) | Date(date: DateVal)

  /** The exceptions the modelled code raises or catches. */
  datatype Exc =
    | KeyError(key: string)
    | ValueError(msg: string)
    | TypeError(msg: string)
    | UnexpectedColumn(column: string)   // validate_columns' ValueError("Unexpected column: ...")
    | ExtractorError(msg: string)        // any failure of the media extractor
    | WriteError(path: string)           // the metadata file could not be written
    | NameError(name: string)            // here always UnboundLocalError, a subclass of NameError

  /** Python's name for the type of a cell value, as error messages print it. */
  function TypeName(v: Value): string {
    match v
    case Null => "NoneType"
    case Str(_) => "str"
    case Int(_) => "int"
    case StrList(_) => "list"
    case Date(_) => "Timestamp"
  }

  /** One key/value pair of a JSON object; an object keeps its keys in file order. */
  datatype Field = Field(key: string, value: Value)

  type Obj = seq<Field>

  function Keys(o: Obj): (ks: seq<string>)
    ensures |ks| == |o|
    ensures forall i :: 0 <= i < |o| ==> ks[i] == o[i].key
  {
    seq(|o|, i requires 0 <= i < |o| => o[i].key)
  }

  predicate HasKey(o: Obj, k: string) {
    exists i :: 0 <= i < |o| && o[i].key == k
  }

  /** `dict.get(k)`: the value stored under `k`, or None when `k` is absent. */
  function Get(o: Obj, k: string): Value {
    if o == [] then Null
    else if o[0].key == k then o[0].value
    else Get(o[1..], k)
  }

  /** A lookup finds the first field with the key; an absent key reads as None. */
  lemma {:induction false} GetFirst(o: Obj, i: nat, k: string)
    requires i < |o| && o[i].key == k
    requires forall j :: 0 <= j < i ==> o[j].key != k
    ensures Get(o, k) == o[i].value
  {
    if i > 0 {
      GetFirst(o[1..], i - 1, k);
    }
  }

  lemma {:induction false} GetAbsent(o: Obj, k: string)
    requires forall j :: 0 <= j < |o| ==> o[j].key != k
    ensures Get(o, k) == Null
  {
    if o != [] {
      GetAbsent(o[1..], k);
    }
  }

  /** Python truthiness of a cell. */
  predicate Truthy(v: Value) {
    match v
    case Null => false
    case Str(s) => s != []
    case Int(n) => n != 0
    case StrList(items) => items != []
    case Date(_) => true
  }
}
