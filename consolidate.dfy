/**
 * processing/combine_metadata.py: the saved records are flattened into one table,
 * `clean_data` projects, parses, filters, fills, derives `legible_title` and deduplicates,
 * and `validate_columns` checks every cell against `COLUMNS`.
 */
module Consolidation {
  import opened Values
  import opened Text
  import opened Dates
  import opened Frames
  import opened Validation
  import Extraction

  /** `COLUMNS`: the declared column set and the type of each column. */
  const Columns: map<string, FieldType> := map[
    "id" := TText, "title" := TText, "uploader" := TText, "artist" := TText,
    "tags" := TList, "duration_seconds" := TInt, "view_count" := TInt, "like_count" := TInt,
    "tag_count" := TInt, "upload_date" := TDate, "year_uploaded" := TInt, "legible_title" := TText]

  /** The columns `clean_data` rewrites. */
  const Rewritten: set<string> := {"upload_date", "view_count", "like_count", "tag_count", "duration_seconds", "legible_title"}

  /** The rows `dropna` inspects. */
  const IdTitle: seq<string> := ["id", "title"]

  /** The columns `fillna(0)` fills. */
  const CountColumns: seq<string> := ["view_count", "like_count", "tag_count", "duration_seconds"]

  /** The columns `clean_data` reads, in the order it reads them; each must exist. */
  const ReadColumns: seq<string> := ["upload_date", "id", "title", "view_count", "like_count", "tag_count", "duration_seconds"]

  // ---------------------------------------------------------------- legible_title

  /** `shorten_title` on a present title: at most its first five words. */
  function Shorten(title: string): string {
    var words := Words(title);
    if |words| > 5 then Join(words[..5]) else title
  }

  /**
   * A title of more than five words becomes its first five words joined by single spaces;
   * any other title is returned unchanged; either way the words kept are the first
   * `min(5, n)` words of the title.
   */
  lemma {:induction false} ShortenSpec(title: string)
    ensures |Words(title)| <= 5 ==> Shorten(title) == title
    ensures |Words(title)| > 5 ==> Shorten(title) == Join(Words(title)[..5])
    ensures Words(Shorten(title)) == if |Words(title)| > 5 then Words(title)[..5] else Words(title)
    ensures |Words(Shorten(title))| <= 5
  {
    var words := Words(title);
    if |words| > 5 {
      WordsProper(title);
      WordsOfJoin(words[..5]);
    }
  }

  /** Shortening a shortened title changes nothing. */
  lemma {:induction false} ShortenIdempotent(title: string)
    ensures Shorten(Shorten(title)) == Shorten(title)
  {
    ShortenSpec(title);
    ShortenSpec(Shorten(title));
  }

  /** `shorten_title(title)`: a missing title is passed through. */
  function ShortenTitle(v: Value): (r: Value)
    ensures v == Null ==> r == Null
    ensures v.Str? ==> r == Str(Shorten(v.s))
  {
    match v
    case Str(s) => Str(Shorten(s))
    case _ => v
  }

  predicate IsDelimiter(c: char) {
    c == '-' || c == '|' || c == ':'
  }

  /** The text of a title before its first `-`, `|` or `:` (all of it when it has none). */
  function BeforeDelimiter(s: string): (r: string)
    ensures |r| <= |s|
  {
    if s == [] || IsDelimiter(s[0]) then [] else [s[0]] + BeforeDelimiter(s[1..])
  }

  /**
   * The head is a prefix of the title free of delimiters, and it stops at the first
   * delimiter, or takes the whole title when there is none.
   */
  lemma {:induction false} BeforeDelimiterSpec(s: string)
    ensures BeforeDelimiter(s) == s[..|BeforeDelimiter(s)|]
    ensures forall k :: 0 <= k < |BeforeDelimiter(s)| ==> !IsDelimiter(BeforeDelimiter(s)[k])
    ensures |BeforeDelimiter(s)| < |s| ==> IsDelimiter(s[|BeforeDelimiter(s)|])
  {
    if s != [] && !IsDelimiter(s[0]) {
      BeforeDelimiterSpec(s[1..]);
    }
  }

  /**
   * One cell of `legible_title`: the part of the title before the first delimiter,
   * stripped, then shortened; a non-text title gives a missing value.
   */
  function LegibleCell(title: Value): (r: Value)
    ensures r == Null || r.Str?
    ensures title.Str? <==> r.Str?
  {
    match title
    case Str(s) => Str(Shorten(Strip(BeforeDelimiter(s))))
    case _ => Null
  }

  /**
   * The words of a legible title are the first (at most five) words of the title's text
   * before its first delimiter.
   */
  lemma {:induction false} LegibleCellWords(s: string)
    ensures var head := Words(BeforeDelimiter(s));
      LegibleCell(Str(s)) == Str(Shorten(Strip(BeforeDelimiter(s))))
      && Words(LegibleCell(Str(s)).s) == if |head| > 5 then head[..5] else head
  {
    var b := BeforeDelimiter(s);
    StripWords(b);
    ShortenSpec(Strip(b));
  }

  /** Stripping does not change the words of a string. */
  lemma {:induction false} StripWords(s: string)
    ensures Words(Strip(s)) == Words(s)
  {
    var l := LStrip(s);
    var r := RStrip(l);
    assert LStrip(l) == l;
    RStripSpec(l);
    assert l == r + l[|r|..];
    WordsAppendSpace(r, l[|r|..]);
  }

  /** Trailing whitespace adds no word. */
  lemma {:induction false} WordsAppendSpace(s: string, w: string)
    requires forall k :: 0 <= k < |w| ==> IsSpace(w[k])
    ensures Words(s + w) == Words(s)
    decreases |s|
  {
    var t := LStrip(s);
    LStripAppend(s, w);
    if t == [] {
      AllSpaceNoWords(w);
    } else {
      var n := WordLen(t);
      WordLenSpec(t);
      WordLenAppend(t, w);
      assert (t + w)[..n] == t[..n];
      assert (t + w)[n..] == t[n..] + w;
      WordsAppendSpace(t[n..], w);
    }
  }

  /** A string of whitespace only has no words. */
  lemma {:induction false} AllSpaceNoWords(s: string)
    requires forall k :: 0 <= k < |s| ==> IsSpace(s[k])
    ensures Words(s) == []
  {
    LStripSpec(s);
  }

  lemma {:induction false} LStripAppend(s: string, w: string)
    ensures LStrip(s) != [] ==> LStrip(s + w) == LStrip(s) + w
    ensures LStrip(s) == [] ==> LStrip(s + w) == LStrip(w)
  {
    if s == [] {
      assert s + w == w;
    } else if IsSpace(s[0]) {
      assert (s + w)[1..] == s[1..] + w;
      LStripAppend(s[1..], w);
    }
  }

  lemma {:induction false} WordLenAppend(t: string, w: string)
    requires w == [] || IsSpace(w[0])
    ensures WordLen(t + w) == WordLen(t)
  {
    if t == [] {
      assert t + w == w;
    } else if !IsSpace(t[0]) {
      assert (t + w)[1..] == t[1..] + w;
      WordLenAppend(t[1..], w);
    }
  }

  // ---------------------------------------------------------------- clean_data

  /** Position in `need` of the first label not in `cols`, or `|need|`. */
  function FirstAbsent(need: seq<string>, cols: seq<string>): (k: nat)
    ensures k <= |need|
  {
    if need == [] || need[0] !in cols then 0 else 1 + FirstAbsent(need[1..], cols)
  }

  lemma {:induction false} FirstAbsentSpec(need: seq<string>, cols: seq<string>)
    ensures forall k :: 0 <= k < FirstAbsent(need, cols) ==> need[k] in cols
    ensures FirstAbsent(need, cols) < |need| ==> need[FirstAbsent(need, cols)] !in cols
  {
    if need != [] && need[0] in cols {
      FirstAbsentSpec(need[1..], cols);
      forall k | 1 <= k < FirstAbsent(need, cols) ensures need[k] in cols {
        assert need[k] == need[1..][k - 1];
      }
    }
  }

  /** The four `fillna(0)` assignments. */
  function FillCounts(rows: seq<Row>): (r: seq<Row>)
    ensures |r| == |rows|
  {
    var v := DeriveColumn(rows, "view_count", "view_count", ZeroIfMissing);
    var l := DeriveColumn(v, "like_count", "like_count", ZeroIfMissing);
    var t := DeriveColumn(l, "tag_count", "tag_count", ZeroIfMissing);
    DeriveColumn(t, "duration_seconds", "duration_seconds", ZeroIfMissing)
  }

  /** The cleaned title of one cell: the part before the first delimiter, stripped; a non-text title gives a missing value. */
  function TitleHead(title: Value): (r: Value)
    ensures r == Null || r.Str?
  {
    match title
    case Str(s) => Str(Strip(BeforeDelimiter(s)))
    case _ => Null
  }

  /** The steps of `clean_data` after `dropna`, all of which act on each row separately. */
  function Finish(rows: seq<Row>): (r: seq<Row>)
    ensures |r| == |rows|
  {
    var headed := DeriveColumn(FillCounts(rows), "title", "legible_title", TitleHead);
    DeriveColumn(headed, "legible_title", "legible_title", ShortenTitle)
  }

  /** The column labels `clean_data` returns. */
  function CleanColumns(cols: seq<string>): (r: seq<string>)
    ensures forall c :: c in r <==> (c in cols && c in Columns) || c == "legible_title"
  {
    var kept := KeepColumns(cols, Columns.Keys);
    forall c ensures c in kept <==> c in cols && c in Columns {
      KeepColumnsMembers(cols, Columns.Keys, c);
    }
    if "legible_title" in kept then kept else kept + ["legible_title"]
  }

  /**
   * `clean_data(df)`: KeyError for the first column it reads that the frame lacks, in the
   * order of reading; KeyError `0` when no row survives `dropna` (the split of an empty
   * title column has no column 0); TypeError when a surviving id is a list, which
   * `drop_duplicates` cannot hash; otherwise the cleaned frame.
   */
  function CleanData(t: DataFrame): (r: Result<DataFrame, Exc>)
    ensures r.Err? ==> r.error.KeyError? || r.error == UnhashableList
    ensures r.Ok? ==> |r.value.rows| <= |t.rows|
  {
    var p := Project(t, Columns.Keys);
    var k := FirstAbsent(ReadColumns, p.columns);
    if k < |ReadColumns| then Err(KeyError(ReadColumns[k]))
    else
      var dated := SetColumn(p, "upload_date", "upload_date", ToDatetime);
      var kept := DropMissing(dated.rows, IdTitle);
      if kept == [] then Err(KeyError("0"))
      else
        var headed := SetColumn(DataFrame(dated.columns, FillCounts(kept)), "legible_title", "title", TitleHead);
        var titled := SetColumn(headed, "legible_title", "legible_title", ShortenTitle);
        if !HashableKeys(titled.rows, "id") then Err(UnhashableList)
        else Ok(DataFrame(titled.columns, DropDuplicates(titled.rows, "id")))
  }

  /**
   * A cleaned row and the input row it comes from: the date parsed, the counts filled, the
   * legible title derived from the title, every other cell as it was.
   */
  ghost predicate CleanedFrom(out: Row, row: Row) {
    && Cell(out, "upload_date") == ToDatetime(Cell(row, "upload_date"))
    && Cell(out, "view_count") == ZeroIfMissing(Cell(row, "view_count"))
    && Cell(out, "like_count") == ZeroIfMissing(Cell(row, "like_count"))
    && Cell(out, "tag_count") == ZeroIfMissing(Cell(row, "tag_count"))
    && Cell(out, "duration_seconds") == ZeroIfMissing(Cell(row, "duration_seconds"))
    && Cell(out, "legible_title") == LegibleCell(Cell(row, "title"))
    && (forall c :: c !in Rewritten ==> Cell(out, c) == Cell(row, c))
  }

  /** The surviving rows after the per-row steps. */
  function CleanRows(rows: seq<Row>): (r: seq<Row>)
    ensures |r| == |rows|
  {
    Finish(DeriveColumn(rows, "upload_date", "upload_date", ToDatetime))
  }

  /** The rows `clean_data` returns: the surviving rows, cleaned, without later duplicate ids. */
  function Cleaned(rows: seq<Row>): (r: seq<Row>)
    ensures |r| <= |rows|
  {
    DropDuplicates(CleanRows(DropMissing(rows, IdTitle)), "id")
  }

  /** Each row of `CleanRows` is cleaned from the row at the same place. */
  lemma {:induction false} CleanRowsFrom(rows: seq<Row>, j: nat)
    requires j < |rows|
    ensures CleanedFrom(CleanRows(rows)[j], rows[j])
  {
    var row := rows[j];
    var dated := DeriveColumn(rows, "upload_date", "upload_date", ToDatetime);
    var v := DeriveColumn(dated, "view_count", "view_count", ZeroIfMissing);
    var l := DeriveColumn(v, "like_count", "like_count", ZeroIfMissing);
    var t := DeriveColumn(l, "tag_count", "tag_count", ZeroIfMissing);
    var filled := DeriveColumn(t, "duration_seconds", "duration_seconds", ZeroIfMissing);
    var headed := DeriveColumn(filled, "title", "legible_title", TitleHead);
    DeriveColumnAt(rows, "upload_date", "upload_date", ToDatetime, j);
    DeriveColumnAt(dated, "view_count", "view_count", ZeroIfMissing, j);
    DeriveColumnAt(v, "like_count", "like_count", ZeroIfMissing, j);
    DeriveColumnAt(l, "tag_count", "tag_count", ZeroIfMissing, j);
    DeriveColumnAt(t, "duration_seconds", "duration_seconds", ZeroIfMissing, j);
    DeriveColumnAt(filled, "title", "legible_title", TitleHead, j);
    DeriveColumnAt(headed, "legible_title", "legible_title", ShortenTitle, j);
    CleanedFromSteps(row, filled[j], CleanRows(rows)[j]);
  }

  /** The per-row effect of the fills and of the two `legible_title` assignments. */
  lemma {:induction false} CleanedFromSteps(row: Row, filled: Row, out: Row)
    requires filled == row["upload_date" := ToDatetime(Cell(row, "upload_date"))]
      ["view_count" := ZeroIfMissing(Cell(row, "view_count"))]
      ["like_count" := ZeroIfMissing(Cell(row, "like_count"))]
      ["tag_count" := ZeroIfMissing(Cell(row, "tag_count"))]
      ["duration_seconds" := ZeroIfMissing(Cell(row, "duration_seconds"))]
    requires var headed := filled["legible_title" := TitleHead(Cell(filled, "title"))];
      out == headed["legible_title" := ShortenTitle(Cell(headed, "legible_title"))]
    ensures CleanedFrom(out, row)
  {
    assert Cell(filled, "title") == Cell(row, "title");
  }

  lemma {:induction false} FirstAbsentSame(need: seq<string>, a: seq<string>, b: seq<string>)
    requires forall c :: c in need ==> (c in a <==> c in b)
    ensures FirstAbsent(need, a) == FirstAbsent(need, b)
  {
    if need != [] {
      FirstAbsentSame(need[1..], a, b);
    }
  }

  /**
   * `clean_data` succeeds exactly when it finds the columns it reads, some row has an id
   * and a title, and no such row's id is a list; it then returns the declared columns plus
   * `legible_title`, and the cleaned surviving rows with later duplicate ids removed: the
   * column-by-column steps act row by row.
   */
  lemma {:induction false} CleanDataShape(t: DataFrame)
    ensures CleanData(t).Ok? <==>
      && (forall k :: 0 <= k < |ReadColumns| ==> ReadColumns[k] in t.columns)
      && DropMissing(t.rows, IdTitle) != []
      && HashableKeys(DropMissing(t.rows, IdTitle), "id")
    ensures FirstAbsent(ReadColumns, t.columns) < |ReadColumns| ==>
      CleanData(t) == Err(KeyError(ReadColumns[FirstAbsent(ReadColumns, t.columns)]))
    ensures var d := DropMissing(t.rows, IdTitle);
      FirstAbsent(ReadColumns, t.columns) == |ReadColumns| && d != [] && !HashableKeys(d, "id") ==>
        CleanData(t) == Err(UnhashableList)
    ensures CleanData(t).Ok? ==>
      CleanData(t).value == DataFrame(CleanColumns(t.columns), Cleaned(t.rows))
  {
    FirstAbsentSpec(ReadColumns, t.columns);
    CleanDataReads(t);
    DropMissingDerive(t.rows, IdTitle, "upload_date", "upload_date", ToDatetime);
    if FirstAbsent(ReadColumns, t.columns) == |ReadColumns| && DropMissing(t.rows, IdTitle) != [] {
      CleanDataValue(t);
    }
  }

  /**
   * A row with a title and a list as its id survives `dropna` and then makes
   * `drop_duplicates` raise, whatever the other rows hold.
   */
  lemma {:induction false} CleanDataListId(t: DataFrame, i: nat)
    requires forall k :: 0 <= k < |ReadColumns| ==> ReadColumns[k] in t.columns
    requires i < |t.rows| && Cell(t.rows[i], "title") != Null && Cell(t.rows[i], "id").StrList?
    ensures CleanData(t) == Err(UnhashableList)
  {
    var row := t.rows[i];
    assert NoneMissing(row, IdTitle);
    DropMissingMembers(t.rows, IdTitle, row);
    var d := DropMissing(t.rows, IdTitle);
    assert Cell(row, "id") in KeyValues(d, "id");
    FirstAbsentSpec(ReadColumns, t.columns);
    CleanDataShape(t);
  }

  /** The columns `clean_data` reads are found after the projection exactly when the input has them. */
  lemma {:induction false} CleanDataReads(t: DataFrame)
    ensures FirstAbsent(ReadColumns, Project(t, Columns.Keys).columns) == FirstAbsent(ReadColumns, t.columns)
  {
    var p := Project(t, Columns.Keys);
    forall c | c in ReadColumns ensures c in p.columns <==> c in t.columns {
      KeepColumnsMembers(t.columns, Columns.Keys, c);
    }
    FirstAbsentSame(ReadColumns, p.columns, t.columns);
  }

  /**
   * Past the column checks, the surviving rows, when any, are cleaned row by row, unless
   * one of their ids is a list.
   */
  lemma {:induction false} CleanDataValue(t: DataFrame)
    requires FirstAbsent(ReadColumns, t.columns) == |ReadColumns|
    requires DropMissing(t.rows, IdTitle) != []
    ensures CleanData(t) == if HashableKeys(DropMissing(t.rows, IdTitle), "id")
      then Ok(DataFrame(CleanColumns(t.columns), Cleaned(t.rows))) else Err(UnhashableList)
  {
    CleanRowsIds(DropMissing(t.rows, IdTitle));
    var p := Project(t, Columns.Keys);
    CleanDataReads(t);
    FirstAbsentSpec(ReadColumns, p.columns);
    assert "upload_date" in p.columns;
    DropMissingDerive(t.rows, IdTitle, "upload_date", "upload_date", ToDatetime);
  }

  /** The columns after `clean_data` are all declared, and include the ones it read. */
  lemma {:induction false} CleanDataColumns(t: DataFrame)
    requires CleanData(t).Ok?
    ensures forall k :: 0 <= k < |CleanData(t).value.columns| ==> CleanData(t).value.columns[k] in Columns
    ensures forall k :: 0 <= k < |ReadColumns| ==> ReadColumns[k] in CleanData(t).value.columns
  {
    CleanDataShape(t);
    var cols := CleanData(t).value.columns;
    assert cols == CleanColumns(t.columns);
    forall k | 0 <= k < |cols| ensures cols[k] in Columns {
      assert cols[k] in cols;
    }
  }

  /**
   * Every row `clean_data` returns is the cleaned form of an input row that has an id and
   * a title.
   */
  lemma {:induction false} CleanedRowFrom(rows: seq<Row>, k: nat)
    requires k < |Cleaned(rows)|
    ensures exists i :: 0 <= i < |rows| && NoneMissing(rows[i], IdTitle) && CleanedFrom(Cleaned(rows)[k], rows[i])
  {
    var d := DropMissing(rows, IdTitle);
    DropDuplicatesElements(CleanRows(d), "id");
    var j :| 0 <= j < |d| && CleanRows(d)[j] == Cleaned(rows)[k];
    CleanRowsFrom(d, j);
    DropMissingMembers(rows, IdTitle, d[j]);
    var i :| 0 <= i < |rows| && rows[i] == d[j];
  }

  /**
   * The cells of a cleaned row: id and title present, a missing count filled with 0 and a
   * present one kept, the date valid or
   * missing, and a legible title exactly for a text title, of at most five words.
   */
  lemma {:induction false} CleanedCells(out: Row, row: Row)
    requires NoneMissing(row, IdTitle) && CleanedFrom(out, row)
    ensures Cell(out, "id") != Null && Cell(out, "title") != Null
    ensures forall c :: c in CountColumns ==> Cell(out, c) != Null
    ensures forall c :: c in CountColumns ==> Cell(out, c) == if Cell(row, c) == Null then Int(0) else Cell(row, c)
    ensures Cell(out, "upload_date") == Null || (Cell(out, "upload_date").Date? && ValidDate(Cell(out, "upload_date").date))
    ensures Cell(out, "legible_title").Str? <==> Cell(out, "title").Str?
    ensures Cell(out, "legible_title").Str? ==> |Words(Cell(out, "legible_title").s)| <= 5
  {
    assert Cell(row, IdTitle[0]) != Null && Cell(row, IdTitle[1]) != Null;
    var title := Cell(row, "title");
    if title.Str? {
      LegibleCellWords(title.s);
    }
  }

  /** Cleaning a row keeps its id. */
  lemma {:induction false} CleanRowsId(d: seq<Row>, j: nat)
    requires j < |d|
    ensures Cell(CleanRows(d)[j], "id") == Cell(d[j], "id")
  {
    CleanRowsFrom(d, j);
  }

  lemma {:induction false} CleanRowsIds(d: seq<Row>)
    ensures KeyValues(CleanRows(d), "id") == KeyValues(d, "id")
  {
    forall j | 0 <= j < |d| ensures Cell(CleanRows(d)[j], "id") == Cell(d[j], "id") {
      CleanRowsId(d, j);
    }
  }

  /** The ids left are pairwise different, and every id of a row with an id and a title is left. */
  lemma {:induction false} CleanedIds(rows: seq<Row>)
    ensures forall i, j :: 0 <= i < j < |Cleaned(rows)| ==> Cell(Cleaned(rows)[i], "id") != Cell(Cleaned(rows)[j], "id")
    ensures KeyValues(Cleaned(rows), "id") == set i | 0 <= i < |rows| && NoneMissing(rows[i], IdTitle) :: Cell(rows[i], "id")
  {
    var d := DropMissing(rows, IdTitle);
    DropDuplicatesKeys(CleanRows(d), "id");
    CleanRowsIds(d);
    DropMissingKeyValues(rows, IdTitle, "id");
  }

  /**
   * The first surviving row with a given id is the one kept for it, right after what is
   * kept from the rows before it, so kept rows keep their relative order.
   */
  lemma {:induction false} CleanedKeepsFirst(rows: seq<Row>, i: nat)
    requires i < |DropMissing(rows, IdTitle)|
    requires var d := DropMissing(rows, IdTitle);
      forall j :: 0 <= j < i ==> Cell(d[j], "id") != Cell(d[i], "id")
    ensures var d := DropMissing(rows, IdTitle);
      var n := |DropDuplicates(CleanRows(d)[..i], "id")|;
      n < |Cleaned(rows)| && Cleaned(rows)[n] == CleanRows(d)[i] && CleanedFrom(Cleaned(rows)[n], d[i])
  {
    var d := DropMissing(rows, IdTitle);
    forall j | 0 <= j < i ensures Cell(CleanRows(d)[j], "id") != Cell(CleanRows(d)[i], "id") {
      CleanRowsId(d, j);
      CleanRowsId(d, i);
    }
    DropDuplicatesKeepsFirst(CleanRows(d), "id", i);
    CleanRowsFrom(d, i);
  }

  // ---------------------------------------------------------------- combine_metadata

  /**
   * `combine_metadata(directory)` with the files' parsed contents as `payloads`: the
   * records are gathered, `clean_data` runs, then `validate_columns` on a frame it
   * mutates; the CSV write is not modelled. It fails only where `clean_data` fails: every
   * column left is declared, so the validation never raises.
   */
  method CombineMetadata(payloads: seq<Payload>) returns (result: Result<DataFrame, Exc>)
    ensures CleanData(FromRecords(Flatten(payloads))).Err? ==> result == Err(CleanData(FromRecords(Flatten(payloads))).error)
    ensures CleanData(FromRecords(Flatten(payloads))).Ok? ==>
      var cleaned := CleanData(FromRecords(Flatten(payloads))).value;
      result == Ok(DataFrame(cleaned.columns, Validate(cleaned, Columns).rows))
  {
    var records := CollectRecords(payloads);
    match CleanData(FromRecords(records))
    case Err(e) =>
      return Err(e);
    case Ok(cleaned) =>
      CleanDataColumns(FromRecords(records));
      ValidateRaises(cleaned, Columns);
      var frame := new Frame(cleaned);
      var error := frame.ValidateColumns(Columns);
      assert error == None;
      return Ok(frame.Contents());
  }

  /**
   * The combined table is well typed: every cell of every column is missing or of its
   * declared type, and is the checked form of the cleaned cell.
   */
  lemma {:induction false} CombinedCells(payloads: seq<Payload>, i: nat, c: string)
    requires CleanData(FromRecords(Flatten(payloads))).Ok?
    requires i < |CleanData(FromRecords(Flatten(payloads))).value.rows|
    ensures var cleaned := CleanData(FromRecords(Flatten(payloads))).value;
      var v := Cell(Validate(cleaned, Columns).rows[i], c);
      && Validate(cleaned, Columns).error == None
      && |Validate(cleaned, Columns).rows| == |cleaned.rows|
      && (c in cleaned.columns ==> c in Columns && (v == Null || HasType(v, Columns[c])) && v == Checked(Cell(cleaned.rows[i], c), Columns[c]))
  {
    var cleaned := CleanData(FromRecords(Flatten(payloads))).value;
    CleanDataColumns(FromRecords(Flatten(payloads)));
    ValidateCells(cleaned, Columns, i, c);
  }

  /**
   * Records written by `extract_metadata` carry every column `clean_data` reads, so on such
   * records `clean_data` fails only when no record has both an id and a title, or the id
   * of such a record is a list.
   */
  lemma {:induction false} ExtractedRecordsClean(records: seq<Obj>)
    requires records != []
    requires forall i :: 0 <= i < |records| ==> Keys(records[i]) == Extraction.MetadataKeys
    ensures CleanData(FromRecords(records)).Ok? <==>
      DropMissing(FromRecords(records).rows, IdTitle) != [] && HashableKeys(DropMissing(FromRecords(records).rows, IdTitle), "id")
  {
    var t := FromRecords(records);
    forall k | 0 <= k < |ReadColumns| ensures ReadColumns[k] in t.columns {
      ColumnsOfSpec(records, ReadColumns[k]);
      assert ReadColumns[k] in Keys(records[0]);
    }
    CleanDataShape(t);
  }
}
