/**
 * extract_metadata.py, the earlier form of the consolidation step: eleven declared
 * columns, no `legible_title`, and `year_uploaded` recomputed as January 1st of the parsed
 * upload date's year.
 */
module ConsolidationLegacy {
  import opened Values
  import opened Dates
  import opened Frames
  import opened Validation
  import opened Consolidation

  /** `COLUMNS` of this variant: `year_uploaded` is a timestamp here. */
  const LegacyColumns: map<string, FieldType> := map[
    "id" := TText, "title" := TText, "uploader" := TText, "artist" := TText,
    "tags" := TList, "duration_seconds" := TInt, "upload_date" := TDate, "view_count" := TInt,
    "like_count" := TInt, "tag_count" := TInt, "year_uploaded" := TDate]

  /**
   * `clean_data(df)` of this variant: KeyError for the first column it reads that the
   * frame lacks, TypeError when a surviving id is a list, which `drop_duplicates` cannot
   * hash; otherwise the cleaned frame (an empty result is not an error here).
   */
  function CleanDataLegacy(t: DataFrame): (r: Result<DataFrame, Exc>)
    ensures r.Err? ==> r.error.KeyError? || r.error == UnhashableList
    ensures r.Ok? ==> |r.value.rows| <= |t.rows|
  {
    var p := Project(t, LegacyColumns.Keys);
    var k := FirstAbsent(ReadColumns, p.columns);
    if k < |ReadColumns| then Err(KeyError(ReadColumns[k]))
    else
      var dated := SetColumn(p, "upload_date", "upload_date", ToDatetime);
      var yeared := SetColumn(dated, "year_uploaded", "upload_date", YearStart);
      var filled := FillCounts(DropMissing(yeared.rows, IdTitle));
      if !HashableKeys(filled, "id") then Err(UnhashableList)
      else Ok(DataFrame(yeared.columns, DropDuplicates(filled, "id")))
  }

  /** The column labels this `clean_data` returns. */
  function LegacyCleanColumns(cols: seq<string>): (r: seq<string>)
    ensures forall c :: c in r <==> (c in cols && c in LegacyColumns) || c == "year_uploaded"
  {
    var kept := KeepColumns(cols, LegacyColumns.Keys);
    forall c ensures c in kept <==> c in cols && c in LegacyColumns {
      KeepColumnsMembers(cols, LegacyColumns.Keys, c);
    }
    if "year_uploaded" in kept then kept else kept + ["year_uploaded"]
  }

  /**
   * A row cleaned by this variant from an input row: the date parsed, the year derived
   * from the parsed date, the counts filled, every other cell as it was.
   */
  ghost predicate LegacyCleanedFrom(out: Row, row: Row) {
    && Cell(out, "upload_date") == ToDatetime(Cell(row, "upload_date"))
    && Cell(out, "year_uploaded") == YearStart(ToDatetime(Cell(row, "upload_date")))
    && Cell(out, "view_count") == ZeroIfMissing(Cell(row, "view_count"))
    && Cell(out, "like_count") == ZeroIfMissing(Cell(row, "like_count"))
    && Cell(out, "tag_count") == ZeroIfMissing(Cell(row, "tag_count"))
    && Cell(out, "duration_seconds") == ZeroIfMissing(Cell(row, "duration_seconds"))
    && (forall c :: c !in LegacyRewritten ==> Cell(out, c) == Cell(row, c))
  }

  const LegacyRewritten: set<string> := {"upload_date", "year_uploaded", "view_count", "like_count", "tag_count", "duration_seconds"}

  /** The surviving rows after the per-row steps. */
  function LegacyCleanRows(rows: seq<Row>): (r: seq<Row>)
    ensures |r| == |rows|
  {
    var dated := DeriveColumn(rows, "upload_date", "upload_date", ToDatetime);
    FillCounts(DeriveColumn(dated, "upload_date", "year_uploaded", YearStart))
  }

  /** The rows this `clean_data` returns. */
  function LegacyCleaned(rows: seq<Row>): (r: seq<Row>)
    ensures |r| <= |rows|
  {
    DropDuplicates(LegacyCleanRows(DropMissing(rows, IdTitle)), "id")
  }

  lemma {:induction false} LegacyCleanRowsFrom(rows: seq<Row>, j: nat)
    requires j < |rows|
    ensures LegacyCleanedFrom(LegacyCleanRows(rows)[j], rows[j])
  {
    var row := rows[j];
    var dated := DeriveColumn(rows, "upload_date", "upload_date", ToDatetime);
    var yeared := DeriveColumn(dated, "upload_date", "year_uploaded", YearStart);
    var v := DeriveColumn(yeared, "view_count", "view_count", ZeroIfMissing);
    var l := DeriveColumn(v, "like_count", "like_count", ZeroIfMissing);
    var t := DeriveColumn(l, "tag_count", "tag_count", ZeroIfMissing);
    DeriveColumnAt(rows, "upload_date", "upload_date", ToDatetime, j);
    DeriveColumnAt(dated, "upload_date", "year_uploaded", YearStart, j);
    DeriveColumnAt(yeared, "view_count", "view_count", ZeroIfMissing, j);
    DeriveColumnAt(v, "like_count", "like_count", ZeroIfMissing, j);
    DeriveColumnAt(l, "tag_count", "tag_count", ZeroIfMissing, j);
    DeriveColumnAt(t, "duration_seconds", "duration_seconds", ZeroIfMissing, j);
    LegacyCleanedFromSteps(row, yeared[j], LegacyCleanRows(rows)[j]);
  }

  lemma {:induction false} LegacyCleanedFromSteps(row: Row, yeared: Row, out: Row)
    requires yeared == row["upload_date" := ToDatetime(Cell(row, "upload_date"))]
      ["year_uploaded" := YearStart(ToDatetime(Cell(row, "upload_date")))]
    requires out == yeared["view_count" := ZeroIfMissing(Cell(row, "view_count"))]
      ["like_count" := ZeroIfMissing(Cell(row, "like_count"))]
      ["tag_count" := ZeroIfMissing(Cell(row, "tag_count"))]
      ["duration_seconds" := ZeroIfMissing(Cell(row, "duration_seconds"))]
    ensures LegacyCleanedFrom(out, row)
  {
  }

  /**
   * This `clean_data` succeeds exactly when it finds the columns it reads and no row with
   * an id and a title has a list as its id; it then returns the declared columns,
   * `year_uploaded` among them, and the cleaned surviving rows with later duplicate ids
   * removed.
   */
  lemma {:induction false} CleanDataLegacyShape(t: DataFrame)
    ensures CleanDataLegacy(t).Ok? <==>
      (forall k :: 0 <= k < |ReadColumns| ==> ReadColumns[k] in t.columns) && HashableKeys(DropMissing(t.rows, IdTitle), "id")
    ensures FirstAbsent(ReadColumns, t.columns) < |ReadColumns| ==>
      CleanDataLegacy(t) == Err(KeyError(ReadColumns[FirstAbsent(ReadColumns, t.columns)]))
    ensures FirstAbsent(ReadColumns, t.columns) == |ReadColumns| && !HashableKeys(DropMissing(t.rows, IdTitle), "id") ==>
      CleanDataLegacy(t) == Err(UnhashableList)
    ensures CleanDataLegacy(t).Ok? ==>
      CleanDataLegacy(t).value == DataFrame(LegacyCleanColumns(t.columns), LegacyCleaned(t.rows))
  {
    var p := Project(t, LegacyColumns.Keys);
    FirstAbsentSpec(ReadColumns, p.columns);
    FirstAbsentSpec(ReadColumns, t.columns);
    forall c | c in ReadColumns ensures c in p.columns <==> c in t.columns {
      KeepColumnsMembers(t.columns, LegacyColumns.Keys, c);
    }
    FirstAbsentSame(ReadColumns, p.columns, t.columns);
    var dated := DeriveColumn(t.rows, "upload_date", "upload_date", ToDatetime);
    DropMissingDerive(t.rows, IdTitle, "upload_date", "upload_date", ToDatetime);
    DropMissingDerive(dated, IdTitle, "upload_date", "year_uploaded", YearStart);
    LegacyCleanRowsIds(DropMissing(t.rows, IdTitle));
    if FirstAbsent(ReadColumns, t.columns) == |ReadColumns| {
      assert "upload_date" in p.columns;
    }
  }

  /** Every column this `clean_data` returns is declared. */
  lemma {:induction false} CleanDataLegacyColumns(t: DataFrame)
    requires CleanDataLegacy(t).Ok?
    ensures forall k :: 0 <= k < |CleanDataLegacy(t).value.columns| ==> CleanDataLegacy(t).value.columns[k] in LegacyColumns
  {
    CleanDataLegacyShape(t);
    var cols := CleanDataLegacy(t).value.columns;
    assert cols == LegacyCleanColumns(t.columns);
    forall k | 0 <= k < |cols| ensures cols[k] in LegacyColumns {
      assert cols[k] in cols;
    }
  }

  /** A row with a title and a list as its id makes this `clean_data` raise TypeError. */
  lemma {:induction false} LegacyCleanDataListId(t: DataFrame, i: nat)
    requires forall k :: 0 <= k < |ReadColumns| ==> ReadColumns[k] in t.columns
    requires i < |t.rows| && Cell(t.rows[i], "title") != Null && Cell(t.rows[i], "id").StrList?
    ensures CleanDataLegacy(t) == Err(UnhashableList)
  {
    var row := t.rows[i];
    assert NoneMissing(row, IdTitle);
    DropMissingMembers(t.rows, IdTitle, row);
    assert Cell(row, "id") in KeyValues(DropMissing(t.rows, IdTitle), "id");
    FirstAbsentSpec(ReadColumns, t.columns);
    CleanDataLegacyShape(t);
  }

  /**
   * Every row returned is cleaned from an input row with an id and a title; its
   * `year_uploaded` is missing when its date is, and otherwise, when present, is January
   * 1st of the date's year.
   */
  lemma {:induction false} LegacyCleanedRowFrom(rows: seq<Row>, k: nat)
    requires k < |LegacyCleaned(rows)|
    ensures exists i :: 0 <= i < |rows| && NoneMissing(rows[i], IdTitle) && LegacyCleanedFrom(LegacyCleaned(rows)[k], rows[i])
  {
    var d := DropMissing(rows, IdTitle);
    DropDuplicatesElements(LegacyCleanRows(d), "id");
    var j :| 0 <= j < |d| && LegacyCleanRows(d)[j] == LegacyCleaned(rows)[k];
    LegacyCleanRowsFrom(d, j);
    DropMissingMembers(rows, IdTitle, d[j]);
    var i :| 0 <= i < |rows| && rows[i] == d[j];
  }

  /**
   * The year column of a cleaned row: missing when the date is missing, otherwise January
   * 1st of the date's year, which exists for every year after 1677 (the first year whose
   * January 1st a `Timestamp` cannot hold).
   */
  lemma {:induction false} LegacyYear(out: Row, row: Row)
    requires LegacyCleanedFrom(out, row)
    ensures var date := Cell(out, "upload_date");
      var year := Cell(out, "year_uploaded");
      && (date == Null ==> year == Null)
      && (year != Null ==> date.Date? && year == Date(DateVal(date.date.year, 1, 1)))
      && (date.Date? && date.date.year > 1677 ==> year == Date(DateVal(date.date.year, 1, 1)))
  {
    var date := Cell(out, "upload_date");
    if date.Date? && date.date.year > 1677 {
      YearStartDefined(date);
    }
  }

  /** Cleaning the rows keeps their ids. */
  lemma {:induction false} LegacyCleanRowsIds(d: seq<Row>)
    ensures KeyValues(LegacyCleanRows(d), "id") == KeyValues(d, "id")
  {
    forall j | 0 <= j < |d| ensures Cell(LegacyCleanRows(d)[j], "id") == Cell(d[j], "id") {
      LegacyCleanRowId(d, j);
    }
  }

  lemma {:induction false} LegacyCleanRowId(d: seq<Row>, j: nat)
    requires j < |d|
    ensures Cell(LegacyCleanRows(d)[j], "id") == Cell(d[j], "id")
  {
    LegacyCleanRowsFrom(d, j);
  }

  /** The ids left are pairwise different, and every id of a row with an id and a title is left. */
  lemma {:induction false} LegacyCleanedIds(rows: seq<Row>)
    ensures forall i, j :: 0 <= i < j < |LegacyCleaned(rows)| ==>
      Cell(LegacyCleaned(rows)[i], "id") != Cell(LegacyCleaned(rows)[j], "id")
    ensures KeyValues(LegacyCleaned(rows), "id") == set i | 0 <= i < |rows| && NoneMissing(rows[i], IdTitle) :: Cell(rows[i], "id")
  {
    var d := DropMissing(rows, IdTitle);
    DropDuplicatesKeys(LegacyCleanRows(d), "id");
    LegacyCleanRowsIds(d);
    DropMissingKeyValues(rows, IdTitle, "id");
  }

  /**
   * `extract_metadata(directory)` of extract_metadata.py with the files' parsed contents as
   * `payloads`: gather, clean, validate in place. Every column left is declared, so the
   * validation never raises.
   */
  method ExtractMetadataTable(payloads: seq<Payload>) returns (result: Result<DataFrame, Exc>)
    ensures CleanDataLegacy(FromRecords(Flatten(payloads))).Err? ==>
      result == Err(CleanDataLegacy(FromRecords(Flatten(payloads))).error)
    ensures CleanDataLegacy(FromRecords(Flatten(payloads))).Ok? ==>
      var cleaned := CleanDataLegacy(FromRecords(Flatten(payloads))).value;
      && Validate(cleaned, LegacyColumns).error == None
      && result == Ok(DataFrame(cleaned.columns, Validate(cleaned, LegacyColumns).rows))
  {
    var records := CollectRecords(payloads);
    match CleanDataLegacy(FromRecords(records))
    case Err(e) =>
      return Err(e);
    case Ok(cleaned) =>
      CleanDataLegacyColumns(FromRecords(records));
      ValidateRaises(cleaned, LegacyColumns);
      var frame := new Frame(cleaned);
      var error := frame.ValidateColumns(LegacyColumns);
      assert error == None;
      return Ok(frame.Contents());
  }
}
