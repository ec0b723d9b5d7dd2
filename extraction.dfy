/**
 * The URL-list filter of `load_txt` and the record builder `extract_metadata`
 * (processing/extract_videos.py; identical copies in extract_videos.py and bda_boilerplate.py,
 * and the same filter in read_videos.py).
 */
module Extraction {
  import opened Values
  import opened Text

  /** The URL list: every line stripped, the lines left empty by stripping dropped. */
  function LoadTxt(lines: seq<string>): (urls: seq<string>)
    ensures |urls| <= |lines|
  {
    if lines == [] then []
    else
      var t := Strip(lines[0]);
      (if t != [] then [t] else []) + LoadTxt(lines[1..])
  }

  /** Every kept entry is non-empty and has no surrounding whitespace. */
  lemma {:induction false} LoadTxtClean(lines: seq<string>)
    ensures forall k :: 0 <= k < |LoadTxt(lines)| ==> LoadTxt(lines)[k] != [] && Trimmed(LoadTxt(lines)[k])
  {
    if lines != [] {
      StripSpec(lines[0]);
      LoadTxtClean(lines[1..]);
    }
  }

  /** The filter works line by line, so it keeps the order of the input. */
  lemma {:induction false} LoadTxtAppend(a: seq<string>, b: seq<string>)
    ensures LoadTxt(a + b) == LoadTxt(a) + LoadTxt(b)
  {
    if a == [] {
      assert a + b == b;
    } else {
      var h := if Strip(a[0]) != [] then [Strip(a[0])] else [];
      assert (a + b)[0] == a[0];
      assert (a + b)[1..] == a[1..] + b;
      assert LoadTxt(a + b) == h + LoadTxt(a[1..] + b);
      LoadTxtAppend(a[1..], b);
      assert h + (LoadTxt(a[1..]) + LoadTxt(b)) == (h + LoadTxt(a[1..])) + LoadTxt(b);
    }
  }

  /** A string is kept exactly when it is the non-empty stripped form of some input line. */
  lemma {:induction false} LoadTxtMembers(lines: seq<string>, x: string)
    ensures x in LoadTxt(lines) <==> x != [] && exists i :: 0 <= i < |lines| && Strip(lines[i]) == x
  {
    if lines != [] {
      LoadTxtMembers(lines[1..], x);
      if x != [] && Strip(lines[0]) != x && (exists i :: 0 <= i < |lines| && Strip(lines[i]) == x) {
        var i :| 0 <= i < |lines| && Strip(lines[i]) == x;
        assert lines[1..][i - 1] == lines[i];
      }
      if x in LoadTxt(lines[1..]) {
        var i :| 0 <= i < |lines[1..]| && Strip(lines[1..][i]) == x;
        assert lines[i + 1] == lines[1..][i];
      }
    }
  }

  /** A line made only of whitespace contributes nothing. */
  lemma {:induction false} BlankLineDropped(line: string)
    requires forall k :: 0 <= k < |line| ==> IsSpace(line[k])
    ensures LoadTxt([line]) == []
  {
    StripEmpty(line);
    assert [line][1..] == [];
  }

  /** The keys of an `extract_metadata` record, in the order the dict literal lists them. */
  const MetadataKeys: seq<string> := [
    "id", "title", "uploader", "uploader_id", "channel", "track", "artist", "album",
    "description", "tags", "duration_seconds", "upload_date", "view_count", "like_count",
    "webpage_url", "year_uploaded", "tag_count"]

  /** The first four characters of a string, or all of it when it is shorter (Python's `s[:4]`). */
  function Head4(s: string): (h: string)
    ensures |h| == if |s| <= 4 then |s| else 4
    ensures h == s[..|h|]
  {
    if |s| <= 4 then s else s[..4]
  }

  /**
   * The derived `year_uploaded`: None for a falsy upload date, otherwise the integer the first
   * four characters denote; `int()` raises ValueError when they do not denote one, and slicing
   * or converting anything but a string raises TypeError.
   */
  function YearUploaded(uploadDate: Value): (r: Result<Value, Exc>)
    ensures !Truthy(uploadDate) <==> r == Ok(Null)
    ensures r.Ok? && r.value != Null ==> r.value.Int?
  {
    if !Truthy(uploadDate) then Ok(Null)
    else match uploadDate
      case Str(s) =>
        var head := Head4(s);
        (match ParseInt(head)
         case Some(n) => Ok(Int(n))
         case None => Err(ValueError("invalid literal for int() with base 10: '" + head + "'")))
      case StrList(_) => Err(TypeError("int() argument must be a string, a bytes-like object or a real number, not 'list'"))
      case Int(_) => Err(TypeError("'int' object is not subscriptable"))
      case Date(_) => Err(TypeError("'Timestamp' object is not subscriptable"))
      case Null => Ok(Null)
  }

  /**
   * The value of `year_uploaded`: an upload date whose first four characters are digits gives
   * the number they denote (the `YYYYMMDD` dates the extractor reports); a truthy date raises
   * exactly when it is not a string or its first four characters are not an integer literal.
   */
  lemma {:induction false} YearUploadedSpec(v: Value)
    ensures v.Str? && |v.s| >= 4 && AllDigits(v.s[..4]) ==> YearUploaded(v) == Ok(Int(DigitsValue(v.s[..4])))
    ensures YearUploaded(v).Err? <==> Truthy(v) && (!v.Str? || ParseInt(Head4(v.s)).None?)
    ensures YearUploaded(v).Ok? && Truthy(v) ==> YearUploaded(v) == Ok(Int(ParseInt(Head4(v.s)).value))
  {
    if v.Str? && |v.s| >= 4 && AllDigits(v.s[..4]) {
      ParseDigits(v.s[..4]);
    }
  }

  /** The tags of the record: the extractor's tags when truthy, otherwise the empty list. */
  function TagsOf(info: Obj): (tags: Value)
    ensures Truthy(Get(info, "tags")) ==> tags == Get(info, "tags")
    ensures !Truthy(Get(info, "tags")) ==> tags == StrList([])
  {
    var t := Get(info, "tags");
    if Truthy(t) then t else StrList([])
  }

  /** `len(tags)`: a list or a string has a length; anything else raises TypeError. */
  function Len(v: Value): (r: Result<int, Exc>)
    ensures v.StrList? ==> r == Ok(|v.items|)
    ensures v.Str? ==> r == Ok(|v.s|)
    ensures r.Ok? <==> v.StrList? || v.Str?
  {
    match v
    case StrList(items) => Ok(|items|)
    case Str(s) => Ok(|s|)
    case _ => Err(TypeError("object of type '" + TypeName(v) + "' has no len()"))
  }

  /** An object with the given keys and values, in order. */
  function Zip(ks: seq<string>, vs: seq<Value>): (o: Obj)
    requires |ks| == |vs|
    ensures Keys(o) == ks
  {
    seq(|ks|, i requires 0 <= i < |ks| => Field(ks[i], vs[i]))
  }

  /**
   * `extract_metadata(info)`: the 17-key record with the derived `year_uploaded` and
   * `tag_count`; raises when the year cannot be computed or the tags have no length.
   */
  function ExtractMetadata(info: Obj): (r: Result<Obj, Exc>)
    ensures r.Ok? <==> YearUploaded(Get(info, "upload_date")).Ok? && Len(TagsOf(info)).Ok?
    ensures r.Ok? ==> Keys(r.value) == MetadataKeys
  {
    var uploadDate := Get(info, "upload_date");
    var tags := TagsOf(info);
    match YearUploaded(uploadDate)
    case Err(e) => Err(e)
    case Ok(year) =>
      match Len(tags)
      case Err(e) => Err(e)
      case Ok(count) => Ok(Zip(MetadataKeys, MetadataValues(info, year, count)))
  }

  /** The values of the dict literal, key by key in the order of `MetadataKeys`. */
  function MetadataValues(info: Obj, year: Value, count: int): (vs: seq<Value>)
    ensures |vs| == |MetadataKeys|
  {
    [Get(info, "id"), Get(info, "title"), Get(info, "uploader"), Get(info, "uploader_id"),
     Get(info, "channel"), Get(info, "track"), Get(info, "artist"), Get(info, "album"),
     Get(info, "description"), TagsOf(info), Get(info, "duration"), Get(info, "upload_date"),
     Get(info, "view_count"), Get(info, "like_count"), Get(info, "webpage_url"),
     year, Int(count)]
  }

  lemma {:induction false} MetadataKeysDistinct()
    ensures forall i, j :: 0 <= i < j < |MetadataKeys| ==> MetadataKeys[i] != MetadataKeys[j]
  {
  }

  /** The value `extract_metadata` stores under the key at position `i`. */
  lemma {:induction false} GetMetadataAt(info: Obj, year: Value, count: int, i: nat)
    requires i < |MetadataKeys|
    ensures Get(Zip(MetadataKeys, MetadataValues(info, year, count)), MetadataKeys[i])
            == MetadataValues(info, year, count)[i]
  {
    MetadataKeysDistinct();
    GetFirst(Zip(MetadataKeys, MetadataValues(info, year, count)), i, MetadataKeys[i]);
  }

  /**
   * A successful `extract_metadata` copies the fields at the positions of `MetadataKeys`
   * other than `tags`, `duration_seconds` and the two derived ones verbatim, missing ones as None.
   */
  lemma {:induction false} ExtractMetadataCopies(info: Obj, i: nat)
    requires ExtractMetadata(info).Ok?
    requires i < 15 && i != 9 && i != 10
    ensures Get(ExtractMetadata(info).value, MetadataKeys[i]) == Get(info, MetadataKeys[i])
  {
    var year := YearUploaded(Get(info, "upload_date")).value;
    var count := Len(TagsOf(info)).value;
    GetMetadataAt(info, year, count, i);
  }

  /**
   * The renamed and derived fields of a successful `extract_metadata`: `duration_seconds`
   * from `duration`, `tags` defaulting to the empty list, `tag_count == len(tags)`, and
   * `year_uploaded` from the first four characters of `upload_date`, None when that is falsy.
   */
  lemma {:induction false} ExtractMetadataDerived(info: Obj)
    requires ExtractMetadata(info).Ok?
    ensures var md := ExtractMetadata(info).value;
      && Get(md, "duration_seconds") == Get(info, "duration")
      && Get(md, "tags") == TagsOf(info)
      && Len(Get(md, "tags")).Ok?
      && Get(md, "tag_count") == Int(Len(Get(md, "tags")).value)
      && Ok(Get(md, "year_uploaded")) == YearUploaded(Get(info, "upload_date"))
      && (Get(md, "year_uploaded") == Null <==> !Truthy(Get(info, "upload_date")))
  {
    var year := YearUploaded(Get(info, "upload_date")).value;
    var count := Len(TagsOf(info)).value;
    GetMetadataAt(info, year, count, 9);
    GetMetadataAt(info, year, count, 10);
    GetMetadataAt(info, year, count, 15);
    GetMetadataAt(info, year, count, 16);
  }

  /** `upload_date="20230115"` gives `year_uploaded=2023`. */
  lemma {:induction false} YearUploadedExample()
    ensures YearUploaded(Str("20230115")) == Ok(Int(2023))
  {
    var head := "2023";
    assert "20230115"[..4] == head;
    assert !IsSpace(head[0]) && !IsSpace(head[3]);
    assert LStrip(head) == head;
    assert RStrip(head) == head;
    assert AllDigits(head);
    assert head[..3] == "202" && head[..2] == "20" && head[..1] == "2" && head[..0] == "";
    assert DigitsValue("2") == 2 by { assert "2"[..0] == ""; }
    assert DigitsValue("20") == 20 by { assert "20"[..1] == "2"; }
    assert DigitsValue("202") == 202 by { assert "202"[..2] == "20"; }
    assert DigitsValue(head) == 2023;
  }
}
