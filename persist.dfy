/**
 * One fetch-and-persist attempt for one URL: the extractor call (an oracle here), the record
 * builder, the filename sanitiser `safe_title` and the JSON write (`save_metadata`,
 * `save_metadata_parallel`, `save_metadata_to_file`), plus the non-raising per-URL
 * wrapper that turns every failure into an error result.
 */
module Persist {
  import opened Values
  import opened Text
  import opened Extraction

  /** The characters `safe_title` keeps: alphanumerics, space, underscore and hyphen. */
  predicate Allowed(c: char) {
    IsAlnum(c) || c == ' ' || c == '_' || c == '-'
  }

  /** The character filter of `safe_title` on a text title: the allowed characters, in order. */
  function KeepAllowed(title: string): (r: string)
    ensures |r| <= |title|
  {
    if title == [] then []
    else (if Allowed(title[0]) then [title[0]] else []) + KeepAllowed(title[1..])
  }

  /** The sanitised filename stem: the allowed characters in order, trailing whitespace removed. */
  function SafeTitle(title: string): string {
    RStrip(KeepAllowed(title))
  }

  lemma {:induction false} KeepAllowedChars(title: string)
    ensures forall i :: 0 <= i < |KeepAllowed(title)| ==> Allowed(KeepAllowed(title)[i])
  {
    if title != [] {
      KeepAllowedChars(title[1..]);
    }
  }

  /** The filter works character by character: filtering a concatenation concatenates the results. */
  lemma {:induction false} KeepAllowedAppend(a: string, b: string)
    ensures KeepAllowed(a + b) == KeepAllowed(a) + KeepAllowed(b)
  {
    if a != [] {
      assert (a + b)[0] == a[0];
      assert (a + b)[1..] == a[1..] + b;
      KeepAllowedAppend(a[1..], b);
    } else {
      assert a + b == b;
    }
  }

  /** A single character is kept exactly when it is allowed. */
  lemma {:induction false} KeepAllowedChar(c: char)
    ensures KeepAllowed([c]) == if Allowed(c) then [c] else []
  {
    assert [c][1..] == [];
  }

  /**
   * Every allowed character of a title is kept, in its place among the other kept ones: the
   * filtered title is the filtered text before position `i`, then the character at `i` when it
   * is allowed, then the filtered text after it.
   */
  lemma {:induction false} KeepAllowedAt(title: string, i: nat)
    requires i < |title|
    ensures KeepAllowed(title) ==
      KeepAllowed(title[..i]) + (if Allowed(title[i]) then [title[i]] else []) + KeepAllowed(title[i + 1..])
  {
    assert title == title[..i] + ([title[i]] + title[i + 1..]);
    KeepAllowedAppend(title[..i], [title[i]] + title[i + 1..]);
    KeepAllowedAppend([title[i]], title[i + 1..]);
    KeepAllowedChar(title[i]);
  }

  /** A title made only of allowed characters passes the filter unchanged. */
  lemma {:induction false} KeepAllowedIdentity(title: string)
    requires forall i :: 0 <= i < |title| ==> Allowed(title[i])
    ensures KeepAllowed(title) == title
  {
    if title != [] {
      KeepAllowedIdentity(title[1..]);
      assert [title[0]] + title[1..] == title;
    }
  }

  /**
   * `safe_title` holds only allowed characters, does not end in whitespace, and is exactly
   * the filtered title with nothing but spaces cut from its end.
   */
  lemma {:induction false} SafeTitleSpec(title: string)
    ensures forall i :: 0 <= i < |SafeTitle(title)| ==> Allowed(SafeTitle(title)[i])
    ensures SafeTitle(title) == [] || SafeTitle(title)[|SafeTitle(title)| - 1] != ' '
    ensures KeepAllowed(title)[..|SafeTitle(title)|] == SafeTitle(title)
    ensures forall i :: |SafeTitle(title)| <= i < |KeepAllowed(title)| ==> KeepAllowed(title)[i] == ' '
  {
    var k := KeepAllowed(title);
    KeepAllowedChars(title);
    RStripSpec(k);
    forall i | |SafeTitle(title)| <= i < |k| ensures k[i] == ' ' {
      assert IsSpace(k[i]) && Allowed(k[i]);
    }
  }

  /** Sanitising twice changes nothing. */
  lemma {:induction false} SafeTitleIdempotent(title: string)
    ensures SafeTitle(SafeTitle(title)) == SafeTitle(title)
  {
    var s := SafeTitle(title);
    SafeTitleSpec(title);
    KeepAllowedIdentity(s);
  }

  /** Two different titles can share one filename: the later write overwrites the earlier file. */
  lemma {:induction false} SafeTitleCollision()
    ensures SafeTitle("A?") == SafeTitle("A!") == "A"
  {
    assert KeepAllowed("?") == [] by { assert "?"[1..] == []; }
    assert KeepAllowed("!") == [] by { assert "!"[1..] == []; }
    assert KeepAllowed("A?") == "A" by { assert "A?"[1..] == "?"; }
    assert KeepAllowed("A!") == "A" by { assert "A!"[1..] == "!"; }
    assert RStrip("A") == "A" by { assert !IsSpace('A'); }
  }

  /**
   * One item a title yields when iterated is kept when it is alphanumeric (non-empty, every
   * character alphanumeric) or is one of the strings space, underscore and hyphen.
   */
  predicate AllowedPiece(p: string) {
    (p != [] && forall k :: 0 <= k < |p| ==> IsAlnum(p[k])) || p == " " || p == "_" || p == "-"
  }

  /** The items of a string title: its characters, one by one. */
  function Chars(s: string): (ps: seq<string>)
    ensures |ps| == |s|
  {
    seq(|s|, i requires 0 <= i < |s| => [s[i]])
  }

  /** The kept items, joined with nothing between them. */
  function KeepPieces(ps: seq<string>): string {
    if ps == [] then [] else (if AllowedPiece(ps[0]) then ps[0] else []) + KeepPieces(ps[1..])
  }

  /** Filtering the characters of a string one by one is the character filter. */
  lemma {:induction false} KeepPiecesOfChars(s: string)
    ensures KeepPieces(Chars(s)) == KeepAllowed(s)
  {
    if s != [] {
      assert Chars(s)[0] == [s[0]];
      assert Chars(s)[1..] == Chars(s[1..]);
      assert AllowedPiece([s[0]]) <==> Allowed(s[0]) by {
        assert [s[0]] == " " <==> s[0] == ' ';
        assert [s[0]] == "_" <==> s[0] == '_';
        assert [s[0]] == "-" <==> s[0] == '-';
      }
      KeepPiecesOfChars(s[1..]);
    }
  }

  /** Whatever the items, only allowed characters come out of the filter. */
  lemma {:induction false} KeepPiecesChars(ps: seq<string>)
    ensures forall i :: 0 <= i < |KeepPieces(ps)| ==> Allowed(KeepPieces(ps)[i])
  {
    if ps != [] {
      KeepPiecesChars(ps[1..]);
      var head := if AllowedPiece(ps[0]) then ps[0] else [];
      assert KeepPieces(ps) == head + KeepPieces(ps[1..]);
      forall i | 0 <= i < |head| ensures Allowed(head[i]) {
      }
    }
  }

  /**
   * The file-name stem `safe_title` computes from a title of any type: the kept items of the
   * iterated title, trailing whitespace removed. A text title gives `SafeTitle`; a list of
   * strings is iterated element by element; any other value cannot be iterated (TypeError).
   */
  function TitleStem(title: Value): (r: Option<string>)
    ensures r.Some? <==> title.Str? || title.StrList?
    ensures title.Str? ==> r == Some(SafeTitle(title.s))
    ensures r.Some? ==> forall i :: 0 <= i < |r.value| ==> Allowed(r.value[i])
  {
    match title
    case Str(s) =>
      KeepPiecesOfChars(s);
      SafeTitleSpec(s);
      Some(RStrip(KeepPieces(Chars(s))))
    case StrList(items) =>
      KeepPiecesChars(items);
      RStripSpec(KeepPieces(items));
      Some(RStrip(KeepPieces(items)))
    case _ => None
  }

  /** A list title keeps its alphanumeric elements: `["ab", "c!", " "]` gives the stem `ab`. */
  lemma {:induction false} TitleStemOfList()
    ensures TitleStem(StrList(["ab", "c!", " "])) == Some("ab")
  {
    var ps := ["ab", "c!", " "];
    assert AllowedPiece("ab") by { assert IsAlnum('a') && IsAlnum('b'); }
    assert !AllowedPiece("c!") by { assert !IsAlnum("c!"[1]); }
    assert ps[1..] == ["c!", " "] && ps[1..][1..] == [" "] && ps[1..][1..][1..] == [];
    assert KeepPieces(ps) == "ab" + " ";
    assert "ab " == "ab" + [' '];
    assert RStrip("ab" + [' ']) == "ab" by {
      RStripSpec("ab" + [' ']);
      assert !IsSpace('b');
    }
  }

  /** What the world answers to one attempt: the extractor's result and whether the file write succeeds. */
  datatype AttemptEnv = AttemptEnv(fetched: Result<Obj, string>, writeOk: bool)

  /** A persisted record: its metadata, its title and the name of the JSON file written. */
  datatype Saved = Saved(metadata: Obj, title: Value, fileName: string)

  /**
   * Saving a record under its own title: a title that cannot be iterated raises
   * TypeError; otherwise the file `<stem>.json` is written, which may fail.
   */
  function SaveMetadata(metadata: Obj, writeOk: bool): (r: Result<Saved, Exc>)
    ensures r.Ok? <==> TitleStem(Get(metadata, "title")).Some? && writeOk
    ensures r.Ok? ==> r.value == Saved(metadata, Get(metadata, "title"), TitleStem(Get(metadata, "title")).value + ".json")
    ensures r.Err? && TitleStem(Get(metadata, "title")).None? ==> r.error.TypeError?
    ensures r.Err? && TitleStem(Get(metadata, "title")).Some? ==>
      r.error == WriteError(TitleStem(Get(metadata, "title")).value + ".json")
  {
    var title := Get(metadata, "title");
    match TitleStem(title)
    case Some(stem) =>
      var fileName := stem + ".json";
      if writeOk then Ok(Saved(metadata, title, fileName)) else Err(WriteError(fileName))
    case None => Err(TypeError("'" + TypeName(title) + "' object is not iterable"))
  }

  /** One attempt: ask the extractor, build the record from its answer, then save the record under its title. */
  function RunAttempt(env: AttemptEnv): Result<Saved, Exc> {
    match env.fetched
    case Err(msg) => Err(ExtractorError(msg))
    case Ok(info) =>
      match ExtractMetadata(info)
      case Err(e) => Err(e)
      case Ok(metadata) => SaveMetadata(metadata, env.writeOk)
  }

  predicate Succeeds(env: AttemptEnv) {
    RunAttempt(env).Ok?
  }

  /**
   * An attempt succeeds exactly when the extractor answers, the record builds, its title can
   * be iterated (text or a list of strings) and the write succeeds; what is then on disk is
   * the built record under the sanitised title, so a success implies the record is persisted.
   */
  lemma {:induction false} RunAttemptSpec(env: AttemptEnv)
    ensures Succeeds(env) <==>
      env.fetched.Ok? && ExtractMetadata(env.fetched.value).Ok?
      && TitleStem(Get(ExtractMetadata(env.fetched.value).value, "title")).Some? && env.writeOk
    ensures Succeeds(env) ==>
      var md := ExtractMetadata(env.fetched.value).value;
      && RunAttempt(env).value.metadata == md
      && RunAttempt(env).value.title == Get(md, "title")
      && TitleStem(Get(md, "title")).Some?
      && RunAttempt(env).value.fileName == TitleStem(Get(md, "title")).value + ".json"
      && Len(Get(md, "tags")).Ok?
      && Get(md, "tag_count") == Int(Len(Get(md, "tags")).value)
  {
    if Succeeds(env) {
      ExtractMetadataDerived(env.fetched.value);
    }
  }

  /** The message `str(e)` of a caught exception (a KeyError shows its key quoted). */
  function Message(e: Exc): string {
    match e
    case KeyError(k) => "'" + k + "'"
    case ValueError(m) => m
    case TypeError(m) => m
    case UnexpectedColumn(c) => "Unexpected column: " + c
    case ExtractorError(m) => m
    case WriteError(p) => "cannot write " + p
    case NameError(n) => "cannot access local variable '" + n + "' where it is not associated with a value"
  }

  /**
   * What a non-raising per-URL wrapper reports: the success and error dicts of the parallel
   * path (status, url, and the title or the error text), and the "Done" and "Failed to
   * download" lines the other wrappers print (with the saved file's name).
   */
  datatype ItemResult =
    | ItemSuccess(url: string, title: Value, fileName: string)
    | ItemError(url: string, error: string)

  /**
   * The per-URL wrapper of processing/parallel_processing.py, parallel_processing.py,
   * extract_videos.py and bda_boilerplate.py: one attempt, every exception caught and
   * turned into an error result, none escapes.
   */
  function DownloadItem(url: string, env: AttemptEnv): (r: ItemResult)
    ensures r.url == url
    ensures r.ItemSuccess? <==> Succeeds(env)
    ensures r.ItemError? ==> r.error == Message(RunAttempt(env).error)
    ensures r.ItemSuccess? ==>
      && Get(ExtractMetadata(env.fetched.value).value, "title") == r.title
      && TitleStem(r.title).Some?
      && r.fileName == TitleStem(r.title).value + ".json"
  {
    match RunAttempt(env)
    case Ok(saved) => ItemSuccess(url, saved.title, saved.fileName)
    case Err(e) => ItemError(url, Message(e))
  }
}
