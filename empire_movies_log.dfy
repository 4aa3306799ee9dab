/** The log analysis of empire_scraper/src/empire_movies.py: the worker log is
    read back as a table, its error lines are classified, and the records whose
    review fetch failed are split into those worth another attempt and those
    to drop. */
module EmpireMoviesLog {
  import opened Base
  import opened PyStr
  import opened Records
  import Movie

  // ----------------------------------------------------------------------
  // Lines and the log table
  // ----------------------------------------------------------------------

  /** `__line_splitter`: the `|`-separated fields of a line, each stripped. */
  function LineSplitter(line: string): (fields: seq<string>)
    ensures |fields| == multiset(line)['|'] + 1
    ensures forall k :: 0 <= k < |fields| ==> IsTrimmed(fields[k])
  {
    StripAll(Split(line, '|'))
  }

  /** A line written as trimmed, `|`-free fields joined by `|` splits back
      into exactly those fields. */
  lemma LineSplitterJoin(fields: seq<string>)
    requires |fields| > 0
    requires forall k :: 0 <= k < |fields| ==> IsTrimmed(fields[k]) && '|' !in fields[k]
    ensures LineSplitter(Join(fields, "|")) == fields
  {
    SplitJoin(fields, '|');
    forall k | 0 <= k < |fields|
      ensures Strip(fields[k]) == fields[k]
    {
      StripTrimmed(fields[k]);
    }
  }

  /** The log table's columns: asctime, filename, funcName, lineno,
      levelname, message0, message1, message2. */
  const Columns: nat := 8
  const LevelColumn := 4
  const Message0 := 5
  const Message1 := 6
  const Message2 := 7

  /** A row of the log table; `None` fills the cells a short line lacks. */
  type Row = seq<Option<string>>

  /** The width of the widest line. */
  function Widest(split: seq<seq<string>>): (w: nat)
    ensures forall k :: 0 <= k < |split| ==> |split[k]| <= w
    ensures |split| > 0 ==> exists k :: 0 <= k < |split| && |split[k]| == w
  {
    if |split| == 0 then 0
    else
      var w := Widest(split[1..]);
      assert forall k :: 1 <= k < |split| ==> split[k] == split[1..][k - 1];
      if |split[0]| > w then |split[0]| else w
  }

  /** A line's fields padded with `None` to the table width. */
  function PadRow(fields: seq<string>, width: nat): (row: Row)
    requires |fields| <= width
    ensures |row| == width
    ensures forall c :: 0 <= c < width ==> row[c] == if c < |fields| then Some(fields[c]) else None
  {
    seq(width, c requires 0 <= c < width => if c < |fields| then Some(fields[c]) else None)
  }

  /** `pd.DataFrame(data=lines, columns=columns)` over the split lines:
      short lines are padded with `None`; the table is refused when a line
      has more than eight fields, or when every line has fewer. */
  function Frame(lines: seq<string>): (r: Result<seq<Row>>)
    ensures r.Err? <==>
      (exists k :: 0 <= k < |lines| && |LineSplitter(lines[k])| > Columns) ||
      (|lines| > 0 && forall k :: 0 <= k < |lines| ==> |LineSplitter(lines[k])| < Columns)
    ensures r.Ok? ==> |r.value| == |lines|
    ensures r.Ok? ==> forall k, c :: 0 <= k < |lines| && 0 <= c < Columns ==>
      |r.value[k]| == Columns &&
      r.value[k][c] == if c < |LineSplitter(lines[k])| then Some(LineSplitter(lines[k])[c]) else None
  {
    var split := seq(|lines|, k requires 0 <= k < |lines| => LineSplitter(lines[k]));
    assert forall k :: 0 <= k < |lines| ==> split[k] == LineSplitter(lines[k]);
    if |lines| > 0 && Widest(split) != Columns then
      assert Widest(split) > Columns ==> exists k :: 0 <= k < |lines| && |LineSplitter(lines[k])| > Columns;
      Err("ValueError")
    else Ok(seq(|lines|, k requires 0 <= k < |lines| => PadRow(split[k], Columns)))
  }

  predicate IsErrorRow(row: Row)
  {
    |row| == Columns && row[LevelColumn] == Some("ERROR")
  }

  /** `df_log_file.query('levelname == "ERROR"')`. */
  function ErrorRows(rows: seq<Row>): (errors: seq<Row>)
    ensures |errors| <= |rows|
    ensures forall row :: row in errors <==> row in rows && IsErrorRow(row)
    ensures errors == [] <==> forall row :: row in rows ==> !IsErrorRow(row)
  {
    if rows == [] then []
    else
      var rest := ErrorRows(rows[1..]);
      assert forall row :: row in rows <==> row == rows[0] || row in rows[1..];
      if IsErrorRow(rows[0]) then [rows[0]] + rest else rest
  }

  // ----------------------------------------------------------------------
  // Classifying one error
  // ----------------------------------------------------------------------

  /** `__analyze_error_message` on `message0` and `message2`: an error is
      worth another attempt unless the fifth `/`-segment of the address starts
      with "55", the address has more than six `/`, or the error is a 404.
      An address with fewer than five segments raises `IndexError`, a missing
      one `AttributeError`. */
  function AnalyzeErrorMessage(m0: Option<string>, m2: Option<string>): (r: Result<bool>)
    ensures r.Ok? <==> m2.Some? && multiset(m2.value)['/'] >= 4
    ensures r.Ok? ==> (r.value <==>
      !("55" <= Split(m2.value, '/')[4]) && multiset(m2.value)['/'] <= 6 && m0 != Some("404"))
  {
    match m2
    case None => Err("AttributeError")
    case Some(url) =>
      var segments := Split(url, '/');
      if |segments| < 5 then Err("IndexError")
      else if "55" <= segments[4] then Ok(false)
      else if multiset(url)['/'] > 6 then Ok(false)
      else if m0 == Some("404") then Ok(false)
      else Ok(true)
  }

  /** The `/`-separated segments of a review page's address. */
  function ReviewUrlParts(slug: string): seq<string>
  {
    ["https:", "", "www.empireonline.com", "movies", slug, "review", ""]
  }

  /** The address of a review page:
      `https://www.empireonline.com/movies/<slug>/review/`. */
  function ReviewUrl(slug: string): string
  {
    Join(ReviewUrlParts(slug), "/")
  }

  lemma ReviewUrlSplit(slug: string)
    requires '/' !in slug
    ensures Split(ReviewUrl(slug), '/') == ReviewUrlParts(slug)
  {
    var parts := ReviewUrlParts(slug);
    forall k | 0 <= k < |parts|
      ensures '/' !in parts[k]
    {
    }
    SplitJoin(parts, '/');
  }

  /** A review page that failed is worth another attempt exactly when its
      slug does not start with "55"; a 404 never is. */
  lemma ReviewUrlSolvable(m0: string, slug: string)
    requires '/' !in slug
    ensures AnalyzeErrorMessage(Some(m0), Some(ReviewUrl(slug))) == Ok(!("55" <= slug) && m0 != "404")
  {
    ReviewUrlSplit(slug);
    var url := ReviewUrl(slug);
    assert |Split(url, '/')| == 7 && Split(url, '/')[4] == slug;
    assert multiset(url)['/'] == 6;
  }

  /** The classification of one error row. */
  function Classify(row: Row): Result<bool>
    requires |row| == Columns
  {
    AnalyzeErrorMessage(row[Message0], row[Message2])
  }

  /** The exception of the first error row that cannot be classified. */
  function FirstFailure(errors: seq<Row>): (e: Option<string>)
    requires forall row :: row in errors ==> |row| == Columns
    ensures e.None? <==> forall row :: row in errors ==> Classify(row).Ok?
  {
    if errors == [] then None
    else
      assert forall row :: row in errors <==> row == errors[0] || row in errors[1..];
      match Classify(errors[0])
      case Err(e) => Some(e)
      case Ok(_) => FirstFailure(errors[1..])
  }

  // ----------------------------------------------------------------------
  // The solvable and the non-solvable records
  // ----------------------------------------------------------------------

  predicate IsFetchFailure(row: Row)
  {
    |row| == Columns && row[Message0] == Some("RequestsGetFailed")
  }

  /** `message1` of the review-fetch failures worth another attempt. */
  function SolvableKeys(errors: seq<Row>): (keys: set<Option<string>>)
    requires forall row :: row in errors ==> |row| == Columns
    ensures keys <= FailedKeys(errors)
  {
    set row | row in errors && IsFetchFailure(row) && Classify(row) == Ok(true) :: row[Message1]
  }

  /** `message1` of every review-fetch failure. */
  function FailedKeys(errors: seq<Row>): set<Option<string>>
  {
    set row | row in errors && IsFetchFailure(row) :: row[Message1]
  }

  /** The entries of `movies` whose key is listed. */
  function Restrict(movies: Movies, keys: set<Option<string>>): (r: Movies)
    ensures forall k :: k in r <==> k in movies && Some(k) in keys
    ensures forall k :: k in r ==> r[k] == movies[k]
  {
    map k | k in movies && Some(k) in keys :: movies[k]
  }

  /** `analyze_log_file` on the log's lines and `self.movies`: no errors give
      two empty dictionaries; otherwise the records to retry and the records
      to drop, both taken unchanged from `movies` and never sharing a key. */
  function AnalyzeLogFile(lines: seq<string>, movies: Movies): (r: Result<(Movies, Movies)>)
    ensures r.Ok? ==> r.value.0.Keys !! r.value.1.Keys
    ensures r.Ok? ==> r.value.0.Keys <= movies.Keys && r.value.1.Keys <= movies.Keys
    ensures r.Ok? ==> forall k :: k in r.value.0 ==> r.value.0[k] == movies[k]
    ensures r.Ok? ==> forall k :: k in r.value.1 ==> r.value.1[k] == movies[k]
  {
    match Frame(lines)
    case Err(e) => Err(e)
    case Ok(rows) =>
      var errors := ErrorRows(rows);
      if |errors| == 0 then Ok((map[], map[]))
      else
        match FirstFailure(errors)
        case Some(e) => Err(e)
        case None =>
          var solvable := SolvableKeys(errors);
          Ok((Restrict(movies, solvable), Restrict(movies, FailedKeys(errors) - solvable)))
  }

  // ----------------------------------------------------------------------
  // The analysis stated on the lines themselves
  // ----------------------------------------------------------------------

  /** The line is an error line of at least five fields. */
  predicate IsErrorLine(line: string)
  {
    var f := LineSplitter(line); |f| > LevelColumn && f[LevelColumn] == "ERROR"
  }

  /** The line reports that the review fetch of record `key` failed. */
  predicate ReportsFailure(line: string, key: string)
  {
    var f := LineSplitter(line);
    |f| == Columns && f[LevelColumn] == "ERROR" && f[Message0] == "RequestsGetFailed" && f[Message1] == key
  }

  /** The failure the line reports is worth another attempt. */
  predicate Retryable(line: string)
  {
    var f := LineSplitter(line);
    |f| == Columns && AnalyzeErrorMessage(Some(f[Message0]), Some(f[Message2])) == Ok(true)
  }

  /** A readable log without error lines leaves nothing to solve and nothing
      to drop. */
  lemma AnalyzeLogFileNoErrors(lines: seq<string>, movies: Movies)
    requires Frame(lines).Ok?
    requires forall k :: 0 <= k < |lines| ==> !IsErrorLine(lines[k])
    ensures AnalyzeLogFile(lines, movies) == Ok((map[], map[]))
  {
    var rows := Frame(lines).value;
    forall row | row in rows
      ensures !IsErrorRow(row)
    {
      var k :| 0 <= k < |rows| && rows[k] == row;
      if |LineSplitter(lines[k])| <= LevelColumn {
        assert row[LevelColumn] == None;
      } else {
        assert !IsErrorLine(lines[k]);
      }
    }
  }

  /** Row `k` of the table reports what line `k` reports. */
  lemma LineRow(lines: seq<string>, k: int, key: string)
    requires Frame(lines).Ok? && 0 <= k < |lines|
    ensures var row := Frame(lines).value[k];
      ReportsFailure(lines[k], key) <==>
      IsErrorRow(row) && IsFetchFailure(row) && row[Message1] == Some(key) && row[Message2].Some?
    ensures ReportsFailure(lines[k], key) ==>
      (Retryable(lines[k]) <==> Classify(Frame(lines).value[k]) == Ok(true))
  {
    var f := LineSplitter(lines[k]);
    var row := Frame(lines).value[k];
    assert |f| <= Columns;
    if row[Message2].Some? {
      assert Message2 < |f|;
    }
    if |f| == Columns {
      assert row[Message0] == Some(f[Message0]) && row[Message2] == Some(f[Message2]);
    }
  }

  /** A record's failure is worth another attempt in the table exactly when
      some line reports it with an address worth another attempt. */
  lemma SolvableKeysOfLines(lines: seq<string>, key: string)
    requires Frame(lines).Ok?
    ensures Some(key) in SolvableKeys(ErrorRows(Frame(lines).value)) <==>
      exists k :: 0 <= k < |lines| && ReportsFailure(lines[k], key) && Retryable(lines[k])
  {
    if Some(key) in SolvableKeys(ErrorRows(Frame(lines).value)) {
      var k := SolvableKeyHasLine(lines, key);
    }
    if exists k :: 0 <= k < |lines| && ReportsFailure(lines[k], key) && Retryable(lines[k]) {
      var k :| 0 <= k < |lines| && ReportsFailure(lines[k], key) && Retryable(lines[k]);
      LineRow(lines, k, key);
      assert Frame(lines).value[k] in ErrorRows(Frame(lines).value);
    }
  }

  lemma SolvableKeyHasLine(lines: seq<string>, key: string) returns (k: int)
    requires Frame(lines).Ok?
    requires Some(key) in SolvableKeys(ErrorRows(Frame(lines).value))
    ensures 0 <= k < |lines| && ReportsFailure(lines[k], key) && Retryable(lines[k])
  {
    var rows := Frame(lines).value;
    var row :| row in ErrorRows(rows) && IsFetchFailure(row) && Classify(row) == Ok(true) && row[Message1] == Some(key);
    k := ErrorRowIndex(rows, row);
    LineRow(lines, k, key);
  }

  /** Once every error row is classified, the failed records of the table
      are those some line reports. */
  lemma FailedKeysOfLines(lines: seq<string>, key: string)
    requires Frame(lines).Ok?
    requires FirstFailure(ErrorRows(Frame(lines).value)).None?
    ensures Some(key) in FailedKeys(ErrorRows(Frame(lines).value)) <==>
      exists k :: 0 <= k < |lines| && ReportsFailure(lines[k], key)
  {
    if Some(key) in FailedKeys(ErrorRows(Frame(lines).value)) {
      var k := FailedKeyHasLine(lines, key);
    }
    if exists k :: 0 <= k < |lines| && ReportsFailure(lines[k], key) {
      var k :| 0 <= k < |lines| && ReportsFailure(lines[k], key);
      LineRow(lines, k, key);
      assert Frame(lines).value[k] in ErrorRows(Frame(lines).value);
    }
  }

  lemma FailedKeyHasLine(lines: seq<string>, key: string) returns (k: int)
    requires Frame(lines).Ok?
    requires FirstFailure(ErrorRows(Frame(lines).value)).None?
    requires Some(key) in FailedKeys(ErrorRows(Frame(lines).value))
    ensures 0 <= k < |lines| && ReportsFailure(lines[k], key)
  {
    var rows := Frame(lines).value;
    var row :| row in ErrorRows(rows) && IsFetchFailure(row) && row[Message1] == Some(key);
    assert Classify(row).Ok?;
    k := ErrorRowIndex(rows, row);
    LineRow(lines, k, key);
  }

  /** Where an error row sits in the table. */
  lemma ErrorRowIndex(rows: seq<Row>, row: Row) returns (k: int)
    requires row in ErrorRows(rows)
    ensures 0 <= k < |rows| && rows[k] == row
  {
    k :| 0 <= k < |rows| && rows[k] == row;
  }

  /** A record is retried exactly when some error line reports its review
      fetch failed at an address worth another attempt; it is dropped exactly
      when such lines exist and none of them is worth another attempt. */
  lemma AnalyzeLogFileKeys(lines: seq<string>, movies: Movies, key: string)
    requires AnalyzeLogFile(lines, movies).Ok?
    ensures key in AnalyzeLogFile(lines, movies).value.0 <==>
      key in movies && exists k :: 0 <= k < |lines| && ReportsFailure(lines[k], key) && Retryable(lines[k])
    ensures key in AnalyzeLogFile(lines, movies).value.1 <==>
      key in movies && (exists k :: 0 <= k < |lines| && ReportsFailure(lines[k], key)) &&
      forall k :: 0 <= k < |lines| && ReportsFailure(lines[k], key) ==> !Retryable(lines[k])
  {
    var rows := Frame(lines).value;
    var errors := ErrorRows(rows);
    if |errors| == 0 {
      forall k | 0 <= k < |lines| && ReportsFailure(lines[k], key)
        ensures false
      {
        LineRow(lines, k, key);
      }
    } else {
      SolvableKeysOfLines(lines, key);
      FailedKeysOfLines(lines, key);
    }
  }

  // ----------------------------------------------------------------------
  // The failure line of a review fetch
  // ----------------------------------------------------------------------

  /** A log record as written to the worker log: the five leading fields and
      the message, separated by `|`. */
  function LogRecordText(asctime: string, filename: string, funcName: string, lineno: string,
                         levelname: string, message: string): string
  {
    Join([asctime, filename, funcName, lineno, levelname, message], "|")
  }

  /** A field that the line splitter gives back unchanged. */
  predicate Clean(f: string)
  {
    IsTrimmed(f) && '|' !in f
  }

  lemma NoteMessageJoin(tag: string, id: string, url: string)
    ensures Movie.NoteMessage(tag, id, url) == Join([tag, id, url], "|")
  {
    JoinCons(id, [url], "|");
    JoinCons(tag, [id, url], "|");
    assert [tag] + [id, url] == [tag, id, url];
  }

  /** A `tag|id|url` line of the review code is read back as eight fields:
      the five leading ones, then tag, id and address. */
  lemma NoteLineFields(asctime: string, filename: string, funcName: string, lineno: string,
                       levelname: string, tag: string, id: string, url: string)
    requires Clean(asctime) && Clean(filename) && Clean(funcName) && Clean(lineno)
    requires Clean(levelname) && Clean(tag) && Clean(id) && Clean(url)
    ensures LineSplitter(LogRecordText(asctime, filename, funcName, lineno, levelname,
                                       Movie.NoteMessage(tag, id, url)))
         == [asctime, filename, funcName, lineno, levelname, tag, id, url]
  {
    var xs := [asctime, filename, funcName, lineno, levelname];
    var ys := [tag, id, url];
    NoteMessageJoin(tag, id, url);
    assert [asctime, filename, funcName, lineno, levelname, Movie.NoteMessage(tag, id, url)] == xs + [Join(ys, "|")];
    JoinFlatten(xs, ys, "|");
    var fields := xs + ys;
    assert fields == [asctime, filename, funcName, lineno, levelname, tag, id, url];
    LineSplitterJoin(fields);
  }

  /** The failure line `get_soup` leaves for a record whose review page
      could not be fetched is read back as a failure of that record, and it
      is retried exactly when its address is worth another attempt. */
  lemma FetchFailureLine(asctime: string, filename: string, funcName: string, lineno: string,
                         id: string, url: string)
    requires Clean(asctime) && Clean(filename) && Clean(funcName) && Clean(lineno) && Clean(id) && Clean(url)
    ensures var line := LogRecordText(asctime, filename, funcName, lineno, "ERROR",
                                      Movie.NoteMessage("RequestsGetFailed", id, url));
      ReportsFailure(line, id) &&
      (Retryable(line) <==> AnalyzeErrorMessage(Some("RequestsGetFailed"), Some(url)) == Ok(true))
  {
    assert Clean("ERROR") && Clean("RequestsGetFailed");
    NoteLineFields(asctime, filename, funcName, lineno, "ERROR", "RequestsGetFailed", id, url);
  }
}
