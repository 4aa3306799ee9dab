/** empire_scraper/empire_movie.py: one review page turned into fields of a
    movie record. The HTML is represented by the text its selectors find. */
module Movie {
  import opened Base
  import opened PyStr
  import opened Records
  import opened EmpireHelpers

  /** A `<time>` element: its `datetime` attribute and whether it holds a
      `<strong>` element. */
  datatype TimeTag = TimeTag(datetime: string, hasStrong: bool)

  /** What the selectors of the review code find on a review page. */
  datatype Page = Page(
    infoList: Option<string>,         // the key-line list, as `get_text('|')`
    stars: Option<string>,            // text of `span.stars--on`
    author: Option<string>,           // text of `div.author`
    datePublished: Option<string>,    // `datetime` of `time.datePublished`
    times: seq<TimeTag>,              // every `<time>` element, in page order
    introduction: Option<string>,     // text of the introduction heading
    paragraphs: Option<seq<string>>)  // texts of the `<p>` in `div.article__text`

  /** A line sent to the logger by the review code: an attempt line of the
      retry loop, or a `tag|id|url` line of its own. */
  datatype LogLine = Attempt(entry: Entry) | Note(level: Level, tag: string, id: string, url: string)

  function NoteMessage(tag: string, id: string, url: string): string
  {
    tag + "|" + id + "|" + url
  }

  function Attempts(entries: seq<Entry>): (lines: seq<LogLine>)
    ensures |lines| == |entries|
    ensures forall k :: 0 <= k < |entries| ==> lines[k] == Attempt(entries[k])
  {
    seq(|entries|, k requires 0 <= k < |entries| => Attempt(entries[k]))
  }

  /** The number of attempts `get_soup` allows the retry loop. */
  const ReviewAttempts := 5

  // ----------------------------------------------------------------------
  // The text of single fields
  // ----------------------------------------------------------------------

  /** `s[:10]`. */
  function First10(s: string): (r: string)
    ensures r <= s
    ensures |r| == if |s| < 10 then |s| else 10
  {
    if |s| < 10 then s else s[..10]
  }

  /** A date attribute as stored: stripped, then cut to ten characters. */
  function DateText(datetime: string): string
  {
    First10(Strip(datetime))
  }

  /** The position of the last `<time>` holding a `<strong>`, if any. */
  function LastStrongAt(times: seq<TimeTag>): (k: Option<nat>)
    ensures k.None? <==> forall j :: 0 <= j < |times| ==> !times[j].hasStrong
    ensures k.Some? ==> k.value < |times| && times[k.value].hasStrong
    ensures k.Some? ==> forall j :: k.value < j < |times| ==> !times[j].hasStrong
  {
    if times == [] then None
    else if times[|times| - 1].hasStrong then Some(|times| - 1)
    else
      var init := times[..|times| - 1];
      assert forall j :: 0 <= j < |init| ==> init[j] == times[j];
      LastStrongAt(init)
  }

  /** One more element: it is the last one holding a `<strong>` if it
      holds one, otherwise the earlier answer stands. */
  lemma LastStrongAtSnoc(times: seq<TimeTag>, i: nat)
    requires i < |times|
    ensures LastStrongAt(times[..i + 1]) ==
      if times[i].hasStrong then Some(i) else LastStrongAt(times[..i])
  {
    assert times[..i + 1][..i] == times[..i];
  }

  /** The `LastUpdate` date: that of the last `<time>` holding a `<strong>`. */
  function LastStrong(times: seq<TimeTag>): Option<string>
  {
    match LastStrongAt(times)
    case None => None
    case Some(k) => Some(DateText(times[k].datetime))
  }

  /** The `Review` field: the stripped paragraphs joined by newlines, or
      `None` without a text container or without paragraphs. */
  function ReviewText(paragraphs: Option<seq<string>>): Value
  {
    match paragraphs
    case None => Null
    case Some(ps) => if ps == [] then Null else Str(Join(StripAll(ps), "\n"))
  }

  /** The paragraphs can be read back from `Review` by splitting it at the
      newlines, as long as no stripped paragraph holds a newline of its own. */
  lemma ReviewTextParagraphs(ps: seq<string>)
    requires ps != []
    requires forall k :: 0 <= k < |ps| ==> '\n' !in Strip(ps[k])
    ensures ReviewText(Some(ps)).Str?
    ensures Split(ReviewText(Some(ps)).s, '\n') == StripAll(ps)
  {
    SplitJoin(StripAll(ps), '\n');
  }

  /** `RunningTime`: the number written by the digits of the value, in order,
      or `None` when it has none. */
  function RunningTime(value: string): Value
  {
    var digits := Keep(value, IsDigit);
    if digits == [] then Null else Int(DecimalValue(digits))
  }

  lemma {:induction false} KeepEmpty(s: string, p: char -> bool)
    ensures Keep(s, p) == [] <==> forall i :: 0 <= i < |s| ==> !p(s[i])
  {
    if s != [] {
      KeepEmpty(s[1..], p);
      assert forall i :: 1 <= i < |s| ==> s[1..][i - 1] == s[i];
    }
  }

  /** A running time is missing exactly when the value has no digit, and is
      never negative. */
  lemma RunningTimeNull(value: string)
    ensures RunningTime(value) == Null <==> forall i :: 0 <= i < |value| ==> !IsDigit(value[i])
    ensures RunningTime(value).Int? ==> RunningTime(value).i >= 0
  {
    KeepEmpty(value, IsDigit);
  }

  /** `"<n> mins"` gives the running time `n`. */
  lemma RunningTimeOfMinutes(n: nat)
    ensures RunningTime(NatToString(n) + " mins") == Int(n)
  {
    var s := NatToString(n);
    KeepAppend(s, " mins", IsDigit);
    KeepAll(s, IsDigit);
    KeepNone(" mins", IsDigit);
    assert s + [] == s;
    DecimalOfNatToString(n);
  }

  // ----------------------------------------------------------------------
  // Release dates: `strptime(value, '%d %b %Y').strftime('%Y-%m-%d')`
  // ----------------------------------------------------------------------

  /** The `%b` month names, in calendar order, in lower case. */
  const MonthNames: seq<string> :=
    ["jan", "feb", "mar", "apr", "may", "jun", "jul", "aug", "sep", "oct", "nov", "dec"]

  function Lower(s: string): string
  {
    MapChars(s, LowerChar)
  }

  /** The month named by `s`, compared without regard to case: 1 to 12. */
  function MonthNumber(s: string): (m: Option<nat>)
    ensures m.Some? ==> 1 <= m.value <= 12 && Lower(s) == MonthNames[m.value - 1]
  {
    MonthFrom(Lower(s), 0)
  }

  function MonthFrom(lower: string, i: nat): (m: Option<nat>)
    requires i <= 12
    ensures m.Some? ==> i < m.value <= 12 && lower == MonthNames[m.value - 1]
    decreases 12 - i
  {
    if i == 12 then None
    else if lower == MonthNames[i] then Some(i + 1)
    else MonthFrom(lower, i + 1)
  }

  predicate IsLeap(y: int)
  {
    y % 4 == 0 && (y % 100 != 0 || y % 400 == 0)
  }

  function DaysInMonth(m: int, y: int): int
    requires 1 <= m <= 12
  {
    if m == 2 then (if IsLeap(y) then 29 else 28)
    else if m == 4 || m == 6 || m == 9 || m == 11 then 30
    else 31
  }

  /** A calendar date `datetime` accepts. */
  predicate ValidDate(y: int, m: int, d: int)
  {
    1 <= y <= 9999 && 1 <= m <= 12 && 1 <= d <= DaysInMonth(m, y)
  }

  /** `%Y-%m-%d`. */
  function IsoDate(y: nat, m: nat, d: nat): string
  {
    Join([FormatInt(y, 4), FormatInt(m, 2), FormatInt(d, 2)], "-")
  }

  /** `datetime.strptime(value, '%d %b %Y').strftime('%Y-%m-%d')` on a
      stripped value: a day of one or two digits, a month name, a year of
      four digits, separated by whitespace; a date the calendar does not
      have raises `ValueError`. */
  function ReleaseDate(value: string): (r: Result<string>)
    requires IsTrimmed(value)
    ensures r.Ok? ==> exists y, m, d :: ValidDate(y, m, d) && r.value == IsoDate(y, m, d)
  {
    var parts := Words(value);
    if |parts| != 3 then Err("ValueError")
    else
      var day, month, year := parts[0], parts[1], parts[2];
      if !(1 <= |day| <= 2 && All(day, IsDigit) && |year| == 4 && All(year, IsDigit)) then Err("ValueError")
      else
        var d, y := DecimalValue(day), DecimalValue(year);
        match MonthNumber(month)
        case None => Err("ValueError")
        case Some(m) =>
          if ValidDate(y, m, d) then Ok(IsoDate(y, m, d)) else Err("ValueError")
  }

  lemma {:induction false} NatToStringLength(n: nat, k: nat)
    requires n < Pow10(k) && k > 0
    ensures |NatToString(n)| <= k
  {
    if n >= 10 {
      NatToStringLength(n / 10, k - 1);
    }
  }

  function Pow10(k: nat): nat
  {
    if k == 0 then 1 else 10 * Pow10(k - 1)
  }

  lemma FormatIntWidth(n: nat, k: nat)
    requires n < Pow10(k) && k > 0
    ensures |FormatInt(n, k)| == k
  {
    NatToStringLength(n, k);
  }

  lemma MonthNamesDistinct()
    ensures forall i, j :: 0 <= i < j < 12 ==> MonthNames[i] != MonthNames[j]
  {
    forall i, j | 0 <= i < j < 12 ensures MonthNames[i] != MonthNames[j] {
      assert MonthNames[i][0] != MonthNames[j][0] || MonthNames[i][1] != MonthNames[j][1]
        || MonthNames[i][2] != MonthNames[j][2];
    }
  }

  lemma MonthNamesAlpha(k: nat)
    requires k < 12
    ensures |MonthNames[k]| == 3 && All(MonthNames[k], IsAlpha)
  {
  }

  /** A spelling of month `m` in any case is read as month `m`. */
  lemma MonthNumberOfName(name: string, m: nat)
    requires 1 <= m <= 12 && Lower(name) == MonthNames[m - 1]
    ensures MonthNumber(name) == Some(m)
  {
    MonthNamesDistinct();
    MonthFromFinds(Lower(name), 0, m);
  }

  lemma {:induction false} MonthFromFinds(lower: string, i: nat, m: nat)
    requires i < m <= 12 && lower == MonthNames[m - 1]
    requires forall a, b :: 0 <= a < b < 12 ==> MonthNames[a] != MonthNames[b]
    ensures MonthFrom(lower, i) == Some(m)
    decreases 12 - i
  {
    if i + 1 != m {
      MonthFromFinds(lower, i + 1, m);
    }
  }

  lemma DayToken(d: nat)
    requires 1 <= d <= 31
    ensures var t := NatToString(d);
      1 <= |t| <= 2 && All(t, IsDigit) && All(t, NotSpace) && DecimalValue(t) == d
  {
    NatToStringLength(d, 2);
    DecimalOfNatToString(d);
  }

  lemma YearToken(y: nat)
    requires 1 <= y <= 9999
    ensures var t := FormatInt(y, 4);
      |t| == 4 && All(t, IsDigit) && All(t, NotSpace) && DecimalValue(t) == y
  {
    FormatIntWidth(y, 4);
    FormatIntValue(y, 4);
  }

  lemma MonthToken(name: string, m: nat)
    requires 1 <= m <= 12 && Lower(name) == MonthNames[m - 1]
    ensures |name| == 3 && All(name, NotSpace) && MonthNumber(name) == Some(m)
  {
    MonthNumberOfName(name, m);
    var low := MonthNames[m - 1];
    MonthNamesAlpha(m - 1);
    forall i | 0 <= i < |name| ensures NotSpace(name[i]) {
      assert LowerChar(name[i]) == low[i];
    }
  }

  /** `ReleaseDate` on a value whose three words are a day, a month name
      and a year of a valid date. */
  lemma ReleaseDateOfWords(value: string, y: nat, m: nat, d: nat, name: string)
    requires IsTrimmed(value) && ValidDate(y, m, d) && Lower(name) == MonthNames[m - 1]
    requires Words(value) == [NatToString(d), name, FormatInt(y, 4)]
    ensures ReleaseDate(value) == Ok(IsoDate(y, m, d))
  {
    DayToken(d);
    YearToken(y);
    MonthToken(name, m);
  }

  /** Three words joined by single spaces: stripped, and read back as the
      same three words. */
  lemma WordsOfThree(a: string, b: string, c: string)
    requires a != [] && b != [] && c != []
    requires All(a, NotSpace) && All(b, NotSpace) && All(c, NotSpace)
    ensures IsTrimmed(Join([a, b, c], " ")) && Words(Join([a, b, c], " ")) == [a, b, c]
  {
    var parts := [a, b, c];
    var value := Join(parts, " ");
    TokensJoin(parts, NotSpace, ' ');
    assert parts[1..] == [b, c] && [b, c][1..] == [c];
    assert Join([b, c], " ") == b + " " + c;
    assert value == a + " " + (b + " " + c);
    assert value[0] == a[0];
    assert value[|value| - 1] == c[|c| - 1];
  }

  /** Every valid date written as `"D Mon YYYY"`, the month name in any case,
      is read back and rewritten as `"YYYY-MM-DD"`. */
  lemma ReleaseDateRoundTrip(y: nat, m: nat, d: nat, name: string)
    requires ValidDate(y, m, d) && Lower(name) == MonthNames[m - 1]
    ensures var value := Join([NatToString(d), name, FormatInt(y, 4)], " ");
      IsTrimmed(value) && ReleaseDate(value) == Ok(IsoDate(y, m, d))
  {
    var value := Join([NatToString(d), name, FormatInt(y, 4)], " ");
    DayToken(d);
    YearToken(y);
    MonthToken(name, m);
    WordsOfThree(NatToString(d), name, FormatInt(y, 4));
    ReleaseDateOfWords(value, y, m, d, name);
  }

  /** The rewritten date reads back as the same year, month and day. */
  lemma IsoDateFields(y: nat, m: nat, d: nat)
    ensures var f := Split(IsoDate(y, m, d), '-');
      |f| == 3 && All(f[0], IsDigit) && All(f[1], IsDigit) && All(f[2], IsDigit) &&
      DecimalValue(f[0]) == y && DecimalValue(f[1]) == m && DecimalValue(f[2]) == d
  {
    var parts := [FormatInt(y, 4), FormatInt(m, 2), FormatInt(d, 2)];
    FormatIntValue(y, 4);
    FormatIntValue(m, 2);
    FormatIntValue(d, 2);
    forall k, i | 0 <= k < 3 && 0 <= i < |parts[k]| ensures parts[k][i] != '-' {
      assert IsDigit(parts[k][i]);
    }
    SplitJoin(parts, '-');
  }

  // ----------------------------------------------------------------------
  // The key-line list: `get_text('|').split('|')` reshaped into pairs
  // ----------------------------------------------------------------------

  /** `np.reshape(fields, (len // 2, 2))`: consecutive pairs, or `ValueError`
      when the count is odd. */
  function PairUp(fields: seq<string>): (r: Result<seq<(string, string)>>)
    ensures r.Ok? <==> |fields| % 2 == 0
    ensures r.Ok? ==> 2 * |r.value| == |fields|
  {
    if |fields| == 0 then Ok([])
    else if |fields| == 1 then Err("ValueError")
    else
      match PairUp(fields[2..])
      case Ok(rest) => Ok([(fields[0], fields[1])] + rest)
      case Err(e) => Err(e)
  }

  function Flatten(pairs: seq<(string, string)>): seq<string>
  {
    if pairs == [] then [] else [pairs[0].0, pairs[0].1] + Flatten(pairs[1..])
  }

  /** Pairing loses and reorders nothing. */
  lemma {:induction false} FlattenPairUp(fields: seq<string>)
    requires |fields| % 2 == 0
    ensures Flatten(PairUp(fields).value) == fields
    decreases |fields|
  {
    if |fields| > 0 {
      FlattenPairUp(fields[2..]);
      var pairs := PairUp(fields).value;
      assert pairs[1..] == PairUp(fields[2..]).value;
    }
  }

  /** One stripped (key, value) pair as the record stores it: the field name
      and value, or the error `strptime` raises. */
  function InfoField(key: string, value: string): Result<(string, Value)>
    requires IsTrimmed(value)
  {
    if key == "Release date" then
      match ReleaseDate(value)
      case Ok(date) => Ok(("ReleaseDate", Str(date)))
      case Err(e) => Err(e)
    else if key == "Running time" then Ok(("RunningTime", RunningTime(value)))
    else Ok((key, Str(value)))
  }

  /** Each pair, stripped, as the record stores it. */
  function InfoFields(pairs: seq<(string, string)>): (fields: seq<Result<(string, Value)>>)
    ensures |fields| == |pairs|
    ensures forall k :: 0 <= k < |pairs| ==> fields[k] == InfoField(Strip(pairs[k].0), Strip(pairs[k].1))
  {
    seq(|pairs|, k requires 0 <= k < |pairs| => InfoField(Strip(pairs[k].0), Strip(pairs[k].1)))
  }

  /** The record after the fields are stored left to right, and the error
      that stopped the loop, if any. */
  function Store(rec: Record, fields: seq<Result<(string, Value)>>): (Record, Option<string>)
  {
    if fields == [] then (rec, None)
    else
      var (before, err) := Store(rec, fields[..|fields| - 1]);
      if err.Some? then (before, err)
      else
        match fields[|fields| - 1]
        case Err(e) => (before, Some(e))
        case Ok(field) => (before[field.0 := field.1], None)
  }

  /** The key-line pairs stored into the record. */
  function ApplyInfo(rec: Record, pairs: seq<(string, string)>): (Record, Option<string>)
  {
    Store(rec, InfoFields(pairs))
  }

  lemma StoreStep(rec: Record, fields: seq<Result<(string, Value)>>, i: nat)
    requires i < |fields| && Store(rec, fields[..i]).1.None?
    ensures Store(rec, fields[..i + 1])
      == match fields[i]
         case Err(e) => (Store(rec, fields[..i]).0, Some(e))
         case Ok(field) => (Store(rec, fields[..i]).0[field.0 := field.1], None)
  {
    assert fields[..i + 1][..i] == fields[..i];
  }

  /** Once a field has failed, the fields after it are not looked at. */
  lemma {:induction false} StoreStops(rec: Record, fields: seq<Result<(string, Value)>>, n: nat)
    requires n <= |fields| && Store(rec, fields[..n]).1.Some?
    ensures Store(rec, fields) == Store(rec, fields[..n])
    decreases |fields| - n
  {
    if n < |fields| {
      assert fields[..n + 1][..n] == fields[..n];
      StoreStops(rec, fields, n + 1);
    } else {
      assert fields[..n] == fields;
    }
  }

  /** Storing leaves every field none of the stored ones names as it was. */
  lemma {:induction false} StoreFrame(rec: Record, fields: seq<Result<(string, Value)>>, f: string)
    requires f in rec
    requires forall k :: 0 <= k < |fields| && fields[k].Ok? ==> fields[k].value.0 != f
    ensures f in Store(rec, fields).0 && Store(rec, fields).0[f] == rec[f]
  {
    if fields != [] {
      var init := fields[..|fields| - 1];
      assert forall k :: 0 <= k < |init| ==> init[k] == fields[k];
      StoreFrame(rec, init, f);
    }
  }

  /** When nothing fails, every stored field is present afterwards and no
      field of the record is lost. */
  lemma {:induction false} StoreAll(rec: Record, fields: seq<Result<(string, Value)>>)
    requires Store(rec, fields).1.None?
    ensures rec.Keys <= Store(rec, fields).0.Keys
    ensures forall k :: 0 <= k < |fields| ==> fields[k].Ok? && fields[k].value.0 in Store(rec, fields).0
  {
    if fields != [] {
      var init := fields[..|fields| - 1];
      StoreAll(rec, init);
      var before, after := Store(rec, init).0, Store(rec, fields).0;
      forall k | 0 <= k < |fields| ensures fields[k].Ok? && fields[k].value.0 in after {
        if k < |init| {
          assert init[k] == fields[k];
          assert init[k].value.0 in before;
        }
      }
    }
  }

  /** Storing fails exactly when some field is an error. */
  lemma {:induction false} StoreFails(rec: Record, fields: seq<Result<(string, Value)>>)
    ensures Store(rec, fields).1.Some? <==> exists k :: 0 <= k < |fields| && fields[k].Err?
  {
    if fields != [] {
      var n := |fields| - 1;
      var init := fields[..n];
      StoreFails(rec, init);
      if Store(rec, init).1.Some? {
        var k :| 0 <= k < n && init[k].Err?;
        assert fields[k].Err?;
      } else if fields[n].Ok? {
        forall k | 0 <= k < |fields| ensures fields[k].Ok? {
          if k < n {
            assert !init[k].Err?;
            assert init[k] == fields[k];
          }
        }
      }
    }
  }

  /** The name a stripped key is stored under. */
  function StoredName(key: string): string
  {
    if key == "Release date" then "ReleaseDate"
    else if key == "Running time" then "RunningTime"
    else key
  }

  lemma InfoFieldName(key: string, value: string)
    requires IsTrimmed(value) && InfoField(key, value).Ok?
    ensures InfoField(key, value).value.0 == StoredName(key)
  {
  }

  /** A pair whose key is `Release date` and whose value does not parse. */
  predicate BadDate(pair: (string, string))
  {
    Strip(pair.0) == "Release date" && ReleaseDate(Strip(pair.1)).Err?
  }

  lemma InfoFieldFails(pair: (string, string))
    ensures InfoField(Strip(pair.0), Strip(pair.1)).Err? <==> BadDate(pair)
  {
  }

  /** Storing the key-line pairs leaves every field whose name no key gives
      as it was. */
  lemma ApplyInfoFrame(rec: Record, pairs: seq<(string, string)>, f: string)
    requires f in rec
    requires forall k :: 0 <= k < |pairs| ==> StoredName(Strip(pairs[k].0)) != f
    ensures f in ApplyInfo(rec, pairs).0 && ApplyInfo(rec, pairs).0[f] == rec[f]
  {
    var fields := InfoFields(pairs);
    forall k | 0 <= k < |fields| && fields[k].Ok? ensures fields[k].value.0 != f {
      InfoFieldName(Strip(pairs[k].0), Strip(pairs[k].1));
    }
    StoreFrame(rec, fields, f);
  }

  /** Storing the pairs fails exactly on a `Release date` that does not
      parse; when nothing fails every named field is present and no field
      of the listing record is lost. */
  lemma ApplyInfoOutcome(rec: Record, pairs: seq<(string, string)>)
    ensures ApplyInfo(rec, pairs).1.Some? <==> exists k :: 0 <= k < |pairs| && BadDate(pairs[k])
    ensures ApplyInfo(rec, pairs).1.None? ==>
      rec.Keys <= ApplyInfo(rec, pairs).0.Keys &&
      forall k :: 0 <= k < |pairs| ==> StoredName(Strip(pairs[k].0)) in ApplyInfo(rec, pairs).0
  {
    var fields := InfoFields(pairs);
    StoreFails(rec, fields);
    forall k | 0 <= k < |pairs| ensures fields[k].Err? <==> BadDate(pairs[k]) {
      InfoFieldFails(pairs[k]);
    }
    if Store(rec, fields).1.None? {
      StoreAll(rec, fields);
      forall k | 0 <= k < |pairs| ensures StoredName(Strip(pairs[k].0)) in Store(rec, fields).0 {
        InfoFieldName(Strip(pairs[k].0), Strip(pairs[k].1));
      }
    }
  }

  // ----------------------------------------------------------------------
  // EmpireMovie
  // ----------------------------------------------------------------------

  /** A text field: the stripped text, `None` when the element is missing. */
  function Stripped(text: Option<string>): Value
  {
    if text.Some? then Str(Strip(text.value)) else Null
  }

  /** The publication date: its first ten characters, `None` when the
      element is missing. */
  function Published(datetime: Option<string>): Value
  {
    if datetime.Some? then Str(DateText(datetime.value)) else Null
  }

  /** The rating: the number of star characters, `None` without them. */
  function Stars(stars: Option<string>): Value
  {
    if stars.Some? then Int(|Strip(stars.value)|) else Null
  }

  /** The record a successful review pass builds from the listing record:
      the info fields, then rating, author, publication date, last update,
      introduction and review text. */
  function DetailFields(rec: Record, p: Page): Record
  {
    rec["Rating" := Stars(p.stars)]
       ["Author" := Stripped(p.author)]
       ["DatePublished" := Published(p.datePublished)]
       ["LastUpdate" := match LastStrong(p.times) case Some(d) => Str(d) case None => Null]
       ["Introduction" := Stripped(p.introduction)]
       ["Review" := ReviewText(p.paragraphs)]
  }

  /** The pairs of the key-line list. */
  function InfoPairs(text: string): Result<seq<(string, string)>>
  {
    PairUp(Split(text, '|'))
  }

  /** What a review pass makes of the listing record once the page is in:
      the record and the exception that ended it, if any. */
  function Reviewed(rec: Record, p: Page): (Record, Option<string>)
  {
    var (after, r) := InfoStored(rec, p.infoList);
    match r
    case Err(e) => (after, Some(e))
    case Ok(None) => (after, None)
    case Ok(Some(_)) => (DetailFields(after, p), None)
  }

  /** What `get_review_title_and_other_info` makes of the record and what it
      returns: `None` without the key-line list, `1` once every pair is
      stored, or the exception of the first pair that fails. */
  function InfoStored(rec: Record, infoList: Option<string>): (Record, Result<Option<int>>)
  {
    match infoList
    case None => (rec, Ok(None))
    case Some(text) =>
      match InfoPairs(text)
      case Err(e) => (rec, Err(e))
      case Ok(pairs) =>
        var (after, err) := ApplyInfo(rec, pairs);
        (after, if err.Some? then Err(err.value) else Ok(Some(1)))
  }

  /** A page without the key-line list leaves the record as the listing gave
      it; a page whose list is read without error ends with all six detail
      fields present. */
  lemma ReviewedFields(rec: Record, p: Page)
    ensures p.infoList.None? ==> Reviewed(rec, p) == (rec, None)
    ensures Reviewed(rec, p).1.None? && p.infoList.Some? ==>
      forall f :: f in ["Rating", "Author", "DatePublished", "LastUpdate", "Introduction", "Review"] ==> f in Reviewed(rec, p).0
    ensures Reviewed(rec, p).1.Some? ==> p.infoList.Some?
  {
  }

  class EmpireMovie {
    /** The record key: the first key of the listing dictionary. */
    const infoId: string
    const infoMovie: Value
    const infoRating: Value
    const reviewUrl: Value
    /** `self.movie[self.info_id]`, the only entry `self.movie` ever has. */
    var record: Record
    /** The parsed page, or `None` when the fetch failed. */
    var soup: Option<Page>
    /** The lines sent to the logger. */
    var log: seq<LogLine>

    function Url(): string
    {
      Text(reviewUrl)
    }

    /** `__init__` and `process_relevant_info`: `info` is the listing
        dictionary's items in insertion order. */
    constructor (info: seq<(string, Record)>)
      requires |info| > 0
      requires "InfoMovie" in info[0].1 && "InfoRating" in info[0].1 && "InfoReviewUrl" in info[0].1
      ensures infoId == info[0].0 && record == info[0].1
      ensures infoMovie == info[0].1["InfoMovie"] && infoRating == info[0].1["InfoRating"]
      ensures reviewUrl == info[0].1["InfoReviewUrl"]
      ensures soup == None && log == []
    {
      var (id, rec) := info[0];
      infoId := id;
      infoMovie := rec["InfoMovie"];
      infoRating := rec["InfoRating"];
      reviewUrl := rec["InfoReviewUrl"];
      var copy: Record := map[];
      copy := copy + rec;
      assert copy == rec;
      record := copy;
      soup := None;
      log := [];
    }

    /** `self.movie`. */
    function Movies(): map<string, Record>
      reads this
    {
      map[infoId := record]
    }

    /** `get_soup`: five attempts; a failure is logged at error level as
        `RequestsGetFailed|id|url`. */
    method GetSoup(respond: nat -> Response<Page>)
      modifies this
      ensures record == old(record)
      ensures var (got, entries) := Loop(Url(), ReviewAttempts, respond, 0);
        soup == (if got.Content? then Some(got.content) else None) &&
        log == old(log) + Attempts(entries)
                 + (if got.Failed? then [Note(Error, "RequestsGetFailed", infoId, Url())] else [])
    {
      var html, entries := RequestsGet(Url(), ReviewAttempts, respond);
      log := log + Attempts(entries);
      if html.Failed? {
        log := log + [Note(Error, "RequestsGetFailed", infoId, Url())];
        soup := None;
      } else {
        soup := Some(html.content);
      }
    }

    /** `get_review_title_and_other_info`: `Ok(None)` and nothing written
        without the key-line list, `Ok(Some(1))` once every pair is stored;
        a failing pair ends it with the fields before it stored. */
    method GetReviewTitleAndOtherInfo() returns (r: Result<Option<int>>)
      requires soup.Some?
      modifies this
      ensures soup == old(soup)
      ensures (record, r) == InfoStored(old(record), soup.value.infoList)
      ensures log == old(log) + if soup.value.infoList.None? then [Note(Info, "NoInfoLeft", infoId, Url())] else []
    {
      var page := soup.value;
      if page.infoList.None? {
        log := log + [Note(Info, "NoInfoLeft", infoId, Url())];
        return Ok(None);
      }
      var paired := InfoPairs(page.infoList.value);
      if paired.Err? {
        return Err(paired.error);
      }
      var after, err := StoreFields(record, paired.value);
      record := after;
      if err.Some? {
        return Err(err.value);
      }
      return Ok(Some(1));
    }

    /** The loop of `get_review_title_and_other_info`: each pair stripped and
        stored in turn, stopping at the first pair whose value fails to
        parse, with the fields before it stored. */
    static method StoreFields(rec: Record, pairs: seq<(string, string)>) returns (after: Record, err: Option<string>)
      ensures (after, err) == ApplyInfo(rec, pairs)
    {
      ghost var fields := InfoFields(pairs);
      after := rec;
      var i := 0;
      while i < |pairs|
        invariant 0 <= i <= |pairs|
        invariant Store(rec, fields[..i]) == (after, None)
      {
        var field := ParseField(pairs[i]);
        StoreStep(rec, fields, i);
        if field.Err? {
          StoreStops(rec, fields, i + 1);
          return after, Some(field.error);
        }
        after := after[field.value.0 := field.value.1];
        i := i + 1;
      }
      assert fields[..i] == fields;
      return after, None;
    }

    /** One pair of the loop: key and value stripped, the release date and
        running time parsed. */
    static method ParseField(pair: (string, string)) returns (field: Result<(string, Value)>)
      ensures field == InfoField(Strip(pair.0), Strip(pair.1))
    {
      var key, value := Strip(pair.0), Strip(pair.1);
      field := InfoField(key, value);
    }

    /** `get_review_rating`: the number of star characters. */
    method GetReviewRating()
      requires soup.Some?
      modifies this
      ensures soup == old(soup) && log == old(log)
      ensures record == old(record)["Rating" := Stars(soup.value.stars)]
    {
      record := record["Rating" := Stars(soup.value.stars)];
    }

    /** `get_review_author`. */
    method GetReviewAuthor()
      requires soup.Some?
      modifies this
      ensures soup == old(soup) && log == old(log)
      ensures record == old(record)["Author" := Stripped(soup.value.author)]
    {
      record := record["Author" := Stripped(soup.value.author)];
    }

    /** `get_review_date_published`: the stripped attribute cut to ten
        characters. */
    method GetReviewDatePublished()
      requires soup.Some?
      modifies this
      ensures soup == old(soup) && log == old(log)
      ensures record == old(record)["DatePublished" := Published(soup.value.datePublished)]
    {
      record := record["DatePublished" := Published(soup.value.datePublished)];
    }

    /** `get_review_last_update`: every `<time>` holding a `<strong>`
        overwrites the field, so the last one wins. */
    method GetReviewLastUpdate()
      requires soup.Some?
      modifies this
      ensures soup == old(soup) && log == old(log)
      ensures record == old(record)["LastUpdate" :=
        match LastStrong(soup.value.times) case Some(d) => Str(d) case None => Null]
    {
      var update := Null;
      var result := soup.value.times;
      for i := 0 to |result|
        invariant update == match LastStrongAt(result[..i])
          case None => Null case Some(k) => Str(DateText(result[k].datetime))
        invariant soup == old(soup) && log == old(log) && record == old(record)
      {
        LastStrongAtSnoc(result, i);
        if result[i].hasStrong {
          update := Str(First10(Strip(result[i].datetime)));
        }
      }
      assert result[..|result|] == result;
      record := record["LastUpdate" := update];
    }

    /** `get_review_introduction_text`. */
    method GetReviewIntroductionText()
      requires soup.Some?
      modifies this
      ensures soup == old(soup) && log == old(log)
      ensures record == old(record)["Introduction" := Stripped(soup.value.introduction)]
    {
      record := record["Introduction" := Stripped(soup.value.introduction)];
    }

    /** `get_review_text`: the stripped paragraphs joined by newlines. */
    method GetReviewText()
      requires soup.Some?
      modifies this
      ensures soup == old(soup) && log == old(log)
      ensures record == old(record)["Review" := ReviewText(soup.value.paragraphs)]
    {
      record := record["Review" := ReviewText(soup.value.paragraphs)];
    }

    /** `get_review`: log the start, fetch the page, and stop before any
        field is extracted when the fetch failed or the key-line list is
        missing. Returns the exception that ended the pass, if any. */
    method GetReview(respond: nat -> Response<Page>) returns (raised: Option<string>)
      modifies this
      ensures var (got, entries) := Loop(Url(), ReviewAttempts, respond, 0);
        log == old(log) + [Note(Info, "GetReview", infoId, Url())] + Attempts(entries)
                 + (if got.Failed? then [Note(Error, "RequestsGetFailed", infoId, Url())] else [])
                 + (if got.Content? && got.content.infoList.None? then [Note(Info, "NoInfoLeft", infoId, Url())] else [])
      ensures var got := Loop(Url(), ReviewAttempts, respond, 0).0;
        match got
        case Failed => record == old(record) && raised == None
        case Content(page) => (record, raised) == Reviewed(old(record), page)
    {
      log := log + [Note(Info, "GetReview", infoId, Url())];
      GetSoup(respond);
      if soup.None? {
        return None;
      }
      var info := GetReviewTitleAndOtherInfo();
      if info.Err? {
        return Some(info.error);
      }
      if info.value.None? {
        return None;
      }
      GetReviewRating();
      GetReviewAuthor();
      GetReviewDatePublished();
      GetReviewLastUpdate();
      GetReviewIntroductionText();
      GetReviewText();
      return None;
    }

    /** `get_movie`: the review pass, then the record dictionary. */
    method GetMovie(respond: nat -> Response<Page>) returns (movies: map<string, Record>, raised: Option<string>)
      modifies this
      ensures movies == Movies() && movies.Keys == {infoId}
      ensures var got := Loop(Url(), ReviewAttempts, respond, 0).0;
        match got
        case Failed => movies[infoId] == old(record) && raised == None
        case Content(page) => (movies[infoId], raised) == Reviewed(old(record), page)
    {
      raised := GetReview(respond);
      movies := Movies();
    }
  }
}
