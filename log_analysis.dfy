/** The stand-alone log analyser: it splits each log line into its six
    columns on whitespace and classifies each ERROR message as worth
    another attempt or not, naming the review page when it can. */
module LogAnalysis {
  import opened Base
  import opened PyStr
  import EmpireMoviesLog

  function Min(a: nat, b: nat): nat { if a < b then a else b }

  /** `line_splitter`: asctime is the first two words joined by a space,
      the next four words are kept as they are, and the remaining words
      are joined by single spaces into the message. */
  function LineSplitter(line: string): (fields: seq<string>)
    ensures |fields| == 2 + (Min(6, |Words(line)|) - Min(2, |Words(line)|))
    ensures 2 <= |fields| <= 6
    ensures forall k :: 1 <= k < |fields| - 1 ==> fields[k] != [] && All(fields[k], NotSpace)
  {
    var ws := Words(line);
    var n := |ws|;
    [Join(ws[..Min(2, n)], " ")] + ws[Min(2, n)..Min(6, n)] + [Join(ws[Min(6, n)..], " ")]
  }

  /** A line written as date, time, four whitespace-free columns and a
      message of words, separated by single spaces, splits back into
      asctime, the four columns and the message. */
  lemma LineSplitterJoin(date: string, time: string, body: seq<string>, words: seq<string>)
    requires |body| == 4
    requires forall k :: 0 <= k < |[date, time] + body + words| ==>
      ([date, time] + body + words)[k] != [] && All(([date, time] + body + words)[k], NotSpace)
    ensures LineSplitter(Join([date, time] + body + words, " ")) ==
      [date + " " + time] + body + [Join(words, " ")]
  {
    var ts := [date, time] + body + words;
    TokensJoin(ts, NotSpace, ' ');
    assert Words(Join(ts, " ")) == ts;
    assert ts[..2] == [date, time];
    JoinCons(date, [time], " ");
    assert ts[2..6] == body;
    assert ts[6..] == words;
  }

  const HtmlPrefix := "html = -1 for "
  const BadWebsite := "bad website: 404"
  const ResultPrefix := "getting result for "
  const ResultSuffix := " not successful:-("

  /** `analyze_message`: the solvable flag and the review page to fetch
      again, if the message names one. A page address with fewer than
      five `/`-segments raises IndexError. */
  function AnalyzeMessage(message: string): (r: Result<(bool, Option<string>)>)
    ensures r.Ok? && r.value.1.Some? ==> r.value.0
    ensures r.Err? ==> HtmlPrefix <= message
    // a 404 is never worth another attempt; any other message is, naming no page
    ensures !(HtmlPrefix <= message) && !(ResultPrefix <= message) ==>
      r == if message == BadWebsite then Ok((false, None)) else Ok((true, None))
  {
    if HtmlPrefix <= message then
      var url := Replace(message, HtmlPrefix, "");
      var segments := Split(url, '/');
      if |segments| < 5 then Err("IndexError")
      else if "55" <= segments[4] then Ok((false, None))
      else if multiset(url)['/'] > 6 then Ok((false, None))
      else Ok((true, Some(url)))
    else if message == BadWebsite then Ok((false, None))
    else if ResultPrefix <= message then
      var url := Replace(Replace(message, ResultPrefix, ""), ResultSuffix, "");
      Ok((true, Some(url)))
    else Ok((true, None))
  }

  /** Removing a prefix that is the pattern itself. */
  lemma ReplaceLeading(pat: string, s: string, rep: string)
    requires pat != []
    ensures Replace(pat + s, pat, rep) == rep + Replace(s, pat, rep)
  {
    assert pat <= pat + s;
    assert (pat + s)[|pat|..] == s;
  }

  /** Removing "html = -1 for " from the message gives back the address,
      which holds no space. */
  lemma HtmlUrl(url: string)
    requires ' ' !in url
    ensures Replace(HtmlPrefix + url, HtmlPrefix, "") == url
  {
    ReplaceLeading(HtmlPrefix, url, "");
    assert HtmlPrefix[4] == ' ';
    forall i ensures !OccursAt(url, HtmlPrefix, i) {
      if 0 <= i && i + |HtmlPrefix| <= |url| {
        assert url[i..i + |HtmlPrefix|][4] == url[i + 4];
      }
    }
    ReplaceAbsent(url, HtmlPrefix, "");
  }

  /** A failed fetch of a page address (which holds no space) is classified
      by the same rules the scraper applies to its log: the analyser
      fails exactly when the scraper's classification does, and otherwise
      agrees on the flag and names the address exactly when solvable. */
  lemma AnalyzeHtmlAgrees(url: string)
    requires ' ' !in url
    ensures AnalyzeMessage(HtmlPrefix + url) ==
      match EmpireMoviesLog.AnalyzeErrorMessage(None, Some(url))
      case Err(e) => Err(e)
      case Ok(b) => Ok((b, if b then Some(url) else None))
  {
    HtmlUrl(url);
    assert HtmlPrefix <= HtmlPrefix + url;
  }

  /** An address without spaces followed by the failure text holds no
      "getting result for ". */
  lemma ResultPrefixAbsent(x: string)
    requires ' ' !in x
    ensures forall i :: !OccursAt(x + ResultSuffix, ResultPrefix, i)
  {
    var s := x + ResultSuffix;
    assert ResultPrefix[7] == ' ' && ResultPrefix[14] == ' ';
    forall i ensures !OccursAt(s, ResultPrefix, i) {
      if 0 <= i && i + |ResultPrefix| <= |s| {
        var w := s[i..i + |ResultPrefix|];
        if i + 7 < |x| {
          assert w[7] == x[i + 7] && x[i + 7] in x;
        } else if i + 7 - |x| != 0 && i + 7 - |x| != 4 {
          assert w[7] == ResultSuffix[i + 7 - |x|] != ' ';
        } else {
          assert w[14] == ResultSuffix[i + 14 - |x|] != ' ';
        }
        assert w != ResultPrefix;
      }
    }
  }

  /** "getting result for X not successful:-(" names X, for an address X
      without spaces, and is always worth another attempt. */
  lemma AnalyzeResultNames(x: string)
    requires ' ' !in x
    ensures AnalyzeMessage(ResultPrefix + x + ResultSuffix) == Ok((true, Some(x)))
  {
    var s := x + ResultSuffix;
    var m := ResultPrefix + s;
    assert m == ResultPrefix + x + ResultSuffix;
    assert m[0] == 'g';
    assert !(HtmlPrefix <= m) && m != BadWebsite && ResultPrefix <= m;
    ReplaceLeading(ResultPrefix, s, "");
    ResultPrefixAbsent(x);
    ReplaceAbsent(s, ResultPrefix, "");
    ReplaceFreePrefix(x, ResultSuffix, ResultSuffix, "");
    ReplaceLeading(ResultSuffix, [], "");
    assert Replace(m, ResultPrefix, "") == s;
    assert ResultSuffix[0] == ' ';
    assert ResultSuffix + [] == ResultSuffix;
    assert Replace(ResultSuffix, ResultSuffix, "") == [];
    assert x + [] == x;
    assert Replace(s, ResultSuffix, "") == x;
  }
}
