/** empire_scraper/empire_movies.py, the earlier version of the scraper: the
    crawl merges straight into the scraper's dictionary, the log analysis
    returns only the records worth another attempt, and the retry pass
    works on a scraper restored from its pickle. The dictionary is an
    object of its own, so that the alias the retry pass relies on is
    modelled as an alias. */
module LegacyEmpireMovies {
  import opened Base
  import opened PyStr
  import opened Records
  import opened EmpireHelpers
  import opened EmpireMoviesLog
  import EmpireMovies
  import Movie

  /** This version fetches a listing page with three attempts. */
  const ListingAttempts := 3

  /** `pages` as the caller passes it: a single page number, or a list or
      any other iterable of them. */
  datatype Pages = Single(page: nat) | Several(pages: seq<nat>)

  /** The page normalisation of `__get_movies_for_pages`. */
  function PageList(p: Pages): (r: seq<nat>)
    ensures p.Single? ==> r == [p.page]
    ensures p.Several? ==> r == p.pages
  {
    match p
    case Single(page) => [page]
    case Several(pages) => pages
  }

  /** The records one page of the crawl yields, nothing when the page failed
      or was empty, or the exception its review pass raised. */
  function PageFound(page: nat, articleNumber: Option<int>,
                     site: nat -> nat -> Response<seq<EmpireMovies.Article>>,
                     review: (string, Record) -> Result<Record>): Result<Option<Movies>>
  {
    EmpireMovies.PageOutcome(page, articleNumber, ListingAttempts, site(page), review).0
  }

  /** What `pool.starmap` collects: every page's result, in page order, with
      the same article filter for each page. */
  function PagesFound(pages: seq<nat>, articleNumber: Option<int>,
                      site: nat -> nat -> Response<seq<EmpireMovies.Article>>,
                      review: (string, Record) -> Result<Record>): (results: seq<Result<Option<Movies>>>)
    ensures |results| == |pages|
  {
    seq(|pages|, j requires 0 <= j < |pages| => PageFound(pages[j], articleNumber, site, review))
  }

  /** The scraper's dictionary after a crawl of `pages`: `items` updated with
      each page's records in page order, failed and empty pages skipped; or
      the exception of the first page that raised, and then nothing is
      merged. */
  function Crawl(items: Movies, pages: seq<nat>, articleNumber: Option<int>,
                 site: nat -> nat -> Response<seq<EmpireMovies.Article>>,
                 review: (string, Record) -> Result<Record>): (r: Result<Movies>)
    ensures r.Ok? <==> forall j :: 0 <= j < |pages| ==> PageFound(pages[j], articleNumber, site, review).Ok?
    ensures r.Ok? ==> items.Keys <= r.value.Keys
  {
    var found := PagesFound(pages, articleNumber, site, review);
    assert forall j :: 0 <= j < |pages| ==> found[j] == PageFound(pages[j], articleNumber, site, review);
    match EmpireMovies.Gathered(found)
    case Err(e) => Err(e)
    case Ok(results) => Ok(items + EmpireMovies.Merged(results))
  }

  /** Updating the dictionary with one more page's records. */
  lemma MergeIntoSnoc(items: Movies, results: seq<Option<Movies>>, k: int)
    requires 0 <= k < |results|
    ensures items + EmpireMovies.Merged(results[..k + 1])
         == if results[k].Some? then (items + EmpireMovies.Merged(results[..k])) + results[k].value
            else items + EmpireMovies.Merged(results[..k])
  {
    EmpireMovies.MergedSnoc(results, k);
    if results[k].Some? {
      var before := EmpireMovies.Merged(results[..k]);
      assert items + (before + results[k].value) == (items + before) + results[k].value;
    }
  }

  /** A crawl only adds and overwrites: every record of `items` whose key no
      page produced is still there, unchanged. */
  lemma CrawlKeeps(items: Movies, pages: seq<nat>, articleNumber: Option<int>,
                   site: nat -> nat -> Response<seq<EmpireMovies.Article>>,
                   review: (string, Record) -> Result<Record>, k: string)
    requires k in items
    requires Crawl(items, pages, articleNumber, site, review).Ok?
    ensures k in Crawl(items, pages, articleNumber, site, review).value
    ensures (forall j :: 0 <= j < |pages| ==>
               var found := PageFound(pages[j], articleNumber, site, review);
               found.Ok? && (found.value.None? || k !in found.value.value))
      ==> Crawl(items, pages, articleNumber, site, review).value[k] == items[k]
  {
    var found := PagesFound(pages, articleNumber, site, review);
    var results := EmpireMovies.Gathered(found).value;
    EmpireMovies.MergedKeys(results);
    if forall j :: 0 <= j < |pages| ==>
         var f := PageFound(pages[j], articleNumber, site, review);
         f.Ok? && (f.value.None? || k !in f.value.value) {
      forall j | 0 <= j < |results| && results[j].Some?
        ensures k !in results[j].value
      {
        assert found[j] == Ok(results[j]);
      }
    }
  }

  /** `message2` of the error rows worth another attempt. */
  function Addresses(errors: seq<Row>): (a: set<Option<string>>)
    requires forall row :: row in errors ==> |row| == Columns
    ensures a == {} <==> forall row :: row in errors ==> Classify(row) != Ok(true)
  {
    var a := set row | row in errors && Classify(row) == Ok(true) :: row[Message2];
    assert forall row :: row in errors && Classify(row) == Ok(true) ==> row[Message2] in a;
    a
  }

  /** `message1` of the error rows worth another attempt. */
  function RetryKeys(errors: seq<Row>): set<Option<string>>
    requires forall row :: row in errors ==> |row| == Columns
  {
    set row | row in errors && Classify(row) == Ok(true) :: row[Message1]
  }

  /** `get_solvable_movies_from_log_file` as written: the log is read as in
      the current version, but the records are looked up by `message2`, the
      address field; `None` when the log has no error or nothing to retry. */
  function Solvable(lines: seq<string>, movies: Movies): (r: Result<Option<Movies>>)
    ensures r.Ok? && r.value.Some? ==>
      r.value.value.Keys <= movies.Keys && forall k :: k in r.value.value ==> r.value.value[k] == movies[k]
  {
    match Frame(lines)
    case Err(e) => Err(e)
    case Ok(rows) =>
      var errors := ErrorRows(rows);
      if |errors| == 0 then Ok(None)
      else
        match FirstFailure(errors)
        case Some(e) => Err(e)
        case None =>
          var addresses := Addresses(errors);
          if addresses == {} then Ok(None) else Ok(Some(Restrict(movies, addresses)))
  }

  /** `get_solvable_movies_from_log_file` returns `None` exactly when the
      log has no error row, or when every error row was classified as not
      worth another attempt. */
  lemma SolvableNone(lines: seq<string>, movies: Movies)
    ensures Solvable(lines, movies) == Ok(None) <==>
      Frame(lines).Ok? &&
      var errors := ErrorRows(Frame(lines).value);
      errors == [] || forall row :: row in errors ==> |row| == Columns && Classify(row) == Ok(false)
  {
    if Frame(lines).Ok? {
      var errors := ErrorRows(Frame(lines).value);
      assert forall row :: row in errors ==> |row| == Columns;
      if FirstFailure(errors).None? && Addresses(errors) == {} {
        forall row | row in errors
          ensures Classify(row) == Ok(false)
        {
          assert Classify(row).Ok? && Classify(row) != Ok(true);
        }
      }
    }
  }

  /** Every address this version compares the keys with holds at least four
      `/`, so a dictionary keyed as the crawl keys it (no `/` in a key)
      never yields a record to retry. */
  lemma SolvableNeverMatches(lines: seq<string>, movies: Movies)
    requires forall k :: k in movies ==> '/' !in k
    ensures Solvable(lines, movies).Ok? && Solvable(lines, movies).value.Some? ==>
      Solvable(lines, movies).value.value == map[]
  {
    if Frame(lines).Ok? {
      var errors := ErrorRows(Frame(lines).value);
      forall a | a in Addresses(errors)
        ensures a.Some? && '/' in a.value
      {
        var row :| row in errors && Classify(row) == Ok(true) && row[Message2] == a;
        assert multiset(a.value)['/'] >= 4;
      }
    }
  }

  /** The keys of the crawl's records hold no `/`. */
  lemma KeysHoldNoSlash(page: nat, i: nat)
    ensures '/' !in EmpireMovies.Key(page, i)
  {
    var key := EmpireMovies.Key(page, i);
    EmpireMovies.KeyFields(page, i);
    var p, a := FormatInt(page, 3), FormatInt(i, 2);
    FormatIntValue(page, 3);
    FormatIntValue(i, 2);
    forall c | c in key
      ensures c != '/'
    {
      var k :| 0 <= k < |key| && key[k] == c;
      if k < |p| {
        assert key[k] == p[k] && IsDigit(p[k]);
      } else if k > |p| {
        assert key[k] == a[k - |p| - 1] && IsDigit(a[k - |p| - 1]);
      }
    }
  }

  /** The analysis as evidently intended: records looked up by `message1`,
      the record key, as the current version does. */
  function SolvableFixed(lines: seq<string>, movies: Movies): (r: Result<Option<Movies>>)
    ensures r.Ok? && r.value.Some? ==>
      r.value.value.Keys <= movies.Keys && forall k :: k in r.value.value ==> r.value.value[k] == movies[k]
  {
    match Frame(lines)
    case Err(e) => Err(e)
    case Ok(rows) =>
      var errors := ErrorRows(rows);
      if |errors| == 0 then Ok(None)
      else
        match FirstFailure(errors)
        case Some(e) => Err(e)
        case None =>
          var keys := RetryKeys(errors);
          if keys == {} then Ok(None) else Ok(Some(Restrict(movies, keys)))
  }

  /** The intended analysis finds a stored record whose review fetch failed
      for a reason worth another attempt. */
  lemma SolvableFixedFinds(lines: seq<string>, movies: Movies, k: int, key: string)
    requires Frame(lines).Ok? && FirstFailure(ErrorRows(Frame(lines).value)).None?
    requires 0 <= k < |lines| && ReportsFailure(lines[k], key) && Retryable(lines[k])
    requires key in movies
    ensures SolvableFixed(lines, movies).Ok? && SolvableFixed(lines, movies).value.Some?
    ensures key in SolvableFixed(lines, movies).value.value
  {
    var errors := ErrorRows(Frame(lines).value);
    SolvableKeysOfLines(lines, key);
    var row :| row in errors && IsFetchFailure(row) && Classify(row) == Ok(true) && row[Message1] == Some(key);
    assert Some(key) in RetryKeys(errors);
    assert |errors| != 0;
    assert SolvableFixed(lines, movies) == Ok(Some(Restrict(movies, RetryKeys(errors))));
  }

  /** The retry loop of `solve_movies` from `keys` on. `items` is the
      scraper's dictionary, which every retry updates in place, and `solved`
      what the retries gathered. The result says whether a title mismatch
      stopped the loop, and gives the dictionary and the gathered records. */
  function RetryFrom(keys: seq<string>, solvable: Movies, items: Movies, solved: Movies,
                     site: nat -> nat -> Response<seq<EmpireMovies.Article>>, review: (string, Record) -> Result<Record>)
    : Result<(bool, Movies, Movies)>
    requires forall k :: k in keys ==> k in solvable
  {
    if keys == [] then Ok((false, items, solved))
    else
      var key := keys[0];
      var value := solvable[key];
      match EmpireMovies.RetryTarget(value)
      case Err(e) => Err(e)
      case Ok((page, article)) =>
        match Crawl(items, [page], Some(article), site, review)
        case Err(e) => Err(e)
        case Ok(after) =>
          if key !in after || "InfoMovie" !in after[key] || "InfoMovie" !in value then Err("KeyError")
          else if after[key]["InfoMovie"] != value["InfoMovie"] then Ok((true, after, solved))
          else RetryFrom(keys[1..], solvable, after, solved + after, site, review)
  }

  /** A loop stopped by a mismatch leaves the dictionary holding the retried
      record, whose title differs from the stored one. */
  lemma {:induction false} RetryFromMismatch(keys: seq<string>, solvable: Movies, items: Movies, solved: Movies,
                                             site: nat -> nat -> Response<seq<EmpireMovies.Article>>,
                                             review: (string, Record) -> Result<Record>)
      returns (key: string)
    requires forall k :: k in keys ==> k in solvable
    requires RetryFrom(keys, solvable, items, solved, site, review).Ok?
    requires RetryFrom(keys, solvable, items, solved, site, review).value.0
    ensures var after := RetryFrom(keys, solvable, items, solved, site, review).value.1;
      key in keys && key in after && "InfoMovie" in after[key] && "InfoMovie" in solvable[key] &&
      after[key]["InfoMovie"] != solvable[key]["InfoMovie"]
  {
    var value := solvable[keys[0]];
    var (page, article) := EmpireMovies.RetryTarget(value).value;
    var after := Crawl(items, [page], Some(article), site, review).value;
    if after[keys[0]]["InfoMovie"] != value["InfoMovie"] {
      key := keys[0];
    } else {
      key := RetryFromMismatch(keys[1..], solvable, after, solved + after, site, review);
    }
  }

  /** One retry whose title matches hands its dictionary to the rest of the
      loop. */
  lemma RetryFromStep(keys: seq<string>, solvable: Movies, items: Movies, solved: Movies,
                      site: nat -> nat -> Response<seq<EmpireMovies.Article>>, review: (string, Record) -> Result<Record>,
                      j: int, page: nat, article: int)
    requires forall k :: k in keys ==> k in solvable
    requires 0 <= j < |keys| && EmpireMovies.RetryTarget(solvable[keys[j]]) == Ok((page, article))
    requires Crawl(items, [page], Some(article), site, review).Ok?
    requires var after := Crawl(items, [page], Some(article), site, review).value;
      keys[j] in after && "InfoMovie" in after[keys[j]] && "InfoMovie" in solvable[keys[j]] &&
      after[keys[j]]["InfoMovie"] == solvable[keys[j]]["InfoMovie"]
    ensures var after := Crawl(items, [page], Some(article), site, review).value;
      RetryFrom(keys[j..], solvable, items, solved, site, review)
      == RetryFrom(keys[j + 1..], solvable, after, solved + after, site, review)
  {
    assert keys[j..][0] == keys[j] && keys[j..][1..] == keys[j + 1..];
  }

  /** What `solve_movies` returns as written: the dictionary unchanged when
      there is nothing to retry; after a mismatch, the dictionary as the
      retries left it; otherwise that dictionary updated with the gathered
      records. */
  function SolveOutcome(lines: seq<string>, order: seq<string>, items: Movies,
                        site: nat -> nat -> Response<seq<EmpireMovies.Article>>, review: (string, Record) -> Result<Record>)
    : Result<Movies>
  {
    match Solvable(lines, items)
    case Err(e) => Err(e)
    case Ok(None) => Ok(items)
    case Ok(Some(solvable)) =>
      PassOutcome(RetryFrom(EmpireMovies.Retries(order, solvable), solvable, items, map[], site, review))
  }

  /** The dictionary `solve_movies` returns after its retry loop. */
  function PassOutcome(pass: Result<(bool, Movies, Movies)>): Result<Movies>
  {
    match pass
    case Err(e) => Err(e)
    case Ok((mismatch, after, solved)) =>
      if mismatch then Ok(after) else if solved != map[] then Ok(after + solved) else Ok(after)
  }

  /** The reset after a mismatch restores nothing: the returned dictionary
      holds a record that differs from the one the pass started with. */
  lemma SolveOutcomeNoRollback(lines: seq<string>, order: seq<string>, items: Movies,
                               site: nat -> nat -> Response<seq<EmpireMovies.Article>>,
                               review: (string, Record) -> Result<Record>)
    requires Solvable(lines, items).Ok? && Solvable(lines, items).value.Some?
    requires var solvable := Solvable(lines, items).value.value;
      var r := RetryFrom(EmpireMovies.Retries(order, solvable), solvable, items, map[], site, review);
      r.Ok? && r.value.0
    ensures SolveOutcome(lines, order, items, site, review).Ok?
    ensures SolveOutcome(lines, order, items, site, review).value != items
  {
    var solvable := Solvable(lines, items).value.value;
    var keys := EmpireMovies.Retries(order, solvable);
    var key := RetryFromMismatch(keys, solvable, items, map[], site, review);
    assert solvable[key] == items[key];
  }

  /** As written, the retry pass never changes a dictionary keyed as the
      crawl keys it: the `message2` lookup finds no record, so nothing is
      retried and `solve_movies` returns the dictionary as it was. A
      mismatch, and with it the reset, cannot arise until the lookup is
      corrected. */
  lemma SolveOutcomeUnchanged(lines: seq<string>, order: seq<string>, items: Movies,
                              site: nat -> nat -> Response<seq<EmpireMovies.Article>>,
                              review: (string, Record) -> Result<Record>)
    requires forall k :: k in items ==> '/' !in k
    requires Solvable(lines, items).Ok?
    ensures SolveOutcome(lines, order, items, site, review) == Ok(items)
  {
    SolvableNeverMatches(lines, items);
    RetryNothing(order, items, site, review);
  }

  /** With no record to retry, the loop ends at once with nothing changed. */
  lemma RetryNothing(order: seq<string>, items: Movies,
                     site: nat -> nat -> Response<seq<EmpireMovies.Article>>,
                     review: (string, Record) -> Result<Record>)
    ensures RetryFrom(EmpireMovies.Retries(order, map[]), map[], items, map[], site, review) == Ok((false, items, map[]))
  {
    EmpireMovies.RetriesOfNothing(order);
  }

  /** `solve_movies` with the lookup corrected (records looked up by key)
      but the alias kept: the reset after a mismatch puts back the same,
      already updated dictionary. */
  function SolveOutcomeKeyed(lines: seq<string>, order: seq<string>, items: Movies,
                             site: nat -> nat -> Response<seq<EmpireMovies.Article>>,
                             review: (string, Record) -> Result<Record>)
    : Result<Movies>
  {
    match SolvableFixed(lines, items)
    case Err(e) => Err(e)
    case Ok(None) => Ok(items)
    case Ok(Some(solvable)) =>
      PassOutcome(RetryFrom(EmpireMovies.Retries(order, solvable), solvable, items, map[], site, review))
  }

  /** With the lookup corrected, a mismatch is reached, and the reset as
      written restores nothing: the returned dictionary holds a record that
      differs from the one the pass started with. */
  lemma SolveOutcomeKeyedNoRollback(lines: seq<string>, order: seq<string>, items: Movies,
                                    site: nat -> nat -> Response<seq<EmpireMovies.Article>>,
                                    review: (string, Record) -> Result<Record>)
    requires SolvableFixed(lines, items).Ok? && SolvableFixed(lines, items).value.Some?
    requires var solvable := SolvableFixed(lines, items).value.value;
      var r := RetryFrom(EmpireMovies.Retries(order, solvable), solvable, items, map[], site, review);
      r.Ok? && r.value.0
    ensures SolveOutcomeKeyed(lines, order, items, site, review).Ok?
    ensures SolveOutcomeKeyed(lines, order, items, site, review).value != items
  {
    var solvable := SolvableFixed(lines, items).value.value;
    var keys := EmpireMovies.Retries(order, solvable);
    var key := RetryFromMismatch(keys, solvable, items, map[], site, review);
    assert solvable[key] == items[key];
  }

  /** The end of `solve_movies` as evidently intended: a mismatch restores
      the dictionary the pass started with. */
  function PassOutcomeFixed(items: Movies, pass: Result<(bool, Movies, Movies)>): (r: Result<Movies>)
    ensures r.Ok? <==> pass.Ok?
    ensures pass.Ok? && pass.value.0 ==> r.value == items
    ensures pass.Ok? && !pass.value.0 ==> r.value == pass.value.1 + pass.value.2
  {
    match pass
    case Err(e) => Err(e)
    case Ok((mismatch, after, solved)) =>
      if mismatch then Ok(items) else if solved != map[] then Ok(after + solved) else Ok(after)
  }

  /** Without a mismatch the intended end agrees with the end as written. */
  lemma PassOutcomeAgrees(items: Movies, pass: Result<(bool, Movies, Movies)>)
    requires pass.Ok? ==> !pass.value.0
    ensures PassOutcomeFixed(items, pass) == PassOutcome(pass)
  {
    if pass.Ok? && pass.value.2 == map[] {
      assert pass.value.1 + map[] == pass.value.1;
    }
  }

  /** `solve_movies` as evidently intended: the records are looked up by
      key, and a mismatch restores the dictionary. */
  function SolveOutcomeFixed(lines: seq<string>, order: seq<string>, items: Movies,
                             site: nat -> nat -> Response<seq<EmpireMovies.Article>>,
                             review: (string, Record) -> Result<Record>)
    : (r: Result<Movies>)
    ensures SolvableFixed(lines, items).Ok? && SolvableFixed(lines, items).value.None? ==> r == Ok(items)
    ensures SolvableFixed(lines, items).Ok? && SolvableFixed(lines, items).value.Some? ==>
      var solvable := SolvableFixed(lines, items).value.value;
      var pass := RetryFrom(EmpireMovies.Retries(order, solvable), solvable, items, map[], site, review);
      pass.Ok? && pass.value.0 ==> r == Ok(items)
  {
    match SolvableFixed(lines, items)
    case Err(e) => Err(e)
    case Ok(None) => Ok(items)
    case Ok(Some(solvable)) =>
      PassOutcomeFixed(items, RetryFrom(EmpireMovies.Retries(order, solvable), solvable, items, map[], site, review))
  }

  /** A Python dictionary: an object other names may share. */
  class MovieDict {
    var items: Movies

    constructor (items: Movies)
      ensures this.items == items
    {
      this.items := items;
    }
  }

  /** The scraper and the dictionary it scrapes into. */
  class LegacyScraper {
    var movies: MovieDict

    constructor (movies: MovieDict)
      ensures this.movies == movies
    {
      this.movies := movies;
    }

    /** `_get_movies_for_page`: as in the current version, with three
        attempts for the listing page. */
    static method GetMoviesForPage(page: nat, articleNumber: Option<int>,
                                   respond: nat -> Response<seq<EmpireMovies.Article>>,
                                   review: (string, Record) -> Result<Record>)
      returns (found: Result<Option<Movies>>, log: seq<Movie.LogLine>)
      ensures (found, log) == EmpireMovies.PageOutcome(page, articleNumber, ListingAttempts, respond, review)
    {
      var url := EmpireMovies.PageUrl(page);
      log := [Movie.Note(Info, "GetReviewPage", IntToString(page), url)];
      var html, entries := RequestsGet(url, ListingAttempts, respond);
      log := log + Movie.Attempts(entries);
      if html.Failed? {
        log := log + [Movie.Note(Error, "RequestFailed", IntToString(page), url)];
        return Ok(None), log;
      }
      var articles := html.content;
      if |articles| == 0 {
        log := log + [Movie.Note(Info, "NonexistentPage", IntToString(page), url)];
        return Ok(None), log;
      }
      var pageMovies := EmpireMovies.EmpireMovies.ListArticles(page, articleNumber, url, articles, review);
      if pageMovies.Err? {
        return Err(pageMovies.error), log;
      }
      return Ok(Some(pageMovies.value)), log;
    }

    /** One page of the crawl, its log dropped. */
    static method CrawlPage(page: nat, articleNumber: Option<int>,
                            site: nat -> nat -> Response<seq<EmpireMovies.Article>>,
                            review: (string, Record) -> Result<Record>)
      returns (found: Result<Option<Movies>>)
      ensures found == PageFound(page, articleNumber, site, review)
    {
      var log;
      found, log := GetMoviesForPage(page, articleNumber, site(page), review);
    }

    /** `__get_movies_for_pages`: the pages normalised to a list, each page
        crawled with the same article filter, and the results merged into the
        scraper's dictionary in place; an exception out of `pool.starmap`
        leaves the dictionary as it was. */
    method GetMoviesForPages(pages: Pages, articleNumber: Option<int>,
                             site: nat -> nat -> Response<seq<EmpireMovies.Article>>,
                             review: (string, Record) -> Result<Record>)
      returns (raised: Option<string>)
      modifies movies
      ensures match Crawl(old(movies.items), PageList(pages), articleNumber, site, review)
        case Err(e) => raised == Some(e) && movies.items == old(movies.items)
        case Ok(after) => raised == None && movies.items == after
    {
      raised := CrawlInto(movies, PageList(pages), articleNumber, site, review);
    }

    /** The loop of `__get_movies_for_pages`: every page crawled, then, when
        no page raised, each page's records merged into `d`. */
    static method CrawlInto(d: MovieDict, list: seq<nat>, articleNumber: Option<int>,
                            site: nat -> nat -> Response<seq<EmpireMovies.Article>>,
                            review: (string, Record) -> Result<Record>)
      returns (raised: Option<string>)
      modifies d
      ensures match Crawl(old(d.items), list, articleNumber, site, review)
        case Err(e) => raised == Some(e) && d.items == old(d.items)
        case Ok(after) => raised == None && d.items == after
    {
      var found := CrawlPages(list, articleNumber, site, review);
      var gathered := EmpireMovies.Gathered(found);
      if gathered.Err? {
        return Some(gathered.error);
      }
      MergeInto(d, gathered.value);
      return None;
    }

    /** The workers of `pool.starmap`: every page crawled, in page order. */
    static method CrawlPages(list: seq<nat>, articleNumber: Option<int>,
                             site: nat -> nat -> Response<seq<EmpireMovies.Article>>,
                             review: (string, Record) -> Result<Record>)
      returns (found: seq<Result<Option<Movies>>>)
      ensures found == PagesFound(list, articleNumber, site, review)
    {
      ghost var expected := PagesFound(list, articleNumber, site, review);
      found := [];
      var j := 0;
      while j < |list|
        invariant 0 <= j <= |list|
        invariant found == expected[..j]
      {
        var result := CrawlPage(list[j], articleNumber, site, review);
        found := found + [result];
        j := j + 1;
      }
      assert expected[..|list|] == expected;
    }

    /** The `update` of `d` with every page's records, in page order. */
    static method MergeInto(d: MovieDict, results: seq<Option<Movies>>)
      modifies d
      ensures d.items == old(d.items) + EmpireMovies.Merged(results)
    {
      var k := 0;
      while k < |results|
        invariant 0 <= k <= |results|
        invariant d.items == old(d.items) + EmpireMovies.Merged(results[..k])
      {
        MergeIntoSnoc(old(d.items), results, k);
        if results[k].Some? {
          d.items := d.items + results[k].value;
        }
        k := k + 1;
      }
      assert results[..|results|] == results;
    }

    /** `__get_movies` without the export: crawl, then hand back the
        scraper's own dictionary, not a copy. */
    method GetMovies(pages: Pages, articleNumber: Option<int>,
                     site: nat -> nat -> Response<seq<EmpireMovies.Article>>,
                     review: (string, Record) -> Result<Record>)
      returns (r: Result<MovieDict>)
      modifies movies
      ensures match Crawl(old(movies.items), PageList(pages), articleNumber, site, review)
        case Err(e) => r == Err(e) && movies.items == old(movies.items)
        case Ok(after) => r == Ok(movies) && movies.items == after
    {
      var raised := GetMoviesForPages(pages, articleNumber, site, review);
      if raised.Some? {
        return Err(raised.value);
      }
      return Ok(movies);
    }

    /** The retry loop of `solve_movies`; every retry crawls into `e`'s
        dictionary. */
    static method RetryAll(e: LegacyScraper, keys: seq<string>, solvable: Movies,
                           site: nat -> nat -> Response<seq<EmpireMovies.Article>>,
                           review: (string, Record) -> Result<Record>)
      returns (r: Result<(bool, Movies, Movies)>)
      requires forall k :: k in keys ==> k in solvable
      modifies e.movies
      ensures r == RetryFrom(keys, solvable, old(e.movies.items), map[], site, review)
      ensures r.Ok? ==> e.movies.items == r.value.1
    {
      var solved: Movies := map[];
      var j := 0;
      while j < |keys|
        invariant 0 <= j <= |keys|
        invariant RetryFrom(keys[j..], solvable, e.movies.items, solved, site, review)
               == RetryFrom(keys, solvable, old(e.movies.items), map[], site, review)
      {
        var key := keys[j];
        var value := solvable[key];
        ghost var before := e.movies.items;
        assert keys[j..][0] == key;
        var target := EmpireMovies.RetryTarget(value);
        if target.Err? {
          return Err(target.error);
        }
        var (page, article) := target.value;
        var got := e.GetMovies(Single(page), Some(article), site, review);
        if got.Err? {
          return Err(got.error);
        }
        var solvedMovie := got.value;
        if key !in solvedMovie.items || "InfoMovie" !in solvedMovie.items[key] || "InfoMovie" !in value {
          return Err("KeyError");
        }
        if solvedMovie.items[key]["InfoMovie"] != value["InfoMovie"] {
          return Ok((true, solvedMovie.items, solved));
        }
        RetryFromStep(keys, solvable, before, solved, site, review, j, page, article);
        solved := solved + solvedMovie.items;
        j := j + 1;
      }
      return Ok((false, e.movies.items, solved));
    }

    /** `solve_movies` on the restored scraper `e`: `movies` names the same
        dictionary as `e.movies`, so the reset after a mismatch puts back the
        dictionary the retries have already changed. */
    static method SolveMovies(e: LegacyScraper, lines: seq<string>, order: seq<string>,
                              site: nat -> nat -> Response<seq<EmpireMovies.Article>>,
                              review: (string, Record) -> Result<Record>)
      returns (r: Result<Movies>)
      modifies e, e.movies
      ensures r == SolveOutcome(lines, order, old(e.movies.items), site, review)
      ensures r.Ok? ==> e.movies == old(e.movies) && e.movies.items == r.value
    {
      var movies := e.movies;
      var solvable := Solvable(lines, movies.items);
      if solvable.Err? {
        return Err(solvable.error);
      }
      if solvable.value.None? {
        return Ok(movies.items);
      }
      r := SolvePass(e, movies, order, solvable.value.value, site, review);
    }

    /** `solve_movies` from its retry loop on; `movies` is the name the pass
        gave `e.movies` before the loop. */
    static method SolvePass(e: LegacyScraper, movies: MovieDict, order: seq<string>, solvable: Movies,
                            site: nat -> nat -> Response<seq<EmpireMovies.Article>>,
                            review: (string, Record) -> Result<Record>)
      returns (r: Result<Movies>)
      requires e.movies == movies
      modifies e, e.movies
      ensures r == PassOutcome(RetryFrom(EmpireMovies.Retries(order, solvable), solvable, old(e.movies.items),
                                         map[], site, review))
      ensures r.Ok? ==> e.movies == movies && e.movies.items == r.value
    {
      var pass := RetryAll(e, EmpireMovies.Retries(order, solvable), solvable, site, review);
      if pass.Err? {
        return Err(pass.error);
      }
      var (mismatch, _, solved) := pass.value;
      if mismatch {
        e.movies := movies;
      } else if solved != map[] {
        e.movies.items := e.movies.items + solved;
      }
      return Ok(e.movies.items);
    }
  }
}
