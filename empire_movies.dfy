/** empire_scraper/src/empire_movies.py: the crawl over listing pages, the
    retry pass over the records whose review fetch failed, and the final
    dataset. The review pass of one record is the function `review`; the
    listing pages and the retry crawl come in as the network's answers. */
module EmpireMovies {
  import opened Base
  import opened PyStr
  import opened Records
  import opened EmpireHelpers
  import opened EmpireMoviesLog
  import Movie

  // ----------------------------------------------------------------------
  // One article of a listing page
  // ----------------------------------------------------------------------

  /** What the selectors find in one `<article>` of a listing page: the title
      paragraph's text, the link's `href`, and the text of `span.stars--on`. */
  datatype Article = Article(title: Option<string>, href: Option<string>, stars: Option<string>)

  const EssayPrefix := "EMPIRE ESSAY"

  /** `__get_title_from_article`: the stripped title and whether it starts
      with "EMPIRE ESSAY"; both `None` without a title element. */
  function TitleFromArticle(a: Article): (r: (Option<string>, Option<bool>))
    ensures r.0.None? <==> a.title.None?
    ensures r.1.None? <==> a.title.None?
    ensures r.0.Some? ==> IsTrimmed(r.0.value)
    ensures r.1 == Some(true) <==> a.title.Some? && EssayPrefix <= Strip(a.title.value)
  {
    match a.title
    case None => (None, None)
    case Some(text) =>
      var title := Strip(text);
      (Some(title), Some(EssayPrefix <= title))
  }

  const SitePrefix := "https://www.empireonline.com"

  /** `__get_info_from_article`, without the thumbnail: the title and the
      essay flag, the review address (the site followed by the stripped
      link, which can be read back from it) and the rating (one character
      per star); each is `Null` when its element is missing. */
  function ArticleInfo(a: Article): (r: Record)
    ensures r.Keys == {"InfoMovie", "IsEssay", "InfoReviewUrl", "InfoRating"}
    ensures "InfoMovie" in r && "IsEssay" in r && "InfoReviewUrl" in r && "InfoRating" in r
    ensures r["InfoMovie"].Null? <==> a.title.None?
    ensures r["InfoMovie"].Str? ==>
      IsTrimmed(r["InfoMovie"].s) && r["IsEssay"] == Bool(EssayPrefix <= r["InfoMovie"].s)
    ensures r["InfoReviewUrl"].Null? <==> a.href.None?
    ensures a.href.Some? ==>
      r["InfoReviewUrl"].Str? && SitePrefix <= r["InfoReviewUrl"].s &&
      r["InfoReviewUrl"].s[|SitePrefix|..] == Strip(a.href.value)
    ensures r["InfoRating"].Null? <==> a.stars.None?
    ensures a.stars.Some? ==>
      r["InfoRating"] == Int(|Strip(a.stars.value)|) && 0 <= r["InfoRating"].i <= |a.stars.value|
  {
    var (title, isEssay) := TitleFromArticle(a);
    var movie := if title.Some? then Str(title.value) else Null;
    var essay := if isEssay.Some? then Bool(isEssay.value) else Null;
    var review := ReviewField(a.href);
    var rating := RatingField(a.stars);
    InfoRecord(movie, essay, review, rating)
  }

  /** The four fields of an article's information under their keys. */
  function InfoRecord(movie: Value, essay: Value, review: Value, rating: Value): (r: Record)
    ensures r.Keys == {"InfoMovie", "IsEssay", "InfoReviewUrl", "InfoRating"}
    ensures "InfoMovie" in r && "IsEssay" in r && "InfoReviewUrl" in r && "InfoRating" in r
    ensures r["InfoMovie"] == movie && r["IsEssay"] == essay
    ensures r["InfoReviewUrl"] == review && r["InfoRating"] == rating
  {
    map["InfoMovie" := movie, "IsEssay" := essay, "InfoReviewUrl" := review, "InfoRating" := rating]
  }

  /** The review address of an article: the site followed by the stripped
      link, from which the link reads back; `Null` without a link. */
  function ReviewField(href: Option<string>): (v: Value)
    ensures v.Null? <==> href.None?
    ensures href.Some? ==> v.Str? && SitePrefix <= v.s && v.s[|SitePrefix|..] == Strip(href.value)
  {
    if href.Some? then
      var u := SitePrefix + Strip(href.value);
      assert u[|SitePrefix|..] == Strip(href.value);
      Str(u)
    else Null
  }

  /** The rating of an article: one per character of the stripped star
      text, so never more than the text is long; `Null` without stars. */
  function RatingField(stars: Option<string>): (v: Value)
    ensures v.Null? <==> stars.None?
    ensures stars.Some? ==> v == Int(|Strip(stars.value)|) && 0 <= v.i <= |stars.value|
  {
    if stars.Some? then Int(|Strip(stars.value)|) else Null
  }

  /** The listing record of article `i` of page `page`: the page, the
      article number and the listing address, updated with the article's
      information. The retry pass reads the page and the article number
      back from it. */
  function ListingRecord(page: nat, i: nat, url: string, a: Article): (r: Record)
    ensures r.Keys == {"InfoPage", "InfoArticle", "InfoUrl"} + ArticleInfo(a).Keys
    ensures r["InfoPage"] == Int(page) && r["InfoArticle"] == Int(i) && r["InfoUrl"] == Str(url)
    ensures forall k :: k in ArticleInfo(a) ==> r[k] == ArticleInfo(a)[k]
    ensures RetryTarget(r) == Ok((page, i))
  {
    var info := ArticleInfo(a);
    assert "InfoPage" !in info && "InfoArticle" !in info;
    var r := map["InfoPage" := Int(page), "InfoArticle" := Int(i), "InfoUrl" := Str(url)] + info;
    assert r["InfoPage"] == Int(page) && r["InfoArticle"] == Int(i) && "InfoReviewUrl" in r;
    r
  }

  const ReviewsPrefix := "https://www.empireonline.com/movies/reviews/"

  /** The address of listing page `page`. */
  function PageUrl(page: nat): string
  {
    "https://www.empireonline.com/movies/reviews/" + IntToString(page) + "/"
  }

  /** The page number can be read back from a listing address: the digits
      between the reviews prefix and the closing `/`. */
  lemma PageUrlPage(page: nat)
    ensures var u := PageUrl(page);
      ReviewsPrefix <= u && |u| > |ReviewsPrefix| && u[|u| - 1] == '/' &&
      All(u[|ReviewsPrefix|..|u| - 1], IsDigit) && DecimalValue(u[|ReviewsPrefix|..|u| - 1]) == page
  {
    var u := PageUrl(page);
    var digits := NatToString(page);
    assert u == ReviewsPrefix + digits + "/";
    assert u[|ReviewsPrefix|..|u| - 1] == digits;
    DecimalOfNatToString(page);
  }

  /** Different pages have different listing addresses. */
  lemma PageUrlInjective(p: nat, q: nat)
    ensures PageUrl(p) == PageUrl(q) ==> p == q
  {
    PageUrlPage(p);
    PageUrlPage(q);
  }

  // ----------------------------------------------------------------------
  // Record keys
  // ----------------------------------------------------------------------

  /** `f'{page:03d}-{i:02d}'`. */
  function Key(page: nat, i: nat): string
  {
    FormatInt(page, 3) + "-" + FormatInt(i, 2)
  }

  /** The page and the article number can be read back from a key. */
  lemma KeyFields(page: nat, i: nat)
    ensures |Split(Key(page, i), '-')| == 2
    ensures All(Split(Key(page, i), '-')[0], IsDigit) && DecimalValue(Split(Key(page, i), '-')[0]) == page
    ensures All(Split(Key(page, i), '-')[1], IsDigit) && DecimalValue(Split(Key(page, i), '-')[1]) == i
  {
    var p, a := FormatInt(page, 3), FormatInt(i, 2);
    FormatIntValue(page, 3);
    FormatIntValue(i, 2);
    assert '-' !in p by {
      forall c | c in p ensures c != '-' {
        var k :| 0 <= k < |p| && p[k] == c;
        assert IsDigit(p[k]);
      }
    }
    assert '-' !in a by {
      forall c | c in a ensures c != '-' {
        var k :| 0 <= k < |a| && a[k] == c;
        assert IsDigit(a[k]);
      }
    }
    JoinCons(p, [a], "-");
    SplitJoin([p, a], '-');
  }

  /** Different articles get different keys. */
  lemma KeyInjective(p1: nat, i1: nat, p2: nat, i2: nat)
    requires Key(p1, i1) == Key(p2, i2)
    ensures p1 == p2 && i1 == i2
  {
    KeyFields(p1, i1);
    KeyFields(p2, i2);
  }

  /** Different articles of a page get different keys. */
  lemma KeyDistinct(page: nat, i1: nat, i2: nat)
    requires i1 != i2
    ensures Key(page, i1) != Key(page, i2)
  {
    if Key(page, i1) == Key(page, i2) {
      KeyInjective(page, i1, page, i2);
    }
  }

  // ----------------------------------------------------------------------
  // One listing page
  // ----------------------------------------------------------------------

  /** Article `i` (counted from 1) is processed. */
  predicate Selected(articleNumber: Option<int>, i: int)
  {
    articleNumber.None? || articleNumber.value == i
  }

  /** What the review pass makes of each article of a page, the articles
      counted from 1: the movie, or the exception `get_movie` raises. */
  function PageMovies(page: nat, url: string, articles: seq<Article>, review: (string, Record) -> Result<Record>)
    : nat -> Result<Record>
  {
    (i: nat) => ArticleMovie(page, url, articles, review, i)
  }

  /** Article `i` of a page, within the page, is reviewed from its listing
      record under its key. */
  lemma PageMoviesAt(page: nat, url: string, articles: seq<Article>, review: (string, Record) -> Result<Record>,
                     i: nat)
    requires 1 <= i <= |articles|
    ensures PageMovies(page, url, articles, review)(i) == review(Key(page, i), ListingRecord(page, i, url, articles[i - 1]))
  {
  }

  /** The movie of article `i` of a page, or nothing past its last article. */
  function ArticleMovie(page: nat, url: string, articles: seq<Article>, review: (string, Record) -> Result<Record>,
                        i: nat): Result<Record>
  {
    if 1 <= i <= |articles| then review(Key(page, i), ListingRecord(page, i, url, articles[i - 1])) else Ok(map[])
  }

  /** The loop over the first `n` articles of a page, where `movie` gives
      the movie of each article: the dictionary of the selected ones, or the
      exception of the first selected article whose review raises. */
  function Listed(page: nat, articleNumber: Option<int>, movie: nat -> Result<Record>, n: nat): Result<Movies>
  {
    if n == 0 then Ok(map[])
    else
      match Listed(page, articleNumber, movie, n - 1)
      case Err(e) => Err(e)
      case Ok(before) =>
        if !Selected(articleNumber, n) then Ok(before)
        else
          match movie(n)
          case Err(e) => Err(e)
          case Ok(m) => Ok(before[Key(page, n) := m])
  }

  /** Once a review has raised, the loop raises that exception however many
      articles follow. */
  lemma {:induction false} ListedStopped(page: nat, articleNumber: Option<int>, movie: nat -> Result<Record>,
                                         m: nat, n: nat)
    requires m <= n && Listed(page, articleNumber, movie, m).Err?
    ensures Listed(page, articleNumber, movie, n) == Listed(page, articleNumber, movie, m)
  {
    if m < n {
      ListedStopped(page, articleNumber, movie, m, n - 1);
    }
  }

  /** The keys of a page's movies are those of its selected articles. */
  lemma {:induction false} ListedKeys(page: nat, articleNumber: Option<int>, movie: nat -> Result<Record>, n: nat)
    requires Listed(page, articleNumber, movie, n).Ok?
    ensures Listed(page, articleNumber, movie, n).value.Keys
         == set i | 1 <= i <= n && Selected(articleNumber, i) :: Key(page, i)
  {
    if n > 0 {
      ListedKeys(page, articleNumber, movie, n - 1);
    }
  }

  /** Each selected article is stored under its own key with its own movie. */
  lemma {:induction false} ListedValues(page: nat, articleNumber: Option<int>, movie: nat -> Result<Record>,
                                        n: nat, i: nat)
    requires Listed(page, articleNumber, movie, n).Ok?
    requires 1 <= i <= n && Selected(articleNumber, i)
    ensures movie(i).Ok?
    ensures Key(page, i) in Listed(page, articleNumber, movie, n).value
    ensures Listed(page, articleNumber, movie, n).value[Key(page, i)] == movie(i).value
  {
    if i < n {
      ListedValues(page, articleNumber, movie, n - 1, i);
      KeyDistinct(page, n, i);
    }
  }

  /** The loop raises exactly when a selected article's review raises, and
      then with the exception of the first such article. */
  lemma {:induction false} ListedRaises(page: nat, articleNumber: Option<int>, movie: nat -> Result<Record>, n: nat)
    ensures Listed(page, articleNumber, movie, n).Err? <==>
      exists i :: 1 <= i <= n && Selected(articleNumber, i) && movie(i).Err?
    ensures Listed(page, articleNumber, movie, n).Err? ==>
      exists i :: 1 <= i <= n && Selected(articleNumber, i) &&
        movie(i) == Err(Listed(page, articleNumber, movie, n).error) &&
        forall l :: 1 <= l < i && Selected(articleNumber, l) ==> movie(l).Ok?
  {
    if n > 0 {
      ListedRaises(page, articleNumber, movie, n - 1);
      if Listed(page, articleNumber, movie, n - 1).Ok? {
        forall l | 1 <= l < n && Selected(articleNumber, l)
          ensures movie(l).Ok?
        {
          ListedValues(page, articleNumber, movie, n - 1, l);
        }
      }
    }
  }

  /** A page's dictionary maps each selected article's key to the review of
      that article's listing record. */
  lemma ListedReviewed(page: nat, articleNumber: Option<int>, url: string, articles: seq<Article>,
                       review: (string, Record) -> Result<Record>, i: nat)
    requires Listed(page, articleNumber, PageMovies(page, url, articles, review), |articles|).Ok?
    requires 1 <= i <= |articles| && Selected(articleNumber, i)
    ensures var movies := Listed(page, articleNumber, PageMovies(page, url, articles, review), |articles|).value;
      var reviewed := review(Key(page, i), ListingRecord(page, i, url, articles[i - 1]));
      reviewed.Ok? && Key(page, i) in movies && movies[Key(page, i)] == reviewed.value
  {
    ListedValues(page, articleNumber, PageMovies(page, url, articles, review), |articles|, i);
  }

  /** With an article number, a page yields that article alone, or nothing
      when the page has fewer articles. */
  lemma ListedOne(page: nat, j: int, movie: nat -> Result<Record>, n: nat)
    requires Listed(page, Some(j), movie, n).Ok?
    ensures Listed(page, Some(j), movie, n).value.Keys == if 1 <= j <= n then {Key(page, j)} else {}
  {
    ListedKeys(page, Some(j), movie, n);
    var keys := set i | 1 <= i <= n && Selected(Some(j), i) :: Key(page, i);
    if 1 <= j <= n {
      assert Key(page, j) in keys;
    }
  }

  /** What `get_movies_for_page` returns and logs: `None` when the listing
      fetch fails or the page has no articles, the exception of the first
      review that raises, and otherwise the movies of its selected
      articles. */
  function PageOutcome(page: nat, articleNumber: Option<int>, maxAttempts: int,
                       respond: nat -> Response<seq<Article>>, review: (string, Record) -> Result<Record>)
    : (Result<Option<Movies>>, seq<Movie.LogLine>)
  {
    var url := PageUrl(page);
    var (got, entries) := Loop(url, maxAttempts, respond, 0);
    var opening := [Movie.Note(Info, "GetReviewPage", IntToString(page), url)] + Movie.Attempts(entries);
    match got
    case Failed => (Ok(None), opening + [Movie.Note(Error, "RequestFailed", IntToString(page), url)])
    case Content(articles) =>
      if |articles| == 0 then (Ok(None), opening + [Movie.Note(Info, "NonexistentPage", IntToString(page), url)])
      else
        var listed := Listed(page, articleNumber, PageMovies(page, url, articles, review), |articles|);
        (if listed.Err? then Err(listed.error) else Ok(Some(listed.value)), opening)
  }

  /** A page yields no dictionary exactly when its fetch failed or it has no
      articles; it raises exactly when the review of a selected article
      raises; otherwise its keys are those of its selected articles. */
  lemma PageOutcomeKeys(page: nat, articleNumber: Option<int>, maxAttempts: int,
                        respond: nat -> Response<seq<Article>>, review: (string, Record) -> Result<Record>)
    ensures var got := Loop(PageUrl(page), maxAttempts, respond, 0).0;
      PageOutcome(page, articleNumber, maxAttempts, respond, review).0 == Ok(None) <==>
      got.Failed? || |got.content| == 0
    ensures var got := Loop(PageUrl(page), maxAttempts, respond, 0).0;
      PageOutcome(page, articleNumber, maxAttempts, respond, review).0.Err? <==>
      got.Content? &&
      exists i :: 1 <= i <= |got.content| && Selected(articleNumber, i) &&
                  review(Key(page, i), ListingRecord(page, i, PageUrl(page), got.content[i - 1])).Err?
    ensures var got := Loop(PageUrl(page), maxAttempts, respond, 0).0;
      var r := PageOutcome(page, articleNumber, maxAttempts, respond, review).0;
      r.Ok? && r.value.Some? ==>
      r.value.value.Keys == set i | 1 <= i <= |got.content| && Selected(articleNumber, i) :: Key(page, i)
  {
    var got := Loop(PageUrl(page), maxAttempts, respond, 0).0;
    if got.Content? {
      var movie := PageMovies(page, PageUrl(page), got.content, review);
      ListedRaises(page, articleNumber, movie, |got.content|);
      if Listed(page, articleNumber, movie, |got.content|).Ok? {
        ListedKeys(page, articleNumber, movie, |got.content|);
      }
      if i :| 1 <= i <= |got.content| && Selected(articleNumber, i) &&
              review(Key(page, i), ListingRecord(page, i, PageUrl(page), got.content[i - 1])).Err? {
        PageMoviesAt(page, PageUrl(page), got.content, review, i);
      }
    }
  }

  // ----------------------------------------------------------------------
  // Several pages
  // ----------------------------------------------------------------------

  /** The article number paired with each page by `zip_longest`. */
  function ArticleNumberFor(articleNumbers: Option<seq<int>>, j: int): Option<int>
  {
    if articleNumbers.Some? && 0 <= j < |articleNumbers.value| then Some(articleNumbers.value[j]) else None
  }

  /** What `pool.starmap` hands back: every page's result, or the exception
      of the first page, in page order, that raised. */
  function Gathered(results: seq<Result<Option<Movies>>>): (r: Result<seq<Option<Movies>>>)
    ensures r.Ok? <==> forall j :: 0 <= j < |results| ==> results[j].Ok?
    ensures r.Ok? ==> |r.value| == |results| && forall j :: 0 <= j < |results| ==> results[j] == Ok(r.value[j])
    ensures r.Err? ==>
      exists j :: 0 <= j < |results| && results[j] == Err(r.error) &&
                  forall l :: 0 <= l < j ==> results[l].Ok?
  {
    if results == [] then Ok([])
    else
      match results[0]
      case Err(e) => Err(e)
      case Ok(first) =>
        var rest := Gathered(results[1..]);
        assert forall j :: 1 <= j < |results| ==> results[j] == results[1..][j - 1];
        if rest.Err? then
          var j :| 0 <= j < |results[1..]| && results[1..][j] == Err(rest.error) &&
            forall l :: 0 <= l < j ==> results[1..][l].Ok?;
          assert results[j + 1] == Err(rest.error);
          Err(rest.error)
        else Ok([first] + rest.value)
  }

  /** The page results merged in order, later results overwriting earlier
      ones; `None` results are skipped. */
  function Merged(results: seq<Option<Movies>>): Movies
  {
    if results == [] then map[]
    else
      var before := Merged(results[..|results| - 1]);
      var last := results[|results| - 1];
      if last.Some? then before + last.value else before
  }

  /** The merged dictionary holds every key of every result. */
  lemma {:induction false} MergedKeys(results: seq<Option<Movies>>)
    ensures forall k :: k in Merged(results) <==>
      exists j :: 0 <= j < |results| && results[j].Some? && k in results[j].value
  {
    if results != [] {
      var init := results[..|results| - 1];
      MergedKeys(init);
      forall k | k in Merged(results)
        ensures exists j :: 0 <= j < |results| && results[j].Some? && k in results[j].value
      {
        if k in Merged(init) {
          var j :| 0 <= j < |init| && init[j].Some? && k in init[j].value;
          assert results[j] == init[j];
        }
      }
      forall k, j | 0 <= j < |results| && results[j].Some? && k in results[j].value
        ensures k in Merged(results)
      {
        if j < |init| {
          assert init[j] == results[j];
        }
      }
    }
  }

  /** A key takes its value from the last result that has it. */
  lemma {:induction false} MergedLast(results: seq<Option<Movies>>, j: int, k: string)
    requires 0 <= j < |results| && results[j].Some? && k in results[j].value
    requires forall l :: j < l < |results| ==> results[l].None? || k !in results[l].value
    ensures k in Merged(results) && Merged(results)[k] == results[j].value[k]
  {
    var init := results[..|results| - 1];
    if j < |results| - 1 {
      assert init[j] == results[j];
      MergedLast(init, j, k);
    }
  }

  /** Merging one more result. */
  lemma MergedSnoc(results: seq<Option<Movies>>, j: int)
    requires 0 <= j < |results|
    ensures Merged(results[..j + 1])
         == if results[j].Some? then Merged(results[..j]) + results[j].value else Merged(results[..j])
  {
    assert results[..j + 1][..j] == results[..j];
  }

  /** The results of the pages, in order. */
  function PageResults(pages: seq<nat>, articleNumbers: Option<seq<int>>, maxAttempts: int,
                       site: nat -> nat -> Response<seq<Article>>, review: (string, Record) -> Result<Record>)
    : (results: seq<Result<Option<Movies>>>)
    ensures |results| == |pages|
  {
    seq(|pages|, j requires 0 <= j < |pages| =>
      PageOutcome(pages[j], ArticleNumberFor(articleNumbers, j), maxAttempts, site(pages[j]), review).0)
  }

  /** The lines each page logs, in page order. */
  function PageLogs(pages: seq<nat>, articleNumbers: Option<seq<int>>, maxAttempts: int,
                    site: nat -> nat -> Response<seq<Article>>, review: (string, Record) -> Result<Record>)
    : (logs: seq<seq<Movie.LogLine>>)
    ensures |logs| == |pages|
  {
    seq(|pages|, j requires 0 <= j < |pages| =>
      PageOutcome(pages[j], ArticleNumberFor(articleNumbers, j), maxAttempts, site(pages[j]), review).1)
  }

  /** The pieces one after the other. */
  function Flatten<T>(pieces: seq<seq<T>>): seq<T>
  {
    if pieces == [] then [] else Flatten(pieces[..|pieces| - 1]) + pieces[|pieces| - 1]
  }

  /** One more page of a crawl. */
  lemma CrawlStep(pages: seq<nat>, articleNumbers: Option<seq<int>>, maxAttempts: int,
                  site: nat -> nat -> Response<seq<Article>>, review: (string, Record) -> Result<Record>,
                  j: int, result: Result<Option<Movies>>, pageLog: seq<Movie.LogLine>)
    requires 0 <= j < |pages|
    requires (result, pageLog)
          == PageOutcome(pages[j], ArticleNumberFor(articleNumbers, j), maxAttempts, site(pages[j]), review)
    ensures var results := PageResults(pages, articleNumbers, maxAttempts, site, review);
      results[..j + 1] == results[..j] + [result]
    ensures var logs := PageLogs(pages, articleNumbers, maxAttempts, site, review);
      Flatten(logs[..j + 1]) == Flatten(logs[..j]) + pageLog
  {
    var results := PageResults(pages, articleNumbers, maxAttempts, site, review);
    assert results[..j + 1] == results[..j] + [results[j]];
    var logs := PageLogs(pages, articleNumbers, maxAttempts, site, review);
    assert logs[..j + 1][..j] == logs[..j];
  }

  /** What a crawl returns: the pages' dictionaries merged in page order, or
      the exception of the first page that raised. */
  function Crawled(pages: seq<nat>, articleNumbers: Option<seq<int>>, maxAttempts: int,
                   site: nat -> nat -> Response<seq<Article>>, review: (string, Record) -> Result<Record>)
    : (r: Result<Movies>)
    ensures r.Ok? <==> forall j :: 0 <= j < |pages| ==>
      PageResults(pages, articleNumbers, maxAttempts, site, review)[j].Ok?
  {
    match Gathered(PageResults(pages, articleNumbers, maxAttempts, site, review))
    case Err(e) => Err(e)
    case Ok(results) => Ok(Merged(results))
  }

  /** Distinct pages never share a key, so every record of a crawl is the one
      its own page produced. */
  lemma CrawledRecord(pages: seq<nat>, articleNumbers: Option<seq<int>>, maxAttempts: int,
                      site: nat -> nat -> Response<seq<Article>>, review: (string, Record) -> Result<Record>,
                      j: int, i: nat)
    requires forall a, b :: 0 <= a < b < |pages| ==> pages[a] != pages[b]
    requires Crawled(pages, articleNumbers, maxAttempts, site, review).Ok?
    requires 0 <= j < |pages|
    requires var r := PageResults(pages, articleNumbers, maxAttempts, site, review)[j];
      r.Ok? && r.value.Some? && Key(pages[j], i) in r.value.value
    ensures Key(pages[j], i) in Crawled(pages, articleNumbers, maxAttempts, site, review).value
    ensures Crawled(pages, articleNumbers, maxAttempts, site, review).value[Key(pages[j], i)]
         == PageResults(pages, articleNumbers, maxAttempts, site, review)[j].value.value[Key(pages[j], i)]
  {
    var results := PageResults(pages, articleNumbers, maxAttempts, site, review);
    var merged := Gathered(results).value;
    forall l | j < l < |merged|
      ensures merged[l].None? || Key(pages[j], i) !in merged[l].value
    {
      var an := ArticleNumberFor(articleNumbers, l);
      assert results[l] == Ok(merged[l]);
      PageOutcomeKeys(pages[l], an, maxAttempts, site(pages[l]), review);
      if merged[l].Some? && Key(pages[j], i) in merged[l].value {
        var got := Loop(PageUrl(pages[l]), maxAttempts, site(pages[l]), 0).0;
        var i' :| 1 <= i' <= |got.content| && Selected(an, i') && Key(pages[l], i') == Key(pages[j], i);
        KeyInjective(pages[l], i', pages[j], i);
      }
    }
    assert results[j] == Ok(merged[j]);
    MergedLast(merged, j, Key(pages[j], i));
  }

  // ----------------------------------------------------------------------
  // The retry pass
  // ----------------------------------------------------------------------

  /** The keys are listed once each. */
  predicate Distinct(keys: seq<string>)
  {
    forall a, b :: 0 <= a < b < |keys| ==> keys[a] != keys[b]
  }

  /** `order` lists the keys of `m` once each: the iteration order of a
      dictionary. */
  predicate KeyOrder(order: seq<string>, m: Movies)
  {
    Distinct(order) && (forall k :: k in order ==> k in m) && forall k :: k in m ==> k in order
  }

  /** With no record to retry, no key is retried. */
  lemma {:induction false} RetriesOfNothing(order: seq<string>)
    ensures Retries(order, map[]) == []
  {
    if order != [] {
      RetriesOfNothing(order[1..]);
    }
  }

  /** The keys of `solvable` in the order of `order`. */
  function Retries(order: seq<string>, solvable: Movies): (keys: seq<string>)
    ensures forall k :: k in keys <==> k in order && k in solvable
    ensures Distinct(order) ==> Distinct(keys)
  {
    if order == [] then []
    else
      var rest := Retries(order[1..], solvable);
      assert Distinct(order) ==> Distinct(order[1..]) && order[0] !in rest by {
        if Distinct(order) {
          forall a, b | 0 <= a < b < |order[1..]|
            ensures order[1..][a] != order[1..][b]
          {
            assert order[1..][a] == order[a + 1] && order[1..][b] == order[b + 1];
          }
        }
      }
      if order[0] in solvable then [order[0]] + rest else rest
  }

  /** When `order` is the key order of a dictionary holding every record to
      retry, each of them is retried exactly once. */
  lemma RetriesOnce(order: seq<string>, movies: Movies, solvable: Movies)
    requires KeyOrder(order, movies) && solvable.Keys <= movies.Keys
    ensures Distinct(Retries(order, solvable))
    ensures forall k :: k in Retries(order, solvable) <==> k in solvable
  {
  }

  /** The page and the article number a retry reads from a stored record;
      the log line before it reads the review address. A page that is not a
      natural number raises `TypeError`. */
  function RetryTarget(value: Record): (r: Result<(nat, int)>)
    ensures r.Ok? <==> ("InfoReviewUrl" in value && "InfoPage" in value && "InfoArticle" in value &&
                        value["InfoPage"].Int? && value["InfoPage"].i >= 0 && value["InfoArticle"].Int?)
    ensures r.Ok? ==> value["InfoPage"] == Int(r.value.0) && value["InfoArticle"] == Int(r.value.1)
  {
    if "InfoReviewUrl" !in value || "InfoPage" !in value || "InfoArticle" !in value then Err("KeyError")
    else match (value["InfoPage"], value["InfoArticle"])
      case (Int(page), Int(article)) => if page >= 0 then Ok((page, article)) else Err("TypeError")
      case _ => Err("TypeError")
  }

  /** The retry of one record: `get_movies_for_pages([page], [article])`. */
  function RetryCrawl(maxAttempts: int, site: nat -> nat -> Response<seq<Article>>,
                      review: (string, Record) -> Result<Record>): (nat, int) -> Result<Movies>
  {
    (page: nat, article: int) => Crawled([page], Some([article]), maxAttempts, site, review)
  }

  /** A retry whose listing page fails again, or has no articles, brings back
      an empty dictionary. */
  lemma RetryCrawlFailed(page: nat, article: int, maxAttempts: int, site: nat -> nat -> Response<seq<Article>>,
                         review: (string, Record) -> Result<Record>)
    requires var got := Loop(PageUrl(page), maxAttempts, site(page), 0).0;
      got.Failed? || |got.content| == 0
    ensures RetryCrawl(maxAttempts, site, review)(page, article) == Ok(map[])
  {
    var results := PageResults([page], Some([article]), maxAttempts, site, review);
    PageOutcomeKeys(page, Some(article), maxAttempts, site(page), review);
    assert results[0] == Ok(None);
    var gathered := Gathered(results);
    assert gathered.Ok? && |gathered.value| == 1 && gathered.value[0] == None;
    assert gathered.value == [None];
    var none: seq<Option<Movies>> := [None];
    assert none[..0] == [];
  }

  /** What the retry of `key` brought back. */
  function Recrawled(key: string, solvable: Movies, recrawl: (nat, int) -> Result<Movies>): Result<Movies>
    requires key in solvable && RetryTarget(solvable[key]).Ok?
  {
    var (page, article) := RetryTarget(solvable[key]).value;
    recrawl(page, article)
  }

  /** The retry of `key` brought back a record with the stored title. */
  predicate SameTitle(key: string, solvable: Movies, recrawl: (nat, int) -> Result<Movies>)
    requires key in solvable && RetryTarget(solvable[key]).Ok?
  {
    var got := Recrawled(key, solvable, recrawl);
    got.Ok? && key in got.value && "InfoMovie" in got.value[key] && "InfoMovie" in solvable[key] &&
    got.value[key]["InfoMovie"] == solvable[key]["InfoMovie"]
  }

  /** The loop of `solve_movies` as written, from `keys` on with `solved`
      gathered so far: `None` at the first title mismatch, the exception of a
      retry crawl that raises, and `KeyError` when a field is missing or the
      retry did not bring the record back. */
  function SolveFrom(keys: seq<string>, solvable: Movies, recrawl: (nat, int) -> Result<Movies>, solved: Movies)
    : Result<Option<Movies>>
    requires forall k :: k in keys ==> k in solvable
  {
    if keys == [] then Ok(Some(solved))
    else
      var key := keys[0];
      var value := solvable[key];
      match RetryTarget(value)
      case Err(e) => Err(e)
      case Ok(_) =>
        match Recrawled(key, solvable, recrawl)
        case Err(e) => Err(e)
        case Ok(got) =>
          if key !in got || "InfoMovie" !in got[key] || "InfoMovie" !in value then Err("KeyError")
          else if got[key]["InfoMovie"] != value["InfoMovie"] then Ok(None)
          else SolveFrom(keys[1..], solvable, recrawl, solved + got)
  }

  /** A retry whose title matches passes its records on to the rest of the
      loop. */
  lemma SolveFromStep(keys: seq<string>, solvable: Movies, recrawl: (nat, int) -> Result<Movies>,
                      solved: Movies, j: int)
    requires forall k :: k in keys ==> k in solvable
    requires 0 <= j < |keys|
    requires RetryTarget(solvable[keys[j]]).Ok? && SameTitle(keys[j], solvable, recrawl)
    ensures SolveFrom(keys[j..], solvable, recrawl, solved)
         == SolveFrom(keys[j + 1..], solvable, recrawl, solved + Recrawled(keys[j], solvable, recrawl).value)
  {
    assert keys[j..][0] == keys[j] && keys[j..][1..] == keys[j + 1..];
  }

  /** The dictionaries the retries of `keys` brought back, merged in the
      order of the retries: a later retry overwrites an earlier one on a
      shared key. */
  function Retrieved(keys: seq<string>, solvable: Movies, recrawl: (nat, int) -> Result<Movies>): Movies
    requires forall k :: k in keys ==> k in solvable
    requires forall j :: 0 <= j < |keys| ==>
      RetryTarget(solvable[keys[j]]).Ok? && Recrawled(keys[j], solvable, recrawl).Ok?
    decreases |keys|
  {
    if keys == [] then map[]
    else Recrawled(keys[0], solvable, recrawl).value + Retrieved(keys[1..], solvable, recrawl)
  }

  /** A key is in the merged retries exactly when some retry brought it
      back, and it holds what the last such retry brought back. */
  lemma {:induction false} RetrievedLast(keys: seq<string>, solvable: Movies,
                                         recrawl: (nat, int) -> Result<Movies>, key: string)
    requires forall k :: k in keys ==> k in solvable
    requires forall j :: 0 <= j < |keys| ==>
      RetryTarget(solvable[keys[j]]).Ok? && Recrawled(keys[j], solvable, recrawl).Ok?
    ensures key in Retrieved(keys, solvable, recrawl) <==>
      exists j :: 0 <= j < |keys| && key in Recrawled(keys[j], solvable, recrawl).value
    ensures forall j ::
      (0 <= j < |keys| && key in Recrawled(keys[j], solvable, recrawl).value &&
       forall l :: j < l < |keys| ==> key !in Recrawled(keys[l], solvable, recrawl).value) ==>
      Retrieved(keys, solvable, recrawl)[key] == Recrawled(keys[j], solvable, recrawl).value[key]
  {
    if keys != [] {
      var rest := keys[1..];
      RetrievedLast(rest, solvable, recrawl, key);
      forall j | 1 <= j < |keys|
        ensures Recrawled(keys[j], solvable, recrawl) == Recrawled(rest[j - 1], solvable, recrawl)
      {
        assert keys[j] == rest[j - 1];
      }
      if key in Retrieved(rest, solvable, recrawl) {
        var j' :| 0 <= j' < |rest| && key in Recrawled(rest[j'], solvable, recrawl).value;
        assert key in Recrawled(keys[j' + 1], solvable, recrawl).value;
      }
      forall j | 0 <= j < |keys| && key in Recrawled(keys[j], solvable, recrawl).value &&
          (forall l :: j < l < |keys| ==> key !in Recrawled(keys[l], solvable, recrawl).value)
        ensures Retrieved(keys, solvable, recrawl)[key] == Recrawled(keys[j], solvable, recrawl).value[key]
      {
        if j > 0 {
          assert key in Recrawled(rest[j - 1], solvable, recrawl).value;
          forall l | j - 1 < l < |rest|
            ensures key !in Recrawled(rest[l], solvable, recrawl).value
          {
            assert Recrawled(rest[l], solvable, recrawl) == Recrawled(keys[l + 1], solvable, recrawl);
          }
        }
      }
    }
  }

  /** A pass that ends with a dictionary checked every title, and the
      dictionary holds every retried key with the records gathered before;
      it is exactly the records gathered before, updated with the merged
      retries. */
  lemma {:induction false} SolveFromAccepted(keys: seq<string>, solvable: Movies,
                                             recrawl: (nat, int) -> Result<Movies>, solved: Movies)
    requires forall k :: k in keys ==> k in solvable
    requires SolveFrom(keys, solvable, recrawl, solved).Ok?
    requires SolveFrom(keys, solvable, recrawl, solved).value.Some?
    ensures forall j :: 0 <= j < |keys| ==>
      RetryTarget(solvable[keys[j]]).Ok? && SameTitle(keys[j], solvable, recrawl)
    ensures var m := SolveFrom(keys, solvable, recrawl, solved).value.value;
      solved.Keys <= m.Keys && forall j :: 0 <= j < |keys| ==> keys[j] in m
    ensures forall j :: 0 <= j < |keys| ==> Recrawled(keys[j], solvable, recrawl).Ok?
    ensures SolveFrom(keys, solvable, recrawl, solved).value.value == solved + Retrieved(keys, solvable, recrawl)
  {
    if keys != [] {
      var got := Recrawled(keys[0], solvable, recrawl).value;
      SolveFromAccepted(keys[1..], solvable, recrawl, solved + got);
      var later := Retrieved(keys[1..], solvable, recrawl);
      assert (solved + got) + later == solved + (got + later);
      forall j | 1 <= j < |keys|
        ensures RetryTarget(solvable[keys[j]]).Ok? && SameTitle(keys[j], solvable, recrawl)
      {
        assert keys[j] == keys[1..][j - 1];
      }
      var m := SolveFrom(keys, solvable, recrawl, solved).value.value;
      forall j | 1 <= j < |keys|
        ensures keys[j] in m
      {
        assert keys[j] == keys[1..][j - 1];
      }
    }
  }

  /** A pass that aborts does so at a retry whose title differs. */
  lemma {:induction false} SolveFromAborted(keys: seq<string>, solvable: Movies,
                                            recrawl: (nat, int) -> Result<Movies>, solved: Movies) returns (j: int)
    requires forall k :: k in keys ==> k in solvable
    requires SolveFrom(keys, solvable, recrawl, solved) == Ok(None)
    ensures 0 <= j < |keys| && RetryTarget(solvable[keys[j]]).Ok? && !SameTitle(keys[j], solvable, recrawl)
    ensures forall l :: 0 <= l < j ==> RetryTarget(solvable[keys[l]]).Ok? && SameTitle(keys[l], solvable, recrawl)
  {
    if SameTitle(keys[0], solvable, recrawl) {
      var got := Recrawled(keys[0], solvable, recrawl).value;
      var j' := SolveFromAborted(keys[1..], solvable, recrawl, solved + got);
      j := j' + 1;
      forall l | 1 <= l < j
        ensures RetryTarget(solvable[keys[l]]).Ok? && SameTitle(keys[l], solvable, recrawl)
      {
        assert keys[l] == keys[1..][l - 1];
      }
    } else {
      j := 0;
    }
  }

  /** What `solve_movies` returns on the log analysis: nothing to retry gives
      an empty dictionary, otherwise the outcome of the loop, beside the
      records to drop. */
  function SolveOutcome(analysis: Result<(Movies, Movies)>, order: seq<string>,
                        recrawl: (nat, int) -> Result<Movies>)
    : (r: Result<(Option<Movies>, Movies)>)
    ensures r.Ok? ==> analysis.Ok? && r.value.1 == analysis.value.1
  {
    match analysis
    case Err(e) => Err(e)
    case Ok((solvable, nonSolvable)) =>
      if solvable == map[] then Ok((Some(map[]), nonSolvable))
      else
        match SolveFrom(Retries(order, solvable), solvable, recrawl, map[])
        case Err(e) => Err(e)
        case Ok(solved) => Ok((solved, nonSolvable))
  }

  /** A retry whose listing page fails again brings back an empty
      dictionary, and the loop as written then raises `KeyError` instead of
      skipping it; the intended loop goes on with the next record. */
  lemma SolveFromFailedRetry(keys: seq<string>, solvable: Movies, maxAttempts: int,
                             site: nat -> nat -> Response<seq<Article>>, review: (string, Record) -> Result<Record>,
                             solved: Movies, page: nat, article: int)
    requires keys != [] && forall k :: k in keys ==> k in solvable
    requires RetryTarget(solvable[keys[0]]) == Ok((page, article))
    requires Loop(PageUrl(page), maxAttempts, site(page), 0).0.Failed?
    ensures SolveFrom(keys, solvable, RetryCrawl(maxAttempts, site, review), solved) == Err("KeyError")
    ensures SolveFromFixed(keys, solvable, RetryCrawl(maxAttempts, site, review), solved)
         == SolveFromFixed(keys[1..], solvable, RetryCrawl(maxAttempts, site, review), solved)
  {
    RetryCrawlFailed(page, article, maxAttempts, site, review);
  }

  /** The loop as evidently intended: a retry that brought nothing back is
      skipped, as the `None` test before the title check means to. */
  function SolveFromFixed(keys: seq<string>, solvable: Movies, recrawl: (nat, int) -> Result<Movies>,
                          solved: Movies)
    : Result<Option<Movies>>
    requires forall k :: k in keys ==> k in solvable
  {
    if keys == [] then Ok(Some(solved))
    else
      var key := keys[0];
      var value := solvable[key];
      match RetryTarget(value)
      case Err(e) => Err(e)
      case Ok(_) =>
        match Recrawled(key, solvable, recrawl)
        case Err(e) => Err(e)
        case Ok(got) =>
          if key !in got then SolveFromFixed(keys[1..], solvable, recrawl, solved)
          else if "InfoMovie" !in got[key] || "InfoMovie" !in value then Err("KeyError")
          else if got[key]["InfoMovie"] != value["InfoMovie"] then Ok(None)
          else SolveFromFixed(keys[1..], solvable, recrawl, solved + got)
  }

  /** Records with their fields, whose retries do not raise, never make the
      intended loop raise, whatever the retries bring back; and wherever the
      loop as written gets through, the intended one agrees with it. */
  lemma {:induction false} SolveFromFixedTotal(keys: seq<string>, solvable: Movies,
                                               recrawl: (nat, int) -> Result<Movies>, solved: Movies)
    requires forall k :: k in keys ==>
      k in solvable && RetryTarget(solvable[k]).Ok? && "InfoMovie" in solvable[k]
    requires forall k :: k in keys ==> Recrawled(k, solvable, recrawl).Ok?
    requires forall k :: k in keys && k in Recrawled(k, solvable, recrawl).value ==>
      "InfoMovie" in Recrawled(k, solvable, recrawl).value[k]
    ensures SolveFromFixed(keys, solvable, recrawl, solved).Ok?
    ensures SolveFrom(keys, solvable, recrawl, solved).Ok? ==>
      SolveFromFixed(keys, solvable, recrawl, solved) == SolveFrom(keys, solvable, recrawl, solved)
  {
    if keys != [] {
      var got := Recrawled(keys[0], solvable, recrawl).value;
      assert forall k :: k in keys[1..] ==> k in keys;
      SolveFromFixedTotal(keys[1..], solvable, recrawl, solved);
      SolveFromFixedTotal(keys[1..], solvable, recrawl, solved + got);
    }
  }

  // ----------------------------------------------------------------------
  // The final dataset
  // ----------------------------------------------------------------------

  /** `get_movies` after the crawl, as written: the solved records are
      merged in unless the dictionary is empty, and the records to drop are
      popped; a `None` from an aborted pass reaches `update` and raises
      `TypeError`. */
  function Finished(crawled: Movies, solve: Result<(Option<Movies>, Movies)>): (r: Result<Movies>)
    ensures r.Ok? ==> solve.Ok? && solve.value.0.Some? && r.value.Keys !! solve.value.1.Keys
    ensures solve.Ok? && solve.value.0.None? ==> r == Err("TypeError")
  {
    match solve
    case Err(e) => Err(e)
    case Ok((solved, nonSolvable)) =>
      if solved == Some(map[]) then Ok(crawled - nonSolvable.Keys)
      else if solved.None? then Err("TypeError")
      else Ok((crawled + solved.value) - nonSolvable.Keys)
  }

  /** An aborted retry pass makes `get_movies` raise. */
  lemma FinishedAborted(crawled: Movies, nonSolvable: Movies)
    ensures Finished(crawled, Ok((None, nonSolvable))) == Err("TypeError")
    ensures FinishedFixed(crawled, Ok((None, nonSolvable))) == Ok(crawled - nonSolvable.Keys)
  {
  }

  /** `get_movies` as evidently intended: an aborted pass merges nothing but
      the records to drop are still dropped. */
  function FinishedFixed(crawled: Movies, solve: Result<(Option<Movies>, Movies)>): (r: Result<Movies>)
    ensures solve.Ok? <==> r.Ok?
    ensures r.Ok? ==> forall k :: k in r.value <==>
      (k in crawled || (solve.value.0.Some? && k in solve.value.0.value)) && k !in solve.value.1
    ensures r.Ok? ==> forall k :: k in r.value ==>
      r.value[k] == if solve.value.0.Some? && k in solve.value.0.value then solve.value.0.value[k] else crawled[k]
  {
    match solve
    case Err(e) => Err(e)
    case Ok((solved, nonSolvable)) =>
      Ok((if solved.Some? then crawled + solved.value else crawled) - nonSolvable.Keys)
  }

  /** Wherever `get_movies` as written gets through, the intended version
      agrees with it. */
  lemma FinishedAgrees(crawled: Movies, solve: Result<(Option<Movies>, Movies)>)
    requires Finished(crawled, solve).Ok?
    ensures FinishedFixed(crawled, solve) == Finished(crawled, solve)
  {
    if solve.value.0 == Some(map[]) {
      assert crawled + map[] == crawled;
    }
  }

  /** The scraper object: its settings and `self.movies`. */
  class EmpireMovies {
    const maxAttempts: int
    var movies: Movies

    constructor (maxAttempts: int)
      ensures this.maxAttempts == maxAttempts && movies == map[]
    {
      this.maxAttempts := maxAttempts;
      movies := map[];
    }

    /** `get_movies_for_page`: the listing page is fetched with the retry
        loop; every selected article gets its key and listing record, and the
        review pass makes its movie or raises. */
    method GetMoviesForPage(page: nat, articleNumber: Option<int>, respond: nat -> Response<seq<Article>>,
                            review: (string, Record) -> Result<Record>)
      returns (found: Result<Option<Movies>>, log: seq<Movie.LogLine>)
      ensures (found, log) == PageOutcome(page, articleNumber, maxAttempts, respond, review)
    {
      var url := PageUrl(page);
      log := [Movie.Note(Info, "GetReviewPage", IntToString(page), url)];
      var html, entries := RequestsGet(url, maxAttempts, respond);
      log := log + Movie.Attempts(entries);
      if html.Failed? {
        log := log + [Movie.Note(Error, "RequestFailed", IntToString(page), url)];
        return Ok(None), log;
      }
      var articles := html.content;
      if |articles| == 0 {
        log := log + [Movie.Note(Info, "NonexistentPage", IntToString(page), url)];
        return Ok(None), log;
      }
      var pageMovies := ListArticles(page, articleNumber, url, articles, review);
      if pageMovies.Err? {
        return Err(pageMovies.error), log;
      }
      return Ok(Some(pageMovies.value)), log;
    }

    /** The loop of `get_movies_for_page` over the articles of a page; the
        first review that raises ends it. */
    static method ListArticles(page: nat, articleNumber: Option<int>, url: string, articles: seq<Article>,
                               review: (string, Record) -> Result<Record>)
      returns (pageMovies: Result<Movies>)
      ensures pageMovies == Listed(page, articleNumber, PageMovies(page, url, articles, review), |articles|)
    {
      ghost var movie := PageMovies(page, url, articles, review);
      var movies: Movies := map[];
      var i := 1;
      while i <= |articles|
        invariant 1 <= i <= |articles| + 1
        invariant Listed(page, articleNumber, movie, i - 1) == Ok(movies)
      {
        if articleNumber.None? || i == articleNumber.value {
          var key := Key(page, i);
          var info := ListingRecord(page, i, url, articles[i - 1]);
          var newMovie := review(key, info);
          PageMoviesAt(page, url, articles, review, i);
          if newMovie.Err? {
            ListedStopped(page, articleNumber, movie, i, |articles|);
            return Err(newMovie.error);
          }
          movies := movies[key := newMovie.value];
        }
        assert Listed(page, articleNumber, movie, i) == Ok(movies);
        i := i + 1;
      }
      return Ok(movies);
    }

    /** The `update` of every page's dictionary, in page order, skipping the
        pages that gave `None`. */
    static method MergeResults(results: seq<Option<Movies>>) returns (movies: Movies)
      ensures movies == Merged(results)
    {
      movies := map[];
      var j := 0;
      while j < |results|
        invariant 0 <= j <= |results|
        invariant movies == Merged(results[..j])
      {
        MergedSnoc(results, j);
        if results[j].Some? {
          movies := movies + results[j].value;
        }
        j := j + 1;
      }
      assert results[..|results|] == results;
    }

    /** `get_movies_for_pages`: pages paired with article numbers as
        `zip_longest` pairs them and each page crawled; `pool.starmap` hands
        back every page's result or raises, and the dictionaries are merged
        in page order. */
    method GetMoviesForPages(pages: seq<nat>, articleNumbers: Option<seq<int>>,
                             site: nat -> nat -> Response<seq<Article>>, review: (string, Record) -> Result<Record>)
      returns (crawled: Result<Movies>, log: seq<Movie.LogLine>)
      requires articleNumbers.None? ==> |pages| > 0
      requires articleNumbers.Some? ==> |articleNumbers.value| <= |pages|
      ensures crawled == Crawled(pages, articleNumbers, maxAttempts, site, review)
      ensures log == Flatten(PageLogs(pages, articleNumbers, maxAttempts, site, review))
    {
      ghost var expected := PageResults(pages, articleNumbers, maxAttempts, site, review);
      ghost var logs := PageLogs(pages, articleNumbers, maxAttempts, site, review);
      var results: seq<Result<Option<Movies>>> := [];
      log := [];
      var j := 0;
      while j < |pages|
        invariant 0 <= j <= |pages|
        invariant results == expected[..j]
        invariant log == Flatten(logs[..j])
      {
        var articleNumber := ArticleNumberFor(articleNumbers, j);
        var result, pageLog := GetMoviesForPage(pages[j], articleNumber, site(pages[j]), review);
        CrawlStep(pages, articleNumbers, maxAttempts, site, review, j, result, pageLog);
        results := results + [result];
        log := log + pageLog;
        j := j + 1;
      }
      assert expected[..|pages|] == expected;
      assert logs[..|pages|] == logs;
      var gathered := Gathered(results);
      if gathered.Err? {
        return Err(gathered.error), log;
      }
      var movies := MergeResults(gathered.value);
      return Ok(movies), log;
    }

    /** `solve_movies` on the log's lines: each record worth another attempt
        is crawled again, as `get_movies_for_pages([page], [article])`, in the
        key order of `self.movies`; the pass aborts at the first title
        mismatch. */
    method SolveMovies(lines: seq<string>, order: seq<string>,
                       site: nat -> nat -> Response<seq<Article>>, review: (string, Record) -> Result<Record>)
      returns (r: Result<(Option<Movies>, Movies)>)
      requires KeyOrder(order, movies)
      ensures r == SolveOutcome(AnalyzeLogFile(lines, movies), order, RetryCrawl(maxAttempts, site, review))
    {
      var analysis := AnalyzeLogFile(lines, movies);
      if analysis.Err? {
        return Err(analysis.error);
      }
      var (solvable, nonSolvable) := analysis.value;
      if solvable == map[] {
        return Ok((Some(map[]), nonSolvable));
      }
      var solved := Retry(Retries(order, solvable), solvable, site, review);
      if solved.Err? {
        return Err(solved.error);
      }
      return Ok((solved.value, nonSolvable));
    }

    /** The `pop` of every record to drop. */
    method DropMovies(keys: set<string>)
      requires keys <= movies.Keys
      modifies this
      ensures movies == old(movies) - keys
    {
      var remaining := keys;
      while remaining != {}
        invariant remaining <= keys
        invariant movies == old(movies) - (keys - remaining)
        decreases remaining
      {
        var key :| key in remaining;
        movies := movies - {key};
        remaining := remaining - {key};
      }
    }

    /** The loop of `solve_movies` over the records to retry, each retried
        through `get_movies_for_pages`. */
    method Retry(keys: seq<string>, solvable: Movies,
                 site: nat -> nat -> Response<seq<Article>>, review: (string, Record) -> Result<Record>)
      returns (r: Result<Option<Movies>>)
      requires forall k :: k in keys ==> k in solvable
      ensures r == SolveFrom(keys, solvable, RetryCrawl(maxAttempts, site, review), map[])
    {
      ghost var recrawl := RetryCrawl(maxAttempts, site, review);
      var solved: Movies := map[];
      var j := 0;
      while j < |keys|
        invariant 0 <= j <= |keys|
        invariant SolveFrom(keys[j..], solvable, recrawl, solved) == SolveFrom(keys, solvable, recrawl, map[])
      {
        var key := keys[j];
        var value := solvable[key];
        assert keys[j..][0] == key;
        var target := RetryTarget(value);
        if target.Err? {
          return Err(target.error);
        }
        var (page, article) := target.value;
        var got, log := GetMoviesForPages([page], Some([article]), site, review);
        assert got == Recrawled(key, solvable, recrawl);
        if got.Err? {
          return Err(got.error);
        }
        var solvedMovie := got.value;
        if key !in solvedMovie || "InfoMovie" !in solvedMovie[key] || "InfoMovie" !in value {
          return Err("KeyError");
        }
        if solvedMovie[key]["InfoMovie"] != value["InfoMovie"] {
          return Ok(None);
        }
        SolveFromStep(keys, solvable, recrawl, solved, j);
        solved := solved + solvedMovie;
        j := j + 1;
      }
      return Ok(Some(solved));
    }

    /** `get_movies` after `solve_movies`: the solved records merged in and
        the records to drop popped. */
    method ApplySolved(solve: Result<(Option<Movies>, Movies)>) returns (r: Result<Movies>)
      requires solve.Ok? ==> solve.value.1.Keys <= movies.Keys
      modifies this
      ensures r == Finished(old(movies), solve)
      ensures movies == if r.Ok? then r.value else old(movies)
    {
      if solve.Err? {
        return Err(solve.error);
      }
      var (solved, nonSolvable) := solve.value;
      if solved != Some(map[]) {
        if solved.None? {
          return Err("TypeError");
        }
        movies := movies + solved.value;
      }
      DropMovies(nonSolvable.Keys);
      return Ok(movies);
    }

    /** `get_movies`: crawl, retry, merge and drop. `lines` is the worker log
        as the analysis reads it, `order` the crawl's key order. */
    method GetMovies(pages: seq<nat>, articleNumbers: Option<seq<int>>,
                     site: nat -> nat -> Response<seq<Article>>, review: (string, Record) -> Result<Record>,
                     lines: seq<string>, order: seq<string>)
      returns (r: Result<Movies>)
      requires articleNumbers.None? ==> |pages| > 0
      requires articleNumbers.Some? ==> |articleNumbers.value| <= |pages|
      requires var crawled := Crawled(pages, articleNumbers, maxAttempts, site, review);
        crawled.Ok? ==> KeyOrder(order, crawled.value)
      modifies this
      ensures var crawled := Crawled(pages, articleNumbers, maxAttempts, site, review);
        match crawled
        case Err(e) => r == Err(e) && movies == old(movies)
        case Ok(m) =>
          r == Finished(m, SolveOutcome(AnalyzeLogFile(lines, m), order, RetryCrawl(maxAttempts, site, review))) &&
          movies == if r.Ok? then r.value else m
    {
      var crawled, log := GetMoviesForPages(pages, articleNumbers, site, review);
      if crawled.Err? {
        return Err(crawled.error);
      }
      movies := crawled.value;
      var solve := SolveMovies(lines, order, site, review);
      r := ApplySolved(solve);
    }
  }
}
