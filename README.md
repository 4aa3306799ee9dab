# Empire review scraper — a Dafny model of its crawl, retry and text-cleaning core

The Empire scraper crawls the paginated review listing of empireonline.com.

- **Crawl.** For every article of a listing page it builds a listing record keyed `"PPP-AA"` (page and article number). It then runs a review pass that fills in the detail fields of that record.
- **Retry.** Afterwards it reads its own worker log back as a table. Each error line is classified as worth another attempt or not. The records whose review fetch failed for a retryable reason are crawled again. A record whose title changed is refused. The records that cannot be recovered are dropped.
- **Text preparation.** A separate step cleans the review texts into word lists, builds a bag of words per review and a feature matrix of word counts.

This project models that core in Dafny, one module per source file:

| file | module | source |
|---|---|---|
| `base.dfy` | `Base` | Option and Result (a Python exception, by class name) |
| `pystr.dfy` | `PyStr` | the Python string operations the code relies on: `split`, `join`, `strip`, `replace`, `translate`, `lower`, `isdigit`, `re.findall(r'\w+')`, format specs `03d`/`02d` |
| `records.dfy` | `Records` | the scraper's dictionaries: a record maps field names to values |
| `empire_helpers.dfy` | `EmpireHelpers` | `empire_scraper/empire_helpers.py`: the bounded-retry GET and the proxy list |
| `empire_movie.dfy` | `Movie` | `empire_scraper/empire_movie.py`: the review pass of one record (a class whose methods update the record in place) |
| `empire_movies_log.dfy` | `EmpireMoviesLog` | the log analysis of `empire_scraper/src/empire_movies.py` |
| `empire_movies.dfy` | `EmpireMovies` | the crawl, retry pass and final dataset of `empire_scraper/src/empire_movies.py` |
| `legacy_empire_movies.dfy` | `LegacyEmpireMovies` | the earlier `empire_scraper/empire_movies.py`, whose dictionary is a shared object |
| `log_analysis.dfy` | `LogAnalysis` | `log_analysis.py`: the stand-alone log analyser |
| `prepare_empire_data.dfy` | `PrepareEmpireData` | `prepare_empire_data.py`: cleaning, stop words, bags of words, feature matrix |

How the outside world enters the model:

- **Network.** It is a function from the attempt number to a response: `respond: nat -> Response<C>`. For a crawl, `site: nat -> nat -> Response<...>` gives one such function per page.
- **HTML.** It is represented by what the selectors find: `Movie.Page`, `EmpireMovies.Article`.
- **Review pass of one record.** Inside the crawl it is a function `review: (string, Record) -> Result<Record>`. It can raise, as `get_movie` does with the `ValueError` of `reshape` or `strptime`, and the exception then ends the page, the crawl and `get_movies`. What the pass logs inside the crawl is not modelled (see "Left out").
- **Logger.** Log lines are returned as values, either structured (`EmpireHelpers.Entry`, `Movie.LogLine`) or as text lines read back by the analysis.

Loops in the source are `while`/`for` loops here. Each is proved against a recursive specification function, and the properties are proved about that function as lemmas.

The methods model the code as it is written, exceptions included: `KeyError`, `IndexError`, `TypeError`, `ValueError` and `ZeroDivisionError` are `Err` results. Where the code departs from the evident intention, the "Findings" section gives both the code as written and the corrected definition, with proofs about each. The code evidently means a title mismatch to leave the earlier dataset intact (the reset at `empire_scraper/empire_movies.py:380-381`) and a retry that brings nothing back to be skipped (the `is not None` test at `empire_scraper/src/empire_movies.py:319`). Neither holds as written; findings 1, 2 and 4 record how (finding 4 is latent behind finding 3). The legacy retry pass is modelled with a module-level `root_logger` bound, which the legacy file as written does not have (see "Left out").

## Model

| member | source | states |
|---|---|---|
| EmpireHelpers.RequestsGet | empire_scraper/empire_helpers.py:19-50 | the content returned and every line logged are those of the retry-loop specification `Loop` from attempt 0 |
| EmpireHelpers.RunLoop | empire_scraper/empire_helpers.py:20-50 | running the loop with lines already logged only puts those lines in front of what the loop logs |
| EmpireHelpers.Loop | empire_scraper/empire_helpers.py:19-50 | the specification of the retry loop: what `requests_get` returns and logs from a given attempt on; the lemmas below state its outcomes |
| EmpireHelpers.LoopBounded | empire_scraper/empire_helpers.py:22 | at most `max_number_of_attempts` attempts: responses after the last allowed attempt never change the outcome |
| EmpireHelpers.LoopStopsAtDecisive | empire_scraper/empire_helpers.py:34-40 | a 200 or a 404 ends the loop: responses after it never change the outcome |
| EmpireHelpers.LoopContentFromFirst200 | empire_scraper/empire_helpers.py:34-37 | when the first decisive attempt gets a 200, its content is returned |
| EmpireHelpers.LoopContentHasWitness | empire_scraper/empire_helpers.py:34-37 | conversely, returned content comes from an allowed attempt with status 200, every earlier attempt being neither 200 nor 404 |
| EmpireHelpers.LoopSuccessLog | empire_scraper/empire_helpers.py:34-46 | when the first decisive attempt gets a 200, the log is the two retry lines of every earlier attempt followed by `SuccessfulAttempt` exactly when that attempt was not the first |
| EmpireHelpers.LoopNotFound | empire_scraper/empire_helpers.py:38-40 | a 404 on the first decisive attempt gives `-1`, and the last line logged is the error `404|#n|url` |
| EmpireHelpers.LoopExhausted | empire_scraper/empire_helpers.py:46-50 | with no decisive attempt the loop gives `-1`, and the last line logged is the error `UnSuccessfulAttempt|#max|url` |
| EmpireHelpers.LoopErrorOnlyLast | empire_scraper/empire_helpers.py:36-49 | at most one error line is logged, and it is the last; a successful fetch logs none |
| EmpireHelpers.NegativeBoundSilent | empire_scraper/empire_helpers.py:22-50 | a negative attempt bound tries nothing, logs nothing and gives `-1` |
| EmpireHelpers.GetProxies | empire_scraper/empire_helpers.py:13-16 | one proxy per ip, in order, each with the single key `http` and a value starting `http://` |
| EmpireHelpers.ProxyAddressesRoundTrip | empire_scraper/empire_helpers.py:15 | removing `http://` from each proxy gives back the ip list |
| Movie.First10 | empire_scraper/empire_movie.py:58 | `s[:10]` is the prefix of `s` of length min(10, len(s)) |
| Movie.LastStrongAt | empire_scraper/empire_movie.py:63-68 | the position of the last `<time>` holding a `<strong>`; `None` exactly when no `<time>` holds one |
| Movie.LastStrongAtSnoc | empire_scraper/empire_movie.py:65-68 | one more `<time>` becomes the answer if it holds a `<strong>`; otherwise the earlier answer stands |
| Movie.LastStrong | empire_scraper/empire_movie.py:60-68 | the date of the last `<time>` holding a `<strong>`, or `None`; its position is `LastStrongAt` |
| Movie.ReviewTextParagraphs | empire_scraper/empire_movie.py:123-125 | the stripped paragraphs are read back from `Review` by splitting it at newlines |
| Movie.ReviewText | empire_scraper/empire_movie.py:118-125 | the stripped paragraphs joined by newlines, or `None`; `ReviewTextParagraphs` reads them back |
| Movie.RunningTime | empire_scraper/empire_movie.py:95-98 | the digits of the value read as a number, or `None` without digits; `RunningTimeNull` and `RunningTimeOfMinutes` state both cases |
| Movie.RunningTimeNull | empire_scraper/empire_movie.py:95-98 | the running time is `None` exactly when the value has no digit, and is never negative |
| Movie.RunningTimeOfMinutes | empire_scraper/empire_movie.py:95-98 | `"<n> mins"` gives the running time `n` |
| Movie.MonthNumber | empire_scraper/empire_movie.py:92 | a `%b` month found is between 1 and 12, and its name matches the text apart from case |
| Movie.ReleaseDate | empire_scraper/empire_movie.py:92 | a date that parses is rewritten as `%Y-%m-%d` of a date the calendar has; anything else raises `ValueError` |
| Movie.MonthNumberOfName | empire_scraper/empire_movie.py:92 | any spelling of month m's name, in any case, reads as month m |
| Movie.ReleaseDateOfWords | empire_scraper/empire_movie.py:92 | a value whose words are a day, a month name and a year of a valid date parses to that date |
| Movie.ReleaseDateRoundTrip | empire_scraper/empire_movie.py:92 | every valid date written as `"D Mon YYYY"` is rewritten as its `"YYYY-MM-DD"` |
| Movie.IsoDateFields | empire_scraper/empire_movie.py:92 | the rewritten date splits at `-` into the same year, month and day |
| Movie.PairUp | empire_scraper/empire_movie.py:83-85 | the reshape succeeds exactly when the field count is even, giving half as many pairs |
| Movie.FlattenPairUp | empire_scraper/empire_movie.py:85 | pairing loses and reorders no field |
| Movie.StoreStops | empire_scraper/empire_movie.py:88-92 | once a pair fails, the pairs after it are not stored |
| Movie.StoreFrame | empire_scraper/empire_movie.py:88-100 | a field that no stored pair names keeps its value |
| Movie.StoreAll | empire_scraper/empire_movie.py:88-100 | when nothing fails, every stored name is present and no earlier field is lost |
| Movie.StoreFails | empire_scraper/empire_movie.py:88-100 | storing fails exactly when some pair is an error |
| Movie.Store | empire_scraper/empire_movie.py:88-100 | the pairs stored in order until the first one that fails; `StoreStops`, `StoreFrame`, `StoreAll` and `StoreFails` state what it keeps |
| Movie.ApplyInfo | empire_scraper/empire_movie.py:87-100 | the key-line pairs parsed and stored; `ApplyInfoFrame` and `ApplyInfoOutcome` state its result |
| Movie.InfoFieldName | empire_scraper/empire_movie.py:90-100 | a stored pair lands under `ReleaseDate`, `RunningTime`, or its own key |
| Movie.InfoFieldFails | empire_scraper/empire_movie.py:90-92 | a pair fails exactly when it is a `Release date` whose value does not parse |
| Movie.ApplyInfoFrame | empire_scraper/empire_movie.py:88-100 | the key-line list leaves every field that none of its keys names as it was |
| Movie.ApplyInfoOutcome | empire_scraper/empire_movie.py:88-100 | the list fails exactly on an unparsable release date; otherwise every named field is present and the listing fields are kept |
| Movie.InfoStored | empire_scraper/empire_movie.py:70-102 | without the key-line list the record is kept and `None` returned; otherwise the pairs are stored or the reshape or a pair raises; `GetReviewTitleAndOtherInfo` is proved against it |
| Movie.Reviewed | empire_scraper/empire_movie.py:147-159 | the record after the review pass of a fetched page and the exception it raises, if any; `ReviewedFields` states which fields it sets |
| Movie.ReviewedFields | empire_scraper/empire_movie.py:147-159 | without the key-line list the record is left as listed; after a pass without error the six detail fields are all present |
| Movie.EmpireMovie.constructor | empire_scraper/empire_movie.py:12-36 | the record key is the listing's first key, the record a copy of its record, and the title, rating and review address are read from it |
| Movie.EmpireMovie.GetSoup | empire_scraper/empire_movie.py:38-44 | five attempts; the page is kept on success; on failure the error `RequestsGetFailed|id|url` is logged after the attempt lines; the record is untouched |
| Movie.EmpireMovie.GetReviewTitleAndOtherInfo | empire_scraper/empire_movie.py:70-102 | without the list it logs `NoInfoLeft` and returns `None`; otherwise it returns `1` once every pair is stored, or the first pair's exception with the earlier pairs stored |
| Movie.EmpireMovie.StoreFields | empire_scraper/empire_movie.py:87-100 | the loop over the pairs stores exactly what the specification `ApplyInfo` stores and stops at the same error |
| Movie.EmpireMovie.ParseField | empire_scraper/empire_movie.py:89-100 | one pair, stripped, as the record stores it |
| Movie.EmpireMovie.GetReviewRating | empire_scraper/empire_movie.py:104-109 | `Rating` becomes the number of star characters, or `None` without stars; nothing else changes |
| Movie.EmpireMovie.GetReviewAuthor | empire_scraper/empire_movie.py:46-51 | `Author` becomes the stripped author text, or `None`; nothing else changes |
| Movie.EmpireMovie.GetReviewDatePublished | empire_scraper/empire_movie.py:53-58 | `DatePublished` becomes the stripped attribute cut to ten characters, or `None`; nothing else changes |
| Movie.EmpireMovie.GetReviewLastUpdate | empire_scraper/empire_movie.py:60-68 | `LastUpdate` becomes the date of the last `<time>` holding a `<strong>`, or `None`; nothing else changes |
| Movie.EmpireMovie.GetReviewIntroductionText | empire_scraper/empire_movie.py:111-116 | `Introduction` becomes the stripped heading text, or `None`; nothing else changes |
| Movie.EmpireMovie.GetReviewText | empire_scraper/empire_movie.py:118-125 | `Review` becomes the stripped paragraphs joined by newlines, or `None`; nothing else changes |
| Movie.EmpireMovie.GetReview | empire_scraper/empire_movie.py:147-160 | the lines logged; a failed fetch leaves the record unchanged; otherwise record and exception are those of the specification `Reviewed` |
| Movie.EmpireMovie.GetMovie | empire_scraper/empire_movie.py:162-164 | a dictionary with the record key as its only key, holding the reviewed record |
| EmpireMovies.TitleFromArticle | empire_scraper/src/empire_movies.py:57-68 | the title is stripped, and the essay flag is true exactly when it starts with "EMPIRE ESSAY"; both are `None` without a title element |
| EmpireMovies.ArticleInfo | empire_scraper/src/empire_movies.py:70-122 | the four fields of `__get_info_from_article`: the title and essay flag as `TitleFromArticle` gives them, the review address as the site followed by the stripped link (which reads back from it), and the rating as the length of the stripped star text, never more than the text; each is `Null` exactly when its element is missing |
| EmpireMovies.ListingRecord | empire_scraper/src/empire_movies.py:169-175 | the page, the article number and the listing address, updated with `ArticleInfo`; the retry pass reads exactly that page and article number back from it (`RetryTarget`) |
| EmpireMovies.PageUrlPage | empire_scraper/src/empire_movies.py:144 | the page number reads back from its listing address, as the digits between the reviews prefix and the closing `/` |
| EmpireMovies.PageUrlInjective | empire_scraper/src/empire_movies.py:144 | different pages have different listing addresses |
| EmpireMovies.Key | empire_scraper/src/empire_movies.py:168 | the record key `f'{page:03d}-{i:02d}'`; `KeyFields`, `KeyInjective` and `KeyDistinct` state that it reads back as the page and the article and that different pairs never share one |
| EmpireMovies.KeyFields | empire_scraper/src/empire_movies.py:168 | a key `f'{page:03d}-{i:02d}'` splits at `-` back into the page and the article number |
| EmpireMovies.KeyInjective | empire_scraper/src/empire_movies.py:168 | different (page, article) pairs get different keys |
| EmpireMovies.KeyDistinct | empire_scraper/src/empire_movies.py:166-168 | different articles of one page get different keys |
| EmpireMovies.PageMovies | empire_scraper/src/empire_movies.py:165-181 | the movie of each article, counted from 1: the review pass of its listing record, or the exception the pass raises; `ListedReviewed` and `ListedRaises` state how the page loop uses it |
| EmpireMovies.ListedStopped | empire_scraper/src/empire_movies.py:165-182 | once a review has raised, the articles after it change nothing: the page raises that exception |
| EmpireMovies.ListedRaises | empire_scraper/src/empire_movies.py:176-182 | a page raises exactly when the review of one of its selected articles raises, and then with the exception of the first such article |
| EmpireMovies.ListedKeys | empire_scraper/src/empire_movies.py:165-182 | when no review raises, a page's dictionary has exactly the keys of its selected articles |
| EmpireMovies.ListedValues | empire_scraper/src/empire_movies.py:165-182 | when no review raises, each selected article is stored under its own key with its own movie |
| EmpireMovies.ListedReviewed | empire_scraper/src/empire_movies.py:168-182 | that movie is what the review pass made of the article's listing record |
| EmpireMovies.ListedOne | empire_scraper/src/empire_movies.py:167 | with an article number, a page that does not raise yields that article alone, or nothing when the page is shorter |
| EmpireMovies.PageOutcome | empire_scraper/src/empire_movies.py:124-184 | the result and the lines of one page: `None` for a failed or empty page, the exception of the first review that raises, or the movies of its selected articles; `PageOutcomeKeys` states which |
| EmpireMovies.PageOutcomeKeys | empire_scraper/src/empire_movies.py:144-184 | a page yields `None` exactly when its fetch failed or it has no articles; it raises exactly when the review of a selected article raises; otherwise its keys are those of its selected articles |
| EmpireMovies.Gathered | empire_scraper/src/empire_movies.py:199-202 | what `pool.starmap` hands back: every page's result, in page order, exactly when no page raised; otherwise the exception of the first page, in page order, that raised |
| EmpireMovies.Merged | empire_scraper/src/empire_movies.py:206-207 | the results' dictionaries applied with `update` in page order, `None` skipped; `MergedKeys` and `MergedLast` state its keys and values |
| EmpireMovies.MergedKeys | empire_scraper/src/empire_movies.py:206-207 | the merged dictionary has exactly the keys of the results that are not `None` |
| EmpireMovies.MergedLast | empire_scraper/src/empire_movies.py:207 | a key takes its value from the last result that has it |
| EmpireMovies.Crawled | empire_scraper/src/empire_movies.py:186-212 | a crawl succeeds exactly when no page raised, and then gives the merged dictionaries of its pages (`CrawledRecord`) |
| EmpireMovies.CrawledRecord | empire_scraper/src/empire_movies.py:199-207 | in a crawl that does not raise, distinct pages never overwrite each other: every crawled record is the one its own page produced |
| EmpireMovies.Retries | empire_scraper/src/empire_movies.py:316 | the retried keys are exactly the keys of `solvable` that `order` lists, in the order of `order`, and none twice when `order` has no repeats |
| EmpireMovies.RetriesOnce | empire_scraper/src/empire_movies.py:316 | when `order` is the key order of a dictionary holding every record to retry, each of them is retried exactly once |
| EmpireMovies.RetryTarget | empire_scraper/src/empire_movies.py:317-318 | a retry goes ahead exactly when the record holds its address, an integer page that is not negative and an integer article number, and it retries that page and article; a missing field raises `KeyError` |
| EmpireMovies.RetryCrawl | empire_scraper/src/empire_movies.py:318 | the retry of one record is `get_movies_for_pages([page], [article])`: the crawl `Crawled` of that single page and article |
| EmpireMovies.RetryCrawlFailed | empire_scraper/src/empire_movies.py:150-163 | a retry whose listing page fails again, or has no articles, brings back an empty dictionary |
| EmpireMovies.Recrawled | empire_scraper/src/empire_movies.py:318 | what the retry of a record brought back: the crawl of its page and article, or the exception it raised |
| EmpireMovies.SolveFrom | empire_scraper/src/empire_movies.py:315-325 | the loop as written: `None` at the first title mismatch, the exception of a retry that raises, `KeyError` for a missing field or a record the retry did not bring back; `SolveFromAccepted`, `SolveFromAborted` and `SolveFromFailedRetry` state its outcomes |
| EmpireMovies.SolveFromAccepted | empire_scraper/src/empire_movies.py:316-325 | a pass that returns a dictionary checked every title, and that dictionary is exactly the records gathered before updated with `Retrieved`, the merged retries; it holds every retried key and every key gathered before |
| EmpireMovies.Retrieved | empire_scraper/src/empire_movies.py:318-324 | the dictionaries the retries brought back, merged with `update` in the order of the retries |
| EmpireMovies.RetrievedLast | empire_scraper/src/empire_movies.py:318-324 | a key is in the merged retries exactly when some retry brought it back, and it holds what the last such retry brought back |
| EmpireMovies.SolveFromAborted | empire_scraper/src/empire_movies.py:319-322 | a pass that returns `None` stopped at a retry whose title differs, after retries whose titles all matched |
| EmpireMovies.SolveOutcome | empire_scraper/src/empire_movies.py:305-325 | whenever `solve_movies` returns, the log analysis succeeded and the records to drop are passed through unchanged |
| EmpireMovies.SolveFromFailedRetry | empire_scraper/src/empire_movies.py:318-320 | a record whose retry crawl finds its listing page failing again makes the loop as written raise `KeyError`; the corrected loop skips it |
| EmpireMovies.SolveFromFixed | empire_scraper/src/empire_movies.py:318-324 | the loop as evidently intended: a retry that did not bring its record back is skipped; `SolveFromFixedTotal` states that it never raises there and agrees with the loop as written |
| EmpireMovies.SolveFromFixedTotal | empire_scraper/src/empire_movies.py:318-324 | the corrected loop never raises on records that hold their fields, and agrees with the loop as written wherever that one returns |
| EmpireMovies.Finished | empire_scraper/src/empire_movies.py:355-366 | `get_movies` as written returns only after a retry pass that did not abort, and then no dropped key is left; an aborted pass raises `TypeError` |
| EmpireMovies.FinishedAborted | empire_scraper/src/empire_movies.py:358-361 | an aborted pass makes `get_movies` as written raise `TypeError`; the corrected version keeps the crawl minus the records to drop |
| EmpireMovies.FinishedFixed | empire_scraper/src/empire_movies.py:358-366 | the final dataset has the crawled and solved keys minus the dropped ones; solved records win |
| EmpireMovies.FinishedAgrees | empire_scraper/src/empire_movies.py:358-366 | wherever `get_movies` as written gets through, the corrected version gives the same dataset |
| EmpireMovies.EmpireMovies.constructor | empire_scraper/src/empire_movies.py:28-37 | an empty dictionary and the given attempt bound |
| EmpireMovies.EmpireMovies.GetMoviesForPage | empire_scraper/src/empire_movies.py:124-184 | the result and lines of one page are those of the specification `PageOutcome`, including the exception a review raises |
| EmpireMovies.EmpireMovies.ListArticles | empire_scraper/src/empire_movies.py:165-184 | the article loop returns `Listed`: the page's dictionary, or the exception of the first review that raises |
| EmpireMovies.EmpireMovies.MergeResults | empire_scraper/src/empire_movies.py:206-207 | the `update` loop over the page results gives their merge `Merged` |
| EmpireMovies.EmpireMovies.GetMoviesForPages | empire_scraper/src/empire_movies.py:186-212 | the result is `Crawled`: the pages' dictionaries merged in page order, or the exception of the first page that raised; the lines of every page, in page order |
| EmpireMovies.EmpireMovies.SolveMovies | empire_scraper/src/empire_movies.py:305-325 | given the dictionary's key order, the result of `SolveOutcome` on the log analysis of the scraper's dictionary, each record retried by the crawl of its own page and article |
| EmpireMovies.EmpireMovies.DropMovies | empire_scraper/src/empire_movies.py:364-366 | the dictionary loses exactly the dropped keys |
| EmpireMovies.EmpireMovies.Retry | empire_scraper/src/empire_movies.py:315-325 | the retry loop, each retry a call of `GetMoviesForPages`, returns what `SolveFrom` returns over that crawl |
| EmpireMovies.EmpireMovies.ApplySolved | empire_scraper/src/empire_movies.py:358-366 | after the retry pass, the solved records merged in and the dropped ones popped, as `Finished` gives it; the scraper keeps the crawl when this raises |
| EmpireMovies.EmpireMovies.GetMovies | empire_scraper/src/empire_movies.py:327-366 | a crawl that raises leaves the scraper as it was; otherwise the dataset is the specification `Finished` of the crawl and its retry pass, and the scraper keeps it, or the crawl when the pass raises |
| EmpireMoviesLog.LineSplitter | empire_scraper/src/empire_movies.py:238-240 | one more field than the line has `|`, each stripped |
| EmpireMoviesLog.LineSplitterJoin | empire_scraper/src/empire_movies.py:238-240 | trimmed, `|`-free fields joined by `|` split back into themselves |
| EmpireMoviesLog.Frame | empire_scraper/src/empire_movies.py:269-270 | the table is refused exactly when a line has more than eight fields or every line has fewer; otherwise short lines are padded with `None` |
| EmpireMoviesLog.ErrorRows | empire_scraper/src/empire_movies.py:272 | exactly the rows at level `ERROR` |
| EmpireMoviesLog.AnalyzeErrorMessage | empire_scraper/src/empire_movies.py:242-253 | classified exactly when the address has at least four `/`; retryable exactly when the fifth segment does not start with "55", there are at most six `/` and it is not a 404 |
| EmpireMoviesLog.ReviewUrlSolvable | empire_scraper/src/empire_movies.py:243-253 | a failed review page is retryable exactly when its slug does not start with "55" and the error is not a 404 |
| EmpireMoviesLog.FirstFailure | empire_scraper/src/empire_movies.py:279-280 | no exception exactly when every error row can be classified |
| EmpireMoviesLog.SolvableKeys | empire_scraper/src/empire_movies.py:286-288 | the keys of failed review fetches worth another attempt; every one of them is also a failed key |
| EmpireMoviesLog.FailedKeys | empire_scraper/src/empire_movies.py:294-295 | the keys of the failed review fetches; `FailedKeysOfLines` states them on the log's lines |
| EmpireMoviesLog.Restrict | empire_scraper/src/empire_movies.py:298-302 | the records whose key is listed, unchanged |
| EmpireMoviesLog.AnalyzeLogFile | empire_scraper/src/empire_movies.py:255-303 | the records to retry and those to drop are taken unchanged from the dictionary and never share a key |
| EmpireMoviesLog.AnalyzeLogFileNoErrors | empire_scraper/src/empire_movies.py:272-275 | a log without error lines gives two empty dictionaries |
| EmpireMoviesLog.SolvableKeysOfLines | empire_scraper/src/empire_movies.py:287-288 | a key is retryable exactly when some line reports its fetch failure at a retryable address |
| EmpireMoviesLog.FailedKeysOfLines | empire_scraper/src/empire_movies.py:294-295 | a key has failed exactly when some line reports its fetch failure |
| EmpireMoviesLog.AnalyzeLogFileKeys | empire_scraper/src/empire_movies.py:286-303 | a record is retried exactly when some failure line for it is retryable, and dropped exactly when it has failure lines and none is retryable |
| EmpireMoviesLog.NoteLineFields | empire_scraper/empire_movies.py:36 | a `tag|id|url` message in the log format reads back as the eight columns of the table |
| EmpireMoviesLog.FetchFailureLine | empire_scraper/empire_movie.py:41 | the failure line of a review fetch reads back as a failure of that record, retryable exactly when its address is |
| LegacyEmpireMovies.PageList | empire_scraper/empire_movies.py:251-256 | a single page becomes a one-page list; a list is kept |
| LegacyEmpireMovies.PageFound | empire_scraper/empire_movies.py:149-202 | what one page of the crawl yields: its records, nothing for a failed or empty page (`-1`), or the exception of its review pass |
| LegacyEmpireMovies.Crawl | empire_scraper/empire_movies.py:237-275 | a crawl succeeds exactly when no page raised; it then keeps every key the dictionary had and adds each page's records in page order |
| LegacyEmpireMovies.CrawlKeeps | empire_scraper/empire_movies.py:266-268 | a crawl that does not raise only adds and overwrites: a record that no page produced stays as it was |
| LegacyEmpireMovies.Solvable | empire_scraper/empire_movies.py:309-342 | the records returned are taken unchanged from the dictionary; `SolvableNone` states when it returns `None` |
| LegacyEmpireMovies.SolvableNone | empire_scraper/empire_movies.py:325-340 | `None` exactly when the log has no error row (:326-328), or when every error row is classified as not worth another attempt (:338-340) |
| LegacyEmpireMovies.Addresses | empire_scraper/empire_movies.py:335 | the `message2` values of the retryable error rows, empty exactly when no error row is retryable |
| LegacyEmpireMovies.SolvableNeverMatches | empire_scraper/empire_movies.py:335-341 | looking records up by address, as written, finds none when no key holds a `/` |
| LegacyEmpireMovies.KeysHoldNoSlash | empire_scraper/empire_movies.py:189 | no crawl key holds a `/` |
| LegacyEmpireMovies.SolvableFixed | empire_scraper/empire_movies.py:335-341 | the records returned by the lookup by key are taken unchanged from the dictionary |
| LegacyEmpireMovies.SolvableFixedFinds | empire_scraper/empire_movies.py:335-341 | the lookup by key finds every stored record with a retryable failure line |
| LegacyEmpireMovies.RetryFrom | empire_scraper/empire_movies.py:360-371 | the retry loop as written: the exception of a retry, `KeyError` for a missing field or record, or whether a mismatch stopped it, with the shared dictionary and the gathered records; `RetryFromMismatch` and `RetryFromStep` state its steps |
| LegacyEmpireMovies.RetryFromMismatch | empire_scraper/empire_movies.py:366-369 | a pass stopped by a mismatch leaves the dictionary holding a retried record whose title differs from the stored one |
| LegacyEmpireMovies.SolveOutcome | empire_scraper/empire_movies.py:345-390 | `solve_movies` as written, given a bound `root_logger`: the dictionary unchanged when nothing is retryable, otherwise the end of the retry pass; `SolveOutcomeNoRollback` states what a mismatch leaves |
| LegacyEmpireMovies.PassOutcome | empire_scraper/empire_movies.py:379-390 | the dictionary the pass returns: as the retries left it after a mismatch, otherwise updated with the gathered records |
| LegacyEmpireMovies.SolveOutcomeNoRollback | empire_scraper/empire_movies.py:354-381 | after a mismatch, `solve_movies` as written returns a dictionary that differs from the one it started with; with the `message2` lookup as written no crawl-keyed dictionary reaches a mismatch (`SolveOutcomeUnchanged`) |
| LegacyEmpireMovies.SolveOutcomeUnchanged | empire_scraper/empire_movies.py:335-390 | as written, `solve_movies` returns a dictionary keyed as the crawl keys it unchanged: the `message2` lookup finds nothing, so nothing is retried |
| LegacyEmpireMovies.SolveOutcomeKeyedNoRollback | empire_scraper/empire_movies.py:354-381 | with the records looked up by key but the alias kept, a mismatch is reached and the reset restores nothing: the returned dictionary differs from the one the pass started with |
| LegacyEmpireMovies.PassOutcomeFixed | empire_scraper/empire_movies.py:380-390 | the corrected end of the pass restores the starting dictionary after a mismatch; otherwise it adds the solved records |
| LegacyEmpireMovies.PassOutcomeAgrees | empire_scraper/empire_movies.py:380-390 | without a mismatch, the corrected end of the pass agrees with the end as written |
| LegacyEmpireMovies.SolveOutcomeFixed | empire_scraper/empire_movies.py:345-390 | the corrected pass leaves the dictionary unchanged when nothing is retryable, and after a mismatch |
| LegacyEmpireMovies.LegacyScraper.GetMoviesForPage | empire_scraper/empire_movies.py:149-202 | one page, fetched with three attempts, as the specification `PageOutcome` gives it, including the exception `get_movie` raises |
| LegacyEmpireMovies.LegacyScraper.CrawlPage | empire_scraper/empire_movies.py:149-202 | one page of the crawl, its log dropped, as `PageFound` gives it |
| LegacyEmpireMovies.LegacyScraper.CrawlPages | empire_scraper/empire_movies.py:266-267 | every page crawled in order with the same article filter, as `PagesFound` gives it |
| LegacyEmpireMovies.LegacyScraper.MergeInto | empire_scraper/empire_movies.py:268 | the `update` loop leaves the shared dictionary as its old contents updated with the merge of the results |
| LegacyEmpireMovies.LegacyScraper.GetMoviesForPages | empire_scraper/empire_movies.py:237-275 | over the normalised pages: when the crawl raises, the exception and the dictionary as it was; otherwise the dictionary becomes the specification `Crawl` of its old contents |
| LegacyEmpireMovies.LegacyScraper.CrawlInto | empire_scraper/empire_movies.py:258-268 | every page crawled, then, when none raised, their records merged into the shared dictionary in place, as `Crawl` gives it; otherwise the exception and nothing merged |
| LegacyEmpireMovies.LegacyScraper.GetMovies | empire_scraper/empire_movies.py:280-289 | returns the scraper's own dictionary object, not a copy, after a crawl that does not raise; otherwise the exception, with the dictionary as it was |
| LegacyEmpireMovies.LegacyScraper.RetryAll | empire_scraper/empire_movies.py:360-371 | the retry loop returns what the specification `RetryFrom` returns, and leaves the shared dictionary as `RetryFrom` does |
| LegacyEmpireMovies.LegacyScraper.SolveMovies | empire_scraper/empire_movies.py:345-390 | returns what the specification `SolveOutcome` gives, and the scraper keeps the same dictionary object holding it |
| LegacyEmpireMovies.LegacyScraper.SolvePass | empire_scraper/empire_movies.py:360-390 | the end of the pass as written: the reset after a mismatch puts back the same, already updated, object |
| LogAnalysis.LineSplitter | log_analysis.py:16-25 | between two and six fields; the four middle fields are non-empty words |
| LogAnalysis.LineSplitterJoin | log_analysis.py:16-25 | a line of date, time, four columns and a message splits into asctime, the four columns and the message |
| LogAnalysis.AnalyzeMessage | log_analysis.py:40-58 | a named page is always retryable; only an `html = -1 for` message can raise; a 404 is not retryable, any other message is, naming no page |
| LogAnalysis.HtmlUrl | log_analysis.py:44-45 | removing `html = -1 for ` gives back an address without spaces |
| LogAnalysis.AnalyzeHtmlAgrees | log_analysis.py:44-51 | a failed page fetch is classified as the scraper's own log analysis classifies it, and named exactly when retryable |
| LogAnalysis.AnalyzeResultNames | log_analysis.py:54-57 | `getting result for X not successful:-(` names X and is retryable |
| PrepareEmpireData.Lowercase | prepare_empire_data.py:99-101 | same length, no upper-case letter left, each character unchanged or its lower case |
| PrepareEmpireData.LowercaseIdempotent | prepare_empire_data.py:99-101 | lower-casing twice is lower-casing once |
| PrepareEmpireData.LowercaseWords | prepare_empire_data.py:133-134 | lower-casing keeps the number of words |
| PrepareEmpireData.RemovePunctuation | prepare_empire_data.py:103-108 | punctuation is deleted and every other character kept as often as it occurs; never more words |
| PrepareEmpireData.RemovePunctuationAppend | prepare_empire_data.py:103-108 | deleting punctuation acts on each part separately, so the kept characters stay in order |
| PrepareEmpireData.ReplaceText | prepare_empire_data.py:110-115 | the loop applies every entry of the table in turn |
| PrepareEmpireData.ReplaceTableJoin | prepare_empire_data.py:112-114 | every `’s` is removed, and nothing else, from a text whose pieces hold no `’s`, other apostrophes ("don’t", "I’m") included |
| PrepareEmpireData.ReplaceTableAbsent | prepare_empire_data.py:112-114 | a text without `’` is unchanged |
| PrepareEmpireData.Filter | prepare_empire_data.py:117-127 | a list comprehension with a test keeps only words that pass it, never more than it was given |
| PrepareEmpireData.FilterCounts | prepare_empire_data.py:117-127 | a passing word is kept as often as it occurs, a failing one never |
| PrepareEmpireData.FilterAppend | prepare_empire_data.py:117-127 | filtering keeps the order of the words |
| PrepareEmpireData.FilterCompose | prepare_empire_data.py:138-140 | two filters in a row keep exactly the words passing both |
| PrepareEmpireData.RemoveNonAlphabet | prepare_empire_data.py:121-123 | exactly the alphabetic words are kept, with their counts |
| PrepareEmpireData.RemoveStopWords | prepare_empire_data.py:117-119 | exactly the words that are not stop words are kept, with their counts |
| PrepareEmpireData.RemoveShortWords | prepare_empire_data.py:125-127 | exactly the words of at least `min_letters` letters are kept, with their counts |
| PrepareEmpireData.CleanWordsFilter | prepare_empire_data.py:137-140 | the three filters keep exactly the words passing all three tests, in order |
| PrepareEmpireData.CleanWordsCount | prepare_empire_data.py:133-142 | cleaning never adds words |
| PrepareEmpireData.CleanWordsJoin | prepare_empire_data.py:137-141 | every kept word passes the three tests, and the joined text splits back into the kept words |
| PrepareEmpireData.JoinKept | prepare_empire_data.py:141 | kept words survive being joined with spaces and split again |
| PrepareEmpireData.CleanText | prepare_empire_data.py:129-145 | NaNs for a missing review; `ZeroDivisionError` exactly for a review without words; otherwise the word counts before and after, `after <= before`, and a text whose words are exactly the kept words |
| PrepareEmpireData.Sentiment | prepare_empire_data.py:183-188 | 0 exactly for a rating of at most 2, otherwise 1 |
| PrepareEmpireData.Unique | prepare_empire_data.py:43 | no duplicates and the same words as the input |
| PrepareEmpireData.Deduplicate | prepare_empire_data.py:43 | the loop keeps the first occurrence of each word |
| PrepareEmpireData.WordPartKeep | prepare_empire_data.py:48 | joining a word's `\w` runs deletes its other characters |
| PrepareEmpireData.DefineStopWords | prepare_empire_data.py:33-55 | no duplicates; exactly the words of both lists and each of them with its non-word characters deleted |
| PrepareEmpireData.OtherWords | prepare_empire_data.py:46-49 | the `\w` parts of the distinct words are those of all the listed words |
| PrepareEmpireData.CounterOf | prepare_empire_data.py:149 | `Counter(words)` counts each word as often as it occurs, listing each counted word once |
| PrepareEmpireData.AddCounters | prepare_empire_data.py:150 | adding counters adds every word's counts |
| PrepareEmpireData.SumCounters | prepare_empire_data.py:150 | `sum(counters, Counter())` gives every word its total count |
| PrepareEmpireData.AddCounterOf | prepare_empire_data.py:150 | the counters of two lists add up to the counter of both, words in the same order |
| PrepareEmpireData.SumBags | prepare_empire_data.py:149-150 | the summed bags are the counter of all the reviews' tokens |
| PrepareEmpireData.CleanData.constructor | prepare_empire_data.py:22-31 | the stop words have no duplicates and include both lists; no bags yet |
| PrepareEmpireData.CleanData.TokenizeText | prepare_empire_data.py:147-152 | one counter per review of its `\w` runs, and their sum is the counter of all the tokens |
| PrepareEmpireData.CleanData.MakeFeatures | prepare_empire_data.py:154-164 | a new matrix with a row per review and a column per summed word, holding each review's count of each word |
| PrepareEmpireData.CleanData.FillFeatures | prepare_empire_data.py:156-162 | the nested loops fill the zero matrix with each counter's counts |
| PrepareEmpireData.FeatureColumnTotal | prepare_empire_data.py:154-162 | a column's counts add up to the count in the summed counter |
| PyStr.SplitJoin | empire_scraper/src/empire_movies.py:240 | parts without the separator, joined by it, split back into themselves |
| PyStr.StripTrimmed | empire_scraper/empire_movie.py:89 | stripping a trimmed text leaves it unchanged |
| PyStr.TokensJoin | log_analysis.py:18 | non-empty words without whitespace, joined by a space, split back into themselves |
| PyStr.FormatIntValue | empire_scraper/src/empire_movies.py:168 | a zero-padded number is all digits and reads back as the number |
| PyStr.ReplaceJoin | prepare_empire_data.py:114 | for a separator that cannot overlap itself and occurs in no piece, `replace` swaps exactly the separators joining the pieces |
| PyStr.KeepCounts | prepare_empire_data.py:107-108 | `translate` with deletions keeps each kept character as often as it occurs |

## Left out

- Concurrency. The worker pool, the queue-based log listener and the logging configuration are not modelled. Pages are crawled one after the other, in order, which is the order `pool.starmap` returns its results in.
- I/O and time. Files, pickles, Excel exports, `time.sleep`, timestamps, `print_movies` and `print` are not modelled. The log file is a parameter (its lines), and the log lines are returned as values.
- Network and HTML. The network is a function parameter, and the random proxy choice is part of it. Thumbnails and pictures (`__get_thumbnail_from_article`, `get_review_picture`) are not modelled because they download images and write files. HTML parsing is represented by what the selectors find.
- Unicode. `lower`, `isalpha`, `isdigit`, `\w` and `split()` are modelled on ASCII. Whitespace is codes 9-13 and 28-32; other Unicode letters, digits and spaces are not modelled.
- Floating point. The cleaning ratio of `clean_text`, `analyze_features` (means and standard deviations) and `count_words` (scikit-learn) are not modelled. The feature matrix holds integers where NumPy holds floats.
- pandas. `analyze`, `get_solvable_movies` and `main` of `log_analysis.py`, and `clean_introduction_and_review` of `prepare_empire_data.py`, are not modelled: they are DataFrame plumbing, printing and Excel export. `DataFrame.from_dict` at the end of `get_movies` is not modelled either.
- PrepareEmpireData.Deduplicate: `list(set(...))` has an order Python does not fix. It is modelled as first-occurrence order, and the contracts of `DefineStopWords` state only membership and the absence of duplicates.
- PrepareEmpireData.AddCounters: `Counter` addition also drops counts that are not positive. Every count here is positive, so this never happens in the model.
- PrepareEmpireData.CleanText: the cleaning ratio, a float, is not returned. Only the `ZeroDivisionError` it raises for a review without words is modelled.
- Movie.EmpireMovie.GetReviewRating, GetReviewAuthor, GetReviewDatePublished, GetReviewIntroductionText, GetReviewText: the source first sets the field to `None` and then overwrites it. The model writes the final value once, which gives the same record.
- Movie.EmpireMovie.StoreFields: the loop of `get_review_title_and_other_info` is run on a copy of the record, which is then assigned back. The source updates the record field by field. A failing pair leaves the same fields stored either way.
- Movie.EmpireMovie.constructor: requires a listing with at least one record holding `InfoMovie`, `InfoRating` and `InfoReviewUrl`. Every caller passes such a listing. The `KeyError` of an empty listing and the `info=None` path are not modelled.
- Movie.EmpireMovie.GetReviewTitleAndOtherInfo and the field methods require a fetched page. `get_review` calls them only after a successful fetch.
- EmpireMovies.EmpireMovies.GetMoviesForPages: requires that `zip_longest` pair every article number with a page, and that there is a page when no article numbers are given. A missing page, which the source passes on as `None`, is not modelled.
- EmpireMovies.RetryTarget: a page that is not a non-negative integer, or an article number that is not an integer, is reported as `TypeError`. The source would pass such values on to the crawl, which then fails its own way (a `None` article number crawls the whole page; any other non-integer matches no article, so the retry comes back empty and `KeyError` follows). The crawl only ever stores non-negative integers there.
- EmpireMovies.PageOutcome: its lines are those `get_movies_for_page` logs itself: `GetReviewPage`, the attempts of the listing fetch, then `RequestFailed` or `NonexistentPage`. What the review pass logs is left out: `GetReview`, the attempts of the review fetch, `RequestsGetFailed|id|url` (`empire_scraper/empire_movie.py:41`) and `NoInfoLeft`. The pass enters as `review`, which returns only the record or its exception. `Movie.EmpireMovie.GetSoup` and `Movie.EmpireMovie.GetReview` state those lines for one record.
- EmpireMovies.EmpireMovies.GetMoviesForPage: returns the lines of `PageOutcome`, so it leaves out the review pass's own lines, as `PageOutcome` does.
- EmpireMovies.EmpireMovies.GetMoviesForPages: the lines of every page are those of `PageOutcome`, without the review pass's own lines. These include the `RequestsGetFailed` error lines the log analysis later classifies.
- LegacyEmpireMovies.LegacyScraper.GetMoviesForPage: returns the lines of `PageOutcome`, so it leaves out what `get_movie` logs, as `PageOutcome` does.
- LegacyEmpireMovies.LegacyScraper.SolveMovies: the scraper is given, not loaded from its pickle. Restoring `now`, `log_file` and the other file names is not modelled.
- LegacyEmpireMovies.Solvable: assumes a module-level `root_logger` and a log file that exists. As written, `empire_scraper/empire_movies.py` binds `root_logger` only as a local of `__get_movies_for_pages` (:239), and its `__main__` block binds `logger` (:434), so `get_solvable_movies_from_log_file` raises `NameError` at :310. The model takes the log's lines as given. In the file as written, a scraper's `log_file` and `error_file` stay `None` (:84, :87): their only setter, `__create_one_log_file` (:225-226), is never called (the call at :283 is commented out). So `solve_movies` passes `None` on (:350-351, :356), `open(None)` at :320 raises `TypeError` even with `root_logger` bound, and `to_excel(None)` at :333 would fail too.
- LegacyEmpireMovies.SolveOutcome: assumes a bound `root_logger` and a log file, as `Solvable` does. As written, `solve_movies` raises `NameError` at :310 (through :356) before its retry loop runs, and with `root_logger` bound it would raise `TypeError` at :320 on the `None` log file.
- LegacyEmpireMovies.SolveOutcomeNoRollback: states what the reset at :380-381 leaves after a mismatch. As written, no dictionary the crawl builds gets there. First the `NameError` at :310 and the `TypeError` at :320 on the `None` log file stop the pass. Even with both removed, the `message2` lookup (finding 3) finds no record, so nothing is retried (`SolveOutcomeUnchanged`). The failed reset of finding 4 is latent behind finding 3; `SolveOutcomeKeyedNoRollback` states it with that lookup corrected.
- LegacyEmpireMovies.LegacyScraper.SolveMovies: assumes a bound `root_logger` and a log file, whose lines it is given. As written it raises `NameError` at :310, and its log calls at :363, :368 and :383 would raise too; with `root_logger` bound, `open(None)` at :320 raises `TypeError`, since `log_file` is never set.
- LegacyEmpireMovies.LegacyScraper.RetryAll: assumes a bound `root_logger` for the log calls at :363 and :368.
- LegacyEmpireMovies.LegacyScraper.GetMovies: models `get_movies` without the pickle export. With its default `export=True` (:392), `__save_to_pickle` raises `NameError` at :205 on `root_logger` once the crawl is done.
- EmpireMovies.Gathered: when several pages raise, `pool.starmap` raises the exception of one of them, and which one depends on the workers' timing. The model takes the first failing page in page order. `LegacyEmpireMovies.Crawl` does the same.
- EmpireMovies.EmpireMovies.SolveMovies: requires that `order` lists the keys of the scraper's dictionary once each. `order` stands for the dictionary's iteration order, which Dafny maps do not have.
- EmpireMovies.EmpireMovies.GetMovies: requires, as `SolveMovies` does, that `order` is the iteration order of the crawled dictionary when the crawl does not raise.
- `empire_scraper/src/empire_movie.py` and `empire_scraper/src/empire_helpers.py` are not part of this model. The current crawl is modelled over the review pass and retry loop of `empire_scraper/empire_movie.py` and `empire_scraper/empire_helpers.py`, and enters as the function `review`, which returns the exception the pass raises.
- The `lines` read by `solve_movies` are those of the worker log file. Connecting them to the lines the crawl returns would need the logging configuration, which is left out. `EmpireMoviesLog.FetchFailureLine` states what one failure line reads back as.

## Findings

| source | as written | input that shows it | evidently intended | confidence | as-written member | corrected member |
|---|---|---|---|---|---|---|
| empire_scraper/src/empire_movies.py:318-320 | `get_movies_for_pages` always returns a dictionary, so the `is not None` test never skips anything, and `solved_movie[key]` raises `KeyError` | a retryable record whose listing page fails again (every attempt times out), so the retry returns `{}` | a retry that brought nothing back is skipped | not executed | EmpireMovies.SolveFromFailedRetry | EmpireMovies.SolveFromFixedTotal |
| empire_scraper/src/empire_movies.py:358-361 | after a title mismatch `solve_movies` returns `None`, which is not `{}`, so `self.movies.update(None)` raises `TypeError` | one retryable record whose retry comes back with a different `InfoMovie` | a mismatch merges nothing and the crawl is kept, minus the records to drop | not executed | EmpireMovies.FinishedAborted | EmpireMovies.FinishedFixed |
| empire_scraper/empire_movies.py:335-341 | retryable records are looked up by `message2`, the review address, but the dictionary is keyed `"PPP-AA"`, so no record is ever found | any log with a `RequestsGetFailed` error line for a stored record at a retryable address | look the records up by `message1`, the record key (both halves assume a bound `root_logger` and a log file; as written the function first raises `NameError` at :310, then `TypeError` at :320 on the `None` log file) | not executed | LegacyEmpireMovies.SolvableNeverMatches | LegacyEmpireMovies.SolvableFixedFinds |
| empire_scraper/empire_movies.py:354-381 | `movies` is the same object as `E.movies`, which every retry updates in place, so the reset after a mismatch restores nothing | with the lookup of finding 3 corrected (records looked up by `message1`), a retryable record whose retry comes back with a different `InfoMovie`; as written the `message2` lookup retries nothing, so this finding is latent behind finding 3 (`SolveOutcomeUnchanged`) | a mismatch restores the dictionary the pass started with (both halves also assume a bound `root_logger` and a log file; as written `solve_movies` first raises `NameError` at :310, then `TypeError` at :320 on the `None` log file) | not executed | LegacyEmpireMovies.SolveOutcomeKeyedNoRollback | LegacyEmpireMovies.PassOutcomeFixed |
