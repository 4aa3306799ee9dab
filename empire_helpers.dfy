/** empire_scraper/empire_helpers.py: the bounded-retry GET and the proxy list. */
module EmpireHelpers {
  import opened PyStr

  /** What one call of `requests.get` gave: a response with its status code
      and its (already parsed) content, or an exception with its text. */
  datatype Response<C> = Response(status: int, content: C) | Raised(message: string)

  /** What `requests_get` returns: the content, or `-1`. */
  datatype Fetched<C> = Content(content: C) | Failed

  datatype Level = Info | Error

  /** The first field of an attempt line: what the attempt came to. */
  datatype Outcome =
    | Successful           // `SuccessfulAttempt`
    | NotFound             // `404`
    | StatusCode(code: int) // `StatusCode:<code>`
    | Exception(text: string) // `str(e)`
    | Unsuccessful         // `UnSuccessfulAttempt`

  /** One line sent to the logger by attempt number `attempt` on `url`. */
  datatype Entry = Entry(level: Level, outcome: Outcome, attempt: int, url: string)

  function OutcomeText(o: Outcome): string
  {
    match o
    case Successful => "SuccessfulAttempt"
    case NotFound => "404"
    case StatusCode(code) => "StatusCode:" + IntToString(code)
    case Exception(text) => text
    case Unsuccessful => "UnSuccessfulAttempt"
  }

  /** The text handed to the logger: `outcome|#attempt|url`. */
  function Message(e: Entry): string
  {
    OutcomeText(e.outcome) + "|#" + IntToString(e.attempt) + "|" + e.url
  }

  /** A response that ends the retry loop: status 200 or 404. */
  predicate Decisive<C>(r: Response<C>)
  {
    r.Response? && (r.status == 200 || r.status == 404)
  }

  /** What a response that did not end the loop is logged as. */
  function Retried<C>(r: Response<C>): Outcome
  {
    if r.Response? then StatusCode(r.status) else Exception(r.message)
  }

  /** The two info lines written by attempt `n` when it did not end the loop. */
  function RetryLines<C>(r: Response<C>, n: int, url: string): seq<Entry>
  {
    [Entry(Info, Retried(r), n, url), Entry(Info, Unsuccessful, n, url)]
  }

  /** The rest of the retry loop once `done` attempts have been made: what
      `requests_get` returns and the lines it logs from then on.
      `respond(k)` is the outcome of attempt `k + 1`. */
  function Loop<C>(url: string, maxAttempts: int, respond: nat -> Response<C>, done: nat): (Fetched<C>, seq<Entry>)
    decreases maxAttempts - done
  {
    if done < maxAttempts then
      var n := done + 1;
      var r := respond(done);
      if r.Response? && r.status == 200 then
        (Content(r.content), if n > 1 then [Entry(Info, Successful, n, url)] else [])
      else if r.Response? && r.status == 404 then
        (Failed, [Entry(Error, NotFound, n, url)])
      else
        var rest := Loop(url, maxAttempts, respond, n);
        (rest.0, RetryLines(r, n, url) + rest.1)
    else
      (Failed, if done == maxAttempts then [Entry(Error, Unsuccessful, done, url)] else [])
  }

  /** The loop again, carrying the lines logged so far: the shape in which
      `requests_get` runs it. */
  function Run<C>(url: string, maxAttempts: int, respond: nat -> Response<C>, done: nat, logged: seq<Entry>): (Fetched<C>, seq<Entry>)
    decreases maxAttempts - done
  {
    if done < maxAttempts then
      var n := done + 1;
      var r := respond(done);
      if r.Response? && r.status == 200 then
        (Content(r.content), if n > 1 then logged + [Entry(Info, Successful, n, url)] else logged)
      else if r.Response? && r.status == 404 then
        (Failed, logged + [Entry(Error, NotFound, n, url)])
      else
        Run(url, maxAttempts, respond, n, logged + RetryLines(r, n, url))
    else
      (Failed, if done == maxAttempts then logged + [Entry(Error, Unsuccessful, done, url)] else logged)
  }

  /** Carrying the log along only prefixes it to what `Loop` logs. */
  lemma {:induction false} RunLoop<C>(url: string, maxAttempts: int, respond: nat -> Response<C>, done: nat, logged: seq<Entry>)
    ensures Run(url, maxAttempts, respond, done, logged)
         == (Loop(url, maxAttempts, respond, done).0, logged + Loop(url, maxAttempts, respond, done).1)
    decreases maxAttempts - done
  {
    assert logged + [] == logged;
    if done < maxAttempts {
      var r := respond(done);
      if !Decisive(r) {
        var n := done + 1;
        RunLoop(url, maxAttempts, respond, n, logged + RetryLines(r, n, url));
        assert logged + RetryLines(r, n, url) + Loop(url, maxAttempts, respond, n).1
            == logged + (RetryLines(r, n, url) + Loop(url, maxAttempts, respond, n).1);
      }
    }
  }

  /** `requests_get(logger, url, max_number_of_attempts, ...)`: the network
      (and the random proxy choice) is the function `respond`; the lines sent
      to the logger are returned. */
  method RequestsGet<C>(url: string, maxAttempts: int, respond: nat -> Response<C>)
    returns (result: Fetched<C>, log: seq<Entry>)
    ensures (result, log) == Loop(url, maxAttempts, respond, 0)
  {
    var attempts: nat := 0;
    log := [];
    RunLoop(url, maxAttempts, respond, 0, []);
    assert [] + Loop(url, maxAttempts, respond, 0).1 == Loop(url, maxAttempts, respond, 0).1;
    while attempts < maxAttempts
      invariant attempts == 0 || attempts <= maxAttempts
      invariant Run(url, maxAttempts, respond, attempts, log) == Loop(url, maxAttempts, respond, 0)
      decreases maxAttempts - attempts
    {
      ghost var before := log;
      attempts := attempts + 1;
      var r := respond(attempts - 1);
      if r.Response? && r.status == 200 {
        if attempts > 1 {
          log := log + [Entry(Info, Successful, attempts, url)];
        }
        return Content(r.content), log;
      } else if r.Response? && r.status == 404 {
        log := log + [Entry(Error, NotFound, attempts, url)];
        return Failed, log;
      } else if r.Response? {
        log := log + [Entry(Info, StatusCode(r.status), attempts, url)];
      } else {
        log := log + [Entry(Info, Exception(r.message), attempts, url)];
      }
      log := log + [Entry(Info, Unsuccessful, attempts, url)];
      assert log == before + RetryLines(r, attempts, url);
    }
    if attempts == maxAttempts {
      log := log + [Entry(Error, Unsuccessful, attempts, url)];
    }
    result := Failed;
  }

  // ----------------------------------------------------------------------
  // What the retry loop promises
  // ----------------------------------------------------------------------

  /** At most `maxAttempts` attempts: responses past the last allowed
      attempt are never looked at. */
  lemma {:induction false} LoopBounded<C>(url: string, maxAttempts: int, r1: nat -> Response<C>, r2: nat -> Response<C>, done: nat)
    requires forall k: nat :: done <= k < maxAttempts ==> r1(k) == r2(k)
    ensures Loop(url, maxAttempts, r1, done) == Loop(url, maxAttempts, r2, done)
    decreases maxAttempts - done
  {
    if done < maxAttempts {
      LoopBounded(url, maxAttempts, r1, r2, done + 1);
    }
  }

  /** A 200 or a 404 ends the loop at once: nothing after that attempt is
      looked at. */
  lemma {:induction false} LoopStopsAtDecisive<C>(url: string, maxAttempts: int, r1: nat -> Response<C>, r2: nat -> Response<C>, done: nat, k: nat)
    requires done <= k < maxAttempts && Decisive(r1(k))
    requires forall j: nat :: done <= j <= k ==> r1(j) == r2(j)
    ensures Loop(url, maxAttempts, r1, done) == Loop(url, maxAttempts, r2, done)
    decreases k - done
  {
    if done < k {
      LoopStopsAtDecisive(url, maxAttempts, r1, r2, done + 1, k);
    }
  }

  /** `requests_get` returns content exactly when some allowed attempt got a
      200 and every attempt before it got neither 200 nor 404; the content is
      that response's. */
  lemma {:induction false} LoopContentFromFirst200<C>(url: string, maxAttempts: int, respond: nat -> Response<C>, done: nat, k: nat)
    requires done <= k < maxAttempts
    requires respond(k).Response? && respond(k).status == 200
    requires forall j: nat :: done <= j < k ==> !Decisive(respond(j))
    ensures Loop(url, maxAttempts, respond, done).0 == Content(respond(k).content)
    decreases k - done
  {
    if done < k {
      LoopContentFromFirst200(url, maxAttempts, respond, done + 1, k);
    }
  }

  lemma {:induction false} LoopContentHasWitness<C>(url: string, maxAttempts: int, respond: nat -> Response<C>, done: nat)
    returns (k: nat)
    requires Loop(url, maxAttempts, respond, done).0.Content?
    ensures done <= k < maxAttempts
    ensures respond(k).Response? && respond(k).status == 200
    ensures Loop(url, maxAttempts, respond, done).0.content == respond(k).content
    ensures forall j: nat :: done <= j < k ==> !Decisive(respond(j))
    decreases maxAttempts - done
  {
    var r := respond(done);
    if r.Response? && r.status == 200 {
      k := done;
    } else {
      k := LoopContentHasWitness(url, maxAttempts, respond, done + 1);
    }
  }

  /** The lines logged for the failed attempts `from` to `to - 1`, in
      order. */
  function RetriedLog<C>(url: string, respond: nat -> Response<C>, from: nat, to: nat): seq<Entry>
    decreases to - from
  {
    if from < to then RetryLines(respond(from), from + 1, url) + RetriedLog(url, respond, from + 1, to) else []
  }

  /** When attempt `k` is the first decisive one and answers 200, the log is
      the two retry lines of every attempt before it, then the success line,
      written only when it was not the very first attempt. */
  lemma {:induction false} LoopSuccessLog<C>(url: string, maxAttempts: int, respond: nat -> Response<C>, done: nat, k: nat)
    requires done <= k < maxAttempts
    requires respond(k).Response? && respond(k).status == 200
    requires forall j: nat :: done <= j < k ==> !Decisive(respond(j))
    ensures Loop(url, maxAttempts, respond, done).1
         == RetriedLog(url, respond, done, k) + if k > 0 then [Entry(Info, Successful, k + 1, url)] else []
    decreases k - done
  {
    if done < k {
      LoopSuccessLog(url, maxAttempts, respond, done + 1, k);
    }
  }

  /** A 404 on the first decisive attempt `k + 1` gives `-1` and ends the log
      with the error line `404|#k+1|url`. */
  lemma {:induction false} LoopNotFound<C>(url: string, maxAttempts: int, respond: nat -> Response<C>, done: nat, k: nat)
    requires done <= k < maxAttempts
    requires respond(k).Response? && respond(k).status == 404
    requires forall j: nat :: done <= j < k ==> !Decisive(respond(j))
    ensures var (result, log) := Loop(url, maxAttempts, respond, done);
      result == Failed && log != [] && log[|log| - 1] == Entry(Error, NotFound, k + 1, url)
    decreases k - done
  {
    if done < k {
      LoopNotFound(url, maxAttempts, respond, done + 1, k);
    }
  }

  /** When no allowed attempt is decisive the loop runs out, returns `-1` and
      ends the log with the error line `UnSuccessfulAttempt|#max|url`; this
      holds for `max = 0` too, with no attempt at all. */
  lemma {:induction false} LoopExhausted<C>(url: string, maxAttempts: int, respond: nat -> Response<C>, done: nat)
    requires done <= maxAttempts
    requires forall j: nat :: done <= j < maxAttempts ==> !Decisive(respond(j))
    ensures var (result, log) := Loop(url, maxAttempts, respond, done);
      result == Failed && log != [] && log[|log| - 1] == Entry(Error, Unsuccessful, maxAttempts, url)
    decreases maxAttempts - done
  {
    if done < maxAttempts {
      LoopExhausted(url, maxAttempts, respond, done + 1);
    }
  }

  /** Every line but the last is at info level: the loop writes at most one
      error line, and it is the last thing it writes. A successful fetch
      writes none at all. */
  lemma {:induction false} LoopErrorOnlyLast<C>(url: string, maxAttempts: int, respond: nat -> Response<C>, done: nat)
    ensures var (result, log) := Loop(url, maxAttempts, respond, done);
      (forall i :: 0 <= i < |log| - 1 ==> log[i].level == Info) &&
      (result.Content? ==> forall i :: 0 <= i < |log| ==> log[i].level == Info)
    decreases maxAttempts - done
  {
    if done < maxAttempts {
      LoopErrorOnlyLast(url, maxAttempts, respond, done + 1);
    }
  }

  /** With a negative attempt bound nothing is tried and nothing is logged. */
  lemma NegativeBoundSilent<C>(url: string, maxAttempts: int, respond: nat -> Response<C>)
    requires maxAttempts < 0
    ensures Loop(url, maxAttempts, respond, 0) == (Failed, [])
  {
  }

  // ----------------------------------------------------------------------
  // get_proxies
  // ----------------------------------------------------------------------

  /** `get_proxies`: one `{'http': 'http://' + ip}` per ip of the list. */
  function GetProxies(ips: seq<string>): (proxies: seq<map<string, string>>)
    ensures |proxies| == |ips|
    ensures forall k :: 0 <= k < |proxies| ==> proxies[k].Keys == {"http"} && "http://" <= proxies[k]["http"]
  {
    seq(|ips|, k requires 0 <= k < |ips| => map["http" := "http://" + ips[k]])
  }

  /** Dropping the scheme from each proxy address gives back the ip list, in
      order. */
  lemma ProxyAddressesRoundTrip(ips: seq<string>)
    ensures var proxies := GetProxies(ips);
      forall k :: 0 <= k < |ips| ==> proxies[k]["http"][|"http://"|..] == ips[k]
  {
  }
}
