/**
 * `scrapeArticle`: launch a visible browser, open a page, navigate with one retry
 * under a different wait strategy, let the page settle, extract the content, and
 * always release the page and the browser that were actually obtained. The browser
 * is not run: what each step does is an input, and the calls made to it are the
 * output `log`.
 */
module Scraper {
  import opened Wrappers
  import opened JsText
  import opened ContentLocator
  import opened Seqs

  /** The `waitUntil` navigation option. */
  datatype WaitUntil = DomContentLoaded | Load

  /** A call the scraper makes on the browser, the page or an element query. */
  datatype Call =
    | Launch(headless: bool, slowMo: nat)
    | NewPage
    | Goto(url: string, waitUntil: WaitUntil, timeout: nat)
    | WaitFor(ms: nat)
    | Query(selector: string)
    | ClosePage
    | CloseBrowser

  /** The navigation timeout of both attempts, in milliseconds. */
  const NavigationTimeout := 60000

  /** The prefix of every message the scraper throws. */
  const FailurePrefix := "Scraping failed: "

  /** What the browser does in one run: the throw of each step, if it throws, and what each
      selector query finds. */
  datatype Session = Session(
    launch: Option<Thrown>,
    newPage: Option<Thrown>,
    domContentLoaded: Option<Thrown>,
    load: Option<Thrown>,
    settle: Option<Thrown>,
    query: string -> Probe,
    linger: Option<Thrown>)

  /** `chromium.launch` returned, so `browser` is set. */
  predicate Launched(s: Session) {
    s.launch.None?
  }

  /** `browser.newPage` returned, so `page` is set. */
  predicate Opened(s: Session) {
    Launched(s) && s.newPage.None?
  }

  /** The first navigation threw and the second one was made. */
  predicate Retried(s: Session) {
    Opened(s) && s.domContentLoaded.Some?
  }

  /** The page was loaded by one of the two navigations and the settling wait returned:
      the extraction runs. */
  predicate Extracting(s: Session) {
    Opened(s) && (s.domContentLoaded.None? || s.load.None?) && s.settle.None?
  }

  /** The query calls of an extraction. */
  function QueryCalls(selectors: seq<string>): (calls: seq<Call>)
    ensures |calls| == |selectors|
    ensures forall i :: 0 <= i < |selectors| ==> calls[i] == Query(selectors[i])
  {
    if |selectors| == 0 then [] else [Query(selectors[0])] + QueryCalls(selectors[1..])
  }

  /** A call that releases the page or the browser. */
  predicate IsClose(c: Call) {
    c.ClosePage? || c.CloseBrowser?
  }

  predicate IsGoto(c: Call) {
    c.Goto?
  }

  predicate IsQuery(c: Call) {
    c.Query?
  }

  /** The navigations a run makes: none without a page, the `domcontentloaded` one, and the
      `load` one only after the first has thrown. */
  function Navigations(url: string, s: Session): (gotos: seq<Call>)
    ensures |gotos| <= 2
    ensures forall i :: 0 <= i < |gotos| ==> gotos[i].Goto? && gotos[i].url == url && gotos[i].timeout == 60000
    ensures |gotos| > 0 <==> Opened(s)
    ensures |gotos| > 0 ==> gotos[0].waitUntil == DomContentLoaded
    ensures |gotos| == 2 ==> gotos[1].waitUntil == Load
    ensures |gotos| == 2 <==> Retried(s)
  {
    if !Opened(s) then []
    else if s.domContentLoaded.None? then [Goto(url, DomContentLoaded, NavigationTimeout)]
    else [Goto(url, DomContentLoaded, NavigationTimeout), Goto(url, Load, NavigationTimeout)]
  }

  /** The `finally` block: the page is closed if it was set, then the browser if it was set. */
  function Cleanup(page: bool, browser: bool): (calls: seq<Call>)
    ensures multiset(calls)[ClosePage] == if page then 1 else 0
    ensures multiset(calls)[CloseBrowser] == if browser then 1 else 0
    ensures page && browser ==> calls == [ClosePage, CloseBrowser]
  {
    (if page then [ClosePage] else []) + (if browser then [CloseBrowser] else [])
  }

  /** The cleanup is made of releases only. */
  lemma CleanupCalls(page: bool, browser: bool)
    ensures Filter(Cleanup(page, browser), IsClose) == Cleanup(page, browser)
    ensures Filter(Cleanup(page, browser), IsGoto) == [] && Filter(Cleanup(page, browser), IsQuery) == []
  {
    var first: seq<Call> := if page then [ClosePage] else [];
    var second: seq<Call> := if browser then [CloseBrowser] else [];
    ReleasesOnly(first);
    ReleasesOnly(second);
    FilterAppend(first, second, IsClose);
    FilterAppend(first, second, IsGoto);
    FilterAppend(first, second, IsQuery);
  }

  /** A stretch of releases. */
  lemma ReleasesOnly(calls: seq<Call>)
    requires forall i :: 0 <= i < |calls| ==> IsClose(calls[i])
    ensures Filter(calls, IsClose) == calls && Filter(calls, IsGoto) == [] && Filter(calls, IsQuery) == []
  {
    FilterAll(calls, IsClose);
    FilterNone(calls, IsGoto);
    FilterNone(calls, IsQuery);
  }

  /** How far the `try` block got: the calls it made, and its throw or the content it returns. */
  datatype Attempt = Attempt(calls: seq<Call>, outcome: Result<ScrapedContent, Thrown>)

  // The stages below take the extraction `found` the page yields as a parameter: a run
  // uses `Locate(s.query)`, and the properties of the control flow hold whatever it is.

  /** The settling wait, the extraction and the lingering wait. */
  function ExtractStage(s: Session, found: Extraction): (a: Attempt)
    requires s.settle.None?
  {
    var queried := [WaitFor(2000)] + QueryCalls(found.probed);
    if found.outcome.Failure? then Attempt(queried, found.outcome)
    else if s.linger.Some? then Attempt(queried + [WaitFor(1000)], Failure(s.linger.value))
    else Attempt(queried + [WaitFor(1000)], found.outcome)
  }

  /** The `try` block, stage by stage, up to its first throw. */
  function TryBlock(url: string, s: Session, found: Extraction): (a: Attempt)
    ensures |a.calls| > 0 && a.calls[0] == Launch(false, 100)
  {
    var opening := [Launch(false, 100)] + (if Launched(s) then [NewPage] else []);
    if !Launched(s) then Attempt(opening, Failure(s.launch.value))
    else if !Opened(s) then Attempt(opening, Failure(s.newPage.value))
    else
      var navigated := opening + Navigations(url, s);
      if s.domContentLoaded.Some? && s.load.Some? then Attempt(navigated, Failure(s.load.value))
      else if s.settle.Some? then Attempt(navigated + [WaitFor(2000)], Failure(s.settle.value))
      else
        var rest := ExtractStage(s, found);
        Attempt(navigated + rest.calls, rest.outcome)
  }

  /** One run of the scraper: what it returns or throws, and every call it makes. */
  datatype Run = Run(result: Result<ScrapedContent, string>, log: seq<Call>)

  /** The `try` block, the `catch` that rewraps any throw as "Scraping failed: " and the
      cause's message, and the `finally` that releases the page if it was set and the browser
      if it was set. */
  function RunWith(url: string, s: Session, found: Extraction): (run: Run)
    ensures |run.log| > 0 && run.log[0] == Launch(false, 100)
    ensures run.result.Failure? ==> FailurePrefix <= run.result.error
  {
    var attempt := TryBlock(url, s, found);
    var result :=
      match attempt.outcome
      case Failure(t) => Failure(Wrap(FailurePrefix, t))
      case Success(c) => Success(c);
    Run(result, attempt.calls + Cleanup(Opened(s), Launched(s)))
  }

  /** `scrapeArticle(url)` on a browser that behaves as `s` says. */
  function ScrapeArticle(url: string, s: Session): (run: Run)
    ensures |run.log| > 0 && run.log[0] == Launch(false, 100)
    ensures run.result.Failure? ==> FailurePrefix <= run.result.error
  {
    RunWith(url, s, Locate(s.query))
  }

  // ---------------------------------------------------------------------------
  // Properties of a run
  // ---------------------------------------------------------------------------

  /** The throw that ends the `try` block, read stage by stage; the first navigation's throw
      is swallowed by the retry, so a failed navigation reports the second one's. */
  function FirstThrow(s: Session, found: Extraction): Option<Thrown> {
    if s.launch.Some? then s.launch
    else if s.newPage.Some? then s.newPage
    else if s.domContentLoaded.Some? && s.load.Some? then s.load
    else if s.settle.Some? then s.settle
    else if found.outcome.Failure? then Some(found.outcome.error)
    else s.linger
  }

  /** The result: the extracted content when no stage throws, otherwise the wrapped message of
      the throw that ended the `try` block. */
  lemma RunResult(url: string, s: Session, found: Extraction)
    ensures RunWith(url, s, found).result.Success? <==> FirstThrow(s, found).None?
    ensures RunWith(url, s, found).result.Failure? ==>
      RunWith(url, s, found).result.error == Wrap(FailurePrefix, FirstThrow(s, found).value)
    ensures RunWith(url, s, found).result.Success? ==>
      found.outcome == Success(RunWith(url, s, found).result.value)
  {
    TryBlockOutcome(url, s, found);
  }

  /** The `try` block ends with the first throw, or with the extracted content. */
  lemma TryBlockOutcome(url: string, s: Session, found: Extraction)
    ensures TryBlock(url, s, found).outcome ==
      if FirstThrow(s, found).Some? then Failure(FirstThrow(s, found).value) else found.outcome
  {
  }

  /** The calls of the extraction stage. */
  lemma ExtractStageCalls(s: Session, found: Extraction)
    requires s.settle.None?
    ensures Filter(ExtractStage(s, found).calls, IsClose) == []
    ensures Filter(ExtractStage(s, found).calls, IsGoto) == []
    ensures Filter(ExtractStage(s, found).calls, IsQuery) == QueryCalls(found.probed)
  {
    var q := QueryCalls(found.probed);
    var tail: seq<Call> := if found.outcome.Failure? then [] else [WaitFor(1000)];
    assert ExtractStage(s, found).calls == [WaitFor(2000)] + q + tail;
    QueryCallsOnly(found.probed);
    WaitsOnly([WaitFor(2000)]);
    WaitsOnly(tail);
    FilterThree([WaitFor(2000)], q, tail, IsClose);
    FilterThree([WaitFor(2000)], q, tail, IsGoto);
    FilterThree([WaitFor(2000)], q, tail, IsQuery);
    AppendEmpty(q);
  }

  /** Query calls are neither releases nor navigations. */
  lemma QueryCallsOnly(selectors: seq<string>)
    ensures Filter(QueryCalls(selectors), IsQuery) == QueryCalls(selectors)
    ensures Filter(QueryCalls(selectors), IsGoto) == [] && Filter(QueryCalls(selectors), IsClose) == []
  {
    var q := QueryCalls(selectors);
    FilterAll(q, IsQuery);
    FilterNone(q, IsGoto);
    FilterNone(q, IsClose);
  }

  /** Waits are neither releases, navigations nor queries. */
  lemma WaitsOnly(calls: seq<Call>)
    requires forall i :: 0 <= i < |calls| ==> calls[i].WaitFor?
    ensures Filter(calls, IsClose) == [] && Filter(calls, IsGoto) == [] && Filter(calls, IsQuery) == []
  {
    FilterNone(calls, IsClose);
    FilterNone(calls, IsGoto);
    FilterNone(calls, IsQuery);
  }

  /** The calls before the navigation. */
  function Opening(s: Session): seq<Call> {
    [Launch(false, 100)] + (if Launched(s) then [NewPage] else [])
  }

  /** The calls after the navigation. */
  function Remainder(s: Session, found: Extraction): seq<Call> {
    if !Opened(s) || (s.domContentLoaded.Some? && s.load.Some?) then []
    else if s.settle.Some? then [WaitFor(2000)]
    else ExtractStage(s, found).calls
  }

  /** The `try` block opens, navigates, then extracts. */
  lemma TryBlockShape(url: string, s: Session, found: Extraction)
    ensures TryBlock(url, s, found).calls == Opening(s) + Navigations(url, s) + Remainder(s, found)
  {
    if !Opened(s) {
      AppendEmpty(Opening(s));
    }
  }

  lemma FilterThree(a: seq<Call>, b: seq<Call>, c: seq<Call>, p: Call -> bool)
    ensures Filter(a + b + c, p) == Filter(a, p) + Filter(b, p) + Filter(c, p)
  {
    FilterAppend(a, b, p);
    FilterAppend(a + b, c, p);
  }

  /** What each stretch of the `try` block holds. */
  lemma StretchCalls(url: string, s: Session, found: Extraction)
    ensures Filter(Opening(s), IsClose) == [] && Filter(Opening(s), IsGoto) == [] && Filter(Opening(s), IsQuery) == []
    ensures Filter(Navigations(url, s), IsClose) == [] && Filter(Navigations(url, s), IsQuery) == []
    ensures Filter(Navigations(url, s), IsGoto) == Navigations(url, s)
    ensures Filter(Remainder(s, found), IsClose) == [] && Filter(Remainder(s, found), IsGoto) == []
    ensures Filter(Remainder(s, found), IsQuery) == if Extracting(s) then QueryCalls(found.probed) else []
  {
    OpeningCalls(s);
    NavigationCalls(url, s);
    if Extracting(s) {
      ExtractStageCalls(s, found);
    } else {
      WaitsOnly(Remainder(s, found));
    }
  }

  lemma OpeningCalls(s: Session)
    ensures Filter(Opening(s), IsClose) == [] && Filter(Opening(s), IsGoto) == [] && Filter(Opening(s), IsQuery) == []
  {
    FilterNone(Opening(s), IsClose);
    FilterNone(Opening(s), IsGoto);
    FilterNone(Opening(s), IsQuery);
  }

  lemma NavigationCalls(url: string, s: Session)
    ensures Filter(Navigations(url, s), IsClose) == [] && Filter(Navigations(url, s), IsQuery) == []
    ensures Filter(Navigations(url, s), IsGoto) == Navigations(url, s)
  {
    FilterAll(Navigations(url, s), IsGoto);
    FilterNone(Navigations(url, s), IsClose);
    FilterNone(Navigations(url, s), IsQuery);
  }

  /** The `try` block releases nothing, navigates as `Navigations` says and queries what the
      extraction queries when it is reached. */
  lemma TryBlockCalls(url: string, s: Session, found: Extraction)
    ensures Filter(TryBlock(url, s, found).calls, IsClose) == []
    ensures Filter(TryBlock(url, s, found).calls, IsGoto) == Navigations(url, s)
    ensures Filter(TryBlock(url, s, found).calls, IsQuery) ==
      if Extracting(s) then QueryCalls(found.probed) else []
  {
    var o, n, r := Opening(s), Navigations(url, s), Remainder(s, found);
    TryBlockShape(url, s, found);
    StretchCalls(url, s, found);
    FilterThree(o, n, r, IsClose);
    FilterThree(o, n, r, IsGoto);
    FilterThree(o, n, r, IsQuery);
    AppendEmpty(n);
    AppendEmpty(Filter(r, IsQuery));
  }

  /** The page and the browser are released as the last calls of every run, each once if it
      was obtained and not at all otherwise, the page first. */
  lemma RunReleases(url: string, s: Session, found: Extraction)
    ensures var log := RunWith(url, s, found).log;
      var closes := Cleanup(Opened(s), Launched(s));
      && Filter(log, IsClose) == closes
      && |closes| <= |log| && log[|log| - |closes|..] == closes
  {
    var calls := TryBlock(url, s, found).calls;
    var closes := Cleanup(Opened(s), Launched(s));
    TryBlockCalls(url, s, found);
    CleanupCalls(Opened(s), Launched(s));
    FilterAppend(calls, closes, IsClose);
    assert (calls + closes)[|calls|..] == closes;
  }

  /** `goto` is called at most twice, on the given url with the 60-second timeout:
      `domcontentloaded` first, and `load` only when that threw. */
  lemma RunNavigations(url: string, s: Session, found: Extraction)
    ensures Filter(RunWith(url, s, found).log, IsGoto) == Navigations(url, s)
  {
    var calls := TryBlock(url, s, found).calls;
    var closes := Cleanup(Opened(s), Launched(s));
    TryBlockCalls(url, s, found);
    CleanupCalls(Opened(s), Launched(s));
    FilterAppend(calls, closes, IsGoto);
    AppendEmpty(Navigations(url, s));
  }

  /** The selectors are queried, in order, exactly as the extraction queries them, and only
      once the page has loaded and settled. */
  lemma RunQueries(url: string, s: Session, found: Extraction)
    ensures Filter(RunWith(url, s, found).log, IsQuery) ==
      if Extracting(s) then QueryCalls(found.probed) else []
  {
    var calls := TryBlock(url, s, found).calls;
    var closes := Cleanup(Opened(s), Launched(s));
    TryBlockCalls(url, s, found);
    CleanupCalls(Opened(s), Launched(s));
    FilterAppend(calls, closes, IsQuery);
    AppendEmpty(Filter(calls, IsQuery));
  }

  /** All of the above for a scraper run on a page whose extraction is `Locate(s.query)`. */
  lemma ScrapeArticleRun(url: string, s: Session)
    ensures var run := ScrapeArticle(url, s);
      var found := Locate(s.query);
      && (run.result.Success? <==> FirstThrow(s, found).None?)
      && (run.result.Failure? ==> run.result.error == Wrap(FailurePrefix, FirstThrow(s, found).value))
      && (run.result.Success? ==> found.outcome == Success(run.result.value))
      && Filter(run.log, IsClose) == Cleanup(Opened(s), Launched(s))
      && Filter(run.log, IsGoto) == Navigations(url, s)
      && Filter(run.log, IsQuery) == if Extracting(s) then QueryCalls(found.probed) else []
  {
    var found := Locate(s.query);
    RunResult(url, s, found);
    RunReleases(url, s, found);
    RunNavigations(url, s, found);
    RunQueries(url, s, found);
  }
}
