/**
 * The extraction step of `scrapeArticle`: the candidate selectors are queried in
 * a fixed order, each present element's markup and text are read, the scan stops
 * at the first element with more than 200 characters of text, and the page body
 * is read instead when the scan leaves empty markup or short text behind.
 */
module ContentLocator {
  import opened Wrappers
  import opened JsText
  import opened Seqs

  /** The `{ html, text }` pair the scraper returns: one element's inner markup and inner text. */
  datatype ScrapedContent = ScrapedContent(html: string, text: string)

  /** The values `html` and `text` hold before any element has been read. */
  const Empty := ScrapedContent("", "")

  /** What `page.$(selector)` and the reads of the element it returns come to: no element,
      an element with its markup and text, or a throw from the query or from one of the reads. */
  datatype Probe = Absent | Present(element: ScrapedContent) | Fault(cause: Thrown)

  /** The candidate regions, most specific first. */
  const Selectors: seq<string> :=
    ["article", "main", "[role=\"main\"]", ".article-content", ".post-content", ".entry-content", "#content"]

  /** The selector of the fallback region. */
  const BodySelector := "body"

  /** The threshold on `text.length`, in UTF-16 code units. */
  const MinLength := 200

  /** The scan accepts an element whose text is strictly longer than the threshold. */
  predicate Substantial(c: ScrapedContent) {
    Utf16Length(c.text) > MinLength
  }

  /** `!html || text.length < 200`: the condition under which the body is read. */
  predicate NeedsBody(c: ScrapedContent) {
    c.html == "" || Utf16Length(c.text) < MinLength
  }

  /** A probe that ends the scan: a throw, or a substantial element. */
  predicate Stops(p: Probe) {
    p.Fault? || (p.Present? && Substantial(p.element))
  }

  /** The selectors queried, in order, and what the extraction came to. */
  datatype Extraction = Extraction(probed: seq<string>, outcome: Result<ScrapedContent, Thrown>)

  function Probed(s: string, e: Extraction): Extraction {
    e.(probed := [s] + e.probed)
  }

  /** The selector loop over `sels`, with `last` the element values assigned so far: a present
      element overwrites them even when it is too short to stop the scan. */
  function Scan(sels: seq<string>, query: string -> Probe, last: ScrapedContent): (e: Extraction)
    ensures e.probed <= sels
    ensures |sels| > 0 ==> |e.probed| > 0
    decreases |sels|
  {
    if |sels| == 0 then Extraction([], Success(last))
    else
      match query(sels[0])
      case Fault(t) => Extraction([sels[0]], Failure(t))
      case Absent => Probed(sels[0], Scan(sels[1..], query, last))
      case Present(c) =>
        if Substantial(c) then Extraction([sels[0]], Success(c))
        else Probed(sels[0], Scan(sels[1..], query, c))
  }

  /** The body fallback after a scan that did not throw. */
  function Fallback(query: string -> Probe, e: Extraction): Extraction {
    if e.outcome.Failure? || !NeedsBody(e.outcome.value) then e
    else
      var probed := e.probed + [BodySelector];
      match query(BodySelector)
      case Fault(t) => Extraction(probed, Failure(t))
      case Absent => Extraction(probed, e.outcome)
      case Present(b) => Extraction(probed, Success(b))
  }

  /** The whole extraction: the scan over the candidates, then the fallback. */
  function Locate(query: string -> Probe): Extraction {
    Fallback(query, Scan(Selectors, query, Empty))
  }

  // ---------------------------------------------------------------------------
  // A reference reading of the scan: by index, not by recursion over the loop
  // ---------------------------------------------------------------------------

  /** The index of the first candidate whose probe stops the scan, or `|sels|` if none does. */
  function FirstStop(sels: seq<string>, query: string -> Probe): (k: nat)
    ensures k <= |sels|
    ensures forall j :: 0 <= j < k ==> !Stops(query(sels[j]))
    ensures k < |sels| ==> Stops(query(sels[k]))
    decreases |sels|
  {
    if |sels| == 0 || Stops(query(sels[0])) then 0 else 1 + FirstStop(sels[1..], query)
  }

  /** The element of the last present candidate, or `last` if no candidate is present. */
  function LastPresent(sels: seq<string>, query: string -> Probe, last: ScrapedContent): (c: ScrapedContent)
    ensures c == last || exists j :: 0 <= j < |sels| && query(sels[j]) == Present(c)
    decreases |sels|
  {
    if |sels| == 0 then last
    else
      LastPresent(sels[1..], query, After(query(sels[0]), last))
  }

  /** What a stopping probe makes of the scan. */
  function StopOutcome(p: Probe): Result<ScrapedContent, Thrown>
    requires Stops(p)
  {
    if p.Fault? then Failure(p.cause) else Success(p.element)
  }

  /** The element values a probe that does not stop the scan leaves behind. */
  function After(p: Probe, last: ScrapedContent): ScrapedContent {
    if p.Present? then p.element else last
  }

  /** One step of the scan past a candidate that does not stop it. */
  lemma ScanStep(sels: seq<string>, query: string -> Probe, last: ScrapedContent)
    requires |sels| > 0 && !Stops(query(sels[0]))
    ensures Scan(sels, query, last) == Probed(sels[0], Scan(sels[1..], query, After(query(sels[0]), last)))
    ensures FirstStop(sels, query) == 1 + FirstStop(sels[1..], query)
    ensures LastPresent(sels, query, last) == LastPresent(sels[1..], query, After(query(sels[0]), last))
  {
  }

  /** The number of candidates the scan queries: those up to and including the first one
      that stops it. */
  function Reach(sels: seq<string>, query: string -> Probe): nat {
    var k := FirstStop(sels, query);
    if k < |sels| then k + 1 else |sels|
  }

  /** The scan queries the candidates up to and including the first one that stops it, in
      order, and no further. */
  lemma {:induction false} ScanProbes(sels: seq<string>, query: string -> Probe, last: ScrapedContent)
    ensures Reach(sels, query) <= |sels|
    ensures Scan(sels, query, last).probed == sels[..Reach(sels, query)]
    decreases |sels|
  {
    if |sels| > 0 && !Stops(query(sels[0])) {
      ScanStep(sels, query, last);
      var rest := sels[1..];
      ScanProbes(rest, query, After(query(sels[0]), last));
      var n := Reach(rest, query);
      assert Reach(sels, query) == n + 1;
      assert [sels[0]] + rest[..n] == sels[..n + 1];
    }
  }

  /** The scan ends with the first stopping candidate's throw or element, or, when none
      stops it, with the last present element. */
  lemma {:induction false} ScanOutcome(sels: seq<string>, query: string -> Probe, last: ScrapedContent)
    ensures var k := FirstStop(sels, query);
      Scan(sels, query, last).outcome ==
        if k < |sels| then StopOutcome(query(sels[k])) else Success(LastPresent(sels, query, last))
    decreases |sels|
  {
    if |sels| > 0 && !Stops(query(sels[0])) {
      ScanStep(sels, query, last);
      ScanOutcome(sels[1..], query, After(query(sels[0]), last));
    }
  }

  /** Both halves of the reference reading. */
  lemma ScanReference(sels: seq<string>, query: string -> Probe, last: ScrapedContent)
    ensures var k := FirstStop(sels, query);
      && Scan(sels, query, last).probed == sels[..if k < |sels| then k + 1 else |sels|]
      && Scan(sels, query, last).outcome ==
           if k < |sels| then StopOutcome(query(sels[k])) else Success(LastPresent(sels, query, last))
  {
    ScanProbes(sels, query, last);
    ScanOutcome(sels, query, last);
  }

  /** The last present element is the one no later candidate overwrites. */
  lemma {:induction false} LastPresentIsLast(sels: seq<string>, query: string -> Probe, last: ScrapedContent, i: nat)
    requires i < |sels| && query(sels[i]).Present?
    requires forall j :: i < j < |sels| ==> query(sels[j]).Absent?
    ensures LastPresent(sels, query, last) == query(sels[i]).element
    decreases |sels|
  {
    if i > 0 {
      LastPresentIsLast(sels[1..], query, After(query(sels[0]), last), i - 1);
    } else {
      LastPresentAbsent(sels[1..], query, query(sels[0]).element);
    }
  }

  lemma {:induction false} LastPresentAbsent(sels: seq<string>, query: string -> Probe, last: ScrapedContent)
    requires forall j :: 0 <= j < |sels| ==> query(sels[j]).Absent?
    ensures LastPresent(sels, query, last) == last
    decreases |sels|
  {
    if |sels| > 0 {
      LastPresentAbsent(sels[1..], query, last);
    }
  }

  // ---------------------------------------------------------------------------
  // Properties of the extraction
  // ---------------------------------------------------------------------------

  /** The returned markup and text always belong to one element: a queried candidate's,
      the body's, or the initial empty pair. */
  lemma LocateSameElement(query: string -> Probe)
    ensures Locate(query).outcome.Success? ==>
      var c := Locate(query).outcome.value;
      c == Empty || exists s :: s in Locate(query).probed && query(s) == Present(c)
  {
    var scan := Scan(Selectors, query, Empty);
    ScanSameElement(Selectors, query, Empty);
    LocateFallback(query);
    var e := Locate(query);
    if e.outcome.Success? && e.outcome != scan.outcome {
      assert query(BodySelector) == Present(e.outcome.value);
      assert BodySelector in e.probed;
    } else if e.outcome.Success? && scan.outcome.value != Empty {
      var s :| s in scan.probed && query(s) == Present(scan.outcome.value);
      assert s in e.probed;
    }
  }

  /** The scan's element values come from one queried candidate, or are those it started with. */
  lemma {:induction false} ScanSameElement(sels: seq<string>, query: string -> Probe, last: ScrapedContent)
    ensures Scan(sels, query, last).outcome.Success? ==>
      var c := Scan(sels, query, last).outcome.value;
      c == last || exists s :: s in Scan(sels, query, last).probed && query(s) == Present(c)
    decreases |sels|
  {
    if |sels| > 0 && !Stops(query(sels[0])) {
      var next := After(query(sels[0]), last);
      ScanStep(sels, query, last);
      ScanSameElement(sels[1..], query, next);
      var e := Scan(sels, query, last);
      var rest := Scan(sels[1..], query, next);
      if e.outcome.Success? && e.outcome.value != next {
        var s :| s in rest.probed && query(s) == Present(rest.outcome.value);
        assert s in e.probed;
      } else if e.outcome.Success? && next != last {
        assert sels[0] in e.probed;
      }
    }
  }

  /** The body is queried exactly when the scan ends without a throw on empty markup or on
      text shorter than the threshold; it then replaces the scanned values if present, and
      leaves them in place if absent. */
  lemma LocateFallback(query: string -> Probe)
    ensures var scan := Scan(Selectors, query, Empty);
      var needs := scan.outcome.Success? && NeedsBody(scan.outcome.value);
      && (needs ==> Locate(query).probed == scan.probed + [BodySelector])
      && (!needs ==> Locate(query) == scan)
      && (needs && query(BodySelector).Present? ==> Locate(query).outcome == Success(query(BodySelector).element))
      && (needs && query(BodySelector).Absent? ==> Locate(query).outcome == scan.outcome)
      && (BodySelector in Locate(query).probed <==> needs)
  {
    var scan := Scan(Selectors, query, Empty);
    BodyNotCandidate();
    NotInPrefix(BodySelector, scan.probed, Selectors);
  }

  /** The body is not one of the candidates. */
  lemma BodyNotCandidate()
    ensures BodySelector !in Selectors
  {
  }

  /** First match wins: once a candidate with more than 200 characters of non-empty markup is
      reached without an earlier throw, it is returned and no later candidate, nor the
      body, is queried, whatever they hold. */
  lemma FirstSubstantialWins(query: string -> Probe, i: nat)
    requires i < |Selectors|
    requires forall j :: 0 <= j < i ==> !Stops(query(Selectors[j]))
    requires query(Selectors[i]).Present? && Substantial(query(Selectors[i]).element)
    requires query(Selectors[i]).element.html != ""
    ensures Locate(query) == Extraction(Selectors[..i + 1], Success(query(Selectors[i]).element))
  {
    FirstStopAt(Selectors, query, i);
    ScanReference(Selectors, query, Empty);
  }

  lemma {:induction false} FirstStopAt(sels: seq<string>, query: string -> Probe, i: nat)
    requires i < |sels| && Stops(query(sels[i]))
    requires forall j :: 0 <= j < i ==> !Stops(query(sels[j]))
    ensures FirstStop(sels, query) == i
    decreases i
  {
    if i > 0 {
      FirstStopAt(sels[1..], query, i - 1);
    }
  }

  lemma {:induction false} NoStop(sels: seq<string>, query: string -> Probe)
    requires forall j :: 0 <= j < |sels| ==> !Stops(query(sels[j]))
    ensures FirstStop(sels, query) == |sels|
    decreases |sels|
  {
    if |sels| > 0 {
      NoStop(sels[1..], query);
    }
  }

  /** A candidate of exactly 200 characters does not stop the scan, but when no earlier
      candidate stops it and no later one is present, it is returned as is: every candidate
      is queried and the body is not. */
  lemma BoundaryCandidateKept(query: string -> Probe, i: nat)
    requires i < |Selectors|
    requires forall j :: 0 <= j < i ==> !Stops(query(Selectors[j]))
    requires query(Selectors[i]).Present?
    requires Utf16Length(query(Selectors[i]).element.text) == MinLength
    requires query(Selectors[i]).element.html != ""
    requires forall j :: i < j < |Selectors| ==> query(Selectors[j]).Absent?
    ensures Locate(query) == Extraction(Selectors, Success(query(Selectors[i]).element))
  {
    forall k | 0 <= k < |Selectors| ensures !Stops(query(Selectors[k])) {
      if i < k {
        assert query(Selectors[k]).Absent?;
      }
    }
    ScanWithoutStop(query);
    LastPresentIsLast(Selectors, query, Empty, i);
    LocateFallback(query);
  }

  /** When no candidate stops the scan, all of them are queried and the last present one wins. */
  lemma ScanWithoutStop(query: string -> Probe)
    requires forall k :: 0 <= k < |Selectors| ==> !Stops(query(Selectors[k]))
    ensures Scan(Selectors, query, Empty) == Extraction(Selectors, Success(LastPresent(Selectors, query, Empty)))
  {
    NoStop(Selectors, query);
    ScanReference(Selectors, query, Empty);
    TakeAll(Selectors);
  }

  /** A short element found after a 200-character one overwrites it, so the body is read
      after all: the scan keeps the last element found, not the best. Other candidates may
      be present anywhere before the short one, as long as none of them stops the scan. */
  lemma ShortLaterCandidateOverwrites(query: string -> Probe, i: nat, j: nat)
    requires i < j < |Selectors|
    requires query(Selectors[i]).Present? && Utf16Length(query(Selectors[i]).element.text) == MinLength
    requires query(Selectors[j]).Present? && Utf16Length(query(Selectors[j]).element.text) < MinLength
    requires forall k :: 0 <= k < |Selectors| ==> !Stops(query(Selectors[k]))
    requires forall k :: j < k < |Selectors| ==> query(Selectors[k]).Absent?
    ensures Locate(query).probed == Selectors + [BodySelector]
    ensures query(BodySelector).Absent? ==> Locate(query).outcome == Success(query(Selectors[j]).element)
  {
    ScanWithoutStop(query);
    LastPresentIsLast(Selectors, query, Empty, j);
    LocateFallback(query);
  }

  // ---------------------------------------------------------------------------
  // The loop as written
  // ---------------------------------------------------------------------------

  /** The selectors already queried followed by the rest of a scan. */
  function Resume(probed: seq<string>, e: Extraction): Extraction {
    Extraction(probed + e.probed, e.outcome)
  }

  /** One turn of the selector loop: the scan so far, continued past candidate `i`. */
  lemma LoopStep(sels: seq<string>, query: string -> Probe, probed: seq<string>, i: nat, current: ScrapedContent)
    requires i < |sels|
    requires Scan(sels, query, Empty) == Resume(probed, Scan(sels[i..], query, current))
    ensures Stops(query(sels[i])) ==>
      Scan(sels, query, Empty) == Extraction(probed + [sels[i]], StopOutcome(query(sels[i])))
    ensures !Stops(query(sels[i])) ==>
      Scan(sels, query, Empty) == Resume(probed + [sels[i]], Scan(sels[i + 1..], query, After(query(sels[i]), current)))
  {
    var rest := sels[i..];
    assert rest[0] == sels[i] && rest[1..] == sels[i + 1..];
    if !Stops(query(sels[i])) {
      ScanStep(rest, query, current);
      Assoc3(probed, [sels[i]], Scan(rest[1..], query, After(query(sels[i]), current)).probed);
    }
  }

  /** The selector loop with its `break`: the candidates are queried in order until one
      throws or holds a substantial element. */
  method ScanCandidates(sels: seq<string>, query: string -> Probe) returns (e: Extraction)
    ensures e == Scan(sels, query, Empty)
  {
    var current := Empty;
    var probed: seq<string> := [];
    var i := 0;
    while i < |sels|
      invariant 0 <= i <= |sels|
      invariant Scan(sels, query, Empty) == Resume(probed, Scan(sels[i..], query, current))
      decreases |sels| - i
    {
      var selector := sels[i];
      LoopStep(sels, query, probed, i, current);
      probed := probed + [selector];
      match query(selector) {
        case Fault(t) =>
          return Extraction(probed, Failure(t));
        case Absent =>
        case Present(c) =>
          current := c;
          if Substantial(c) {
            return Extraction(probed, Success(c));
          }
      }
      i := i + 1;
    }
    assert sels[i..] == [];
    e := Extraction(probed, Success(current));
  }

  /** The extraction as the scraper runs it: the selector loop, then the body read into the
      `html` and `text` variables when they hold empty markup or short text. */
  method FindContent(query: string -> Probe) returns (e: Extraction)
    ensures e == Locate(query)
  {
    e := ScanCandidates(Selectors, query);
    if e.outcome.Failure? {
      return;
    }
    var html, text := e.outcome.value.html, e.outcome.value.text;
    if html == "" || Utf16Length(text) < MinLength {
      var probed := e.probed + [BodySelector];
      match query(BodySelector) {
        case Fault(t) =>
          return Extraction(probed, Failure(t));
        case Absent =>
        case Present(body) =>
          html, text := body.html, body.text;
      }
      e := Extraction(probed, Success(ScrapedContent(html, text)));
    }
  }
}
