/** `DuckSniffer.sniff` (flagger/sniffers/duckduckgo.py): a web search whose
    result pages are fetched one by one and scanned for flags. The search,
    the page fetch, the HTML-to-text step and the regex are inputs. */
module DuckSniffer {
  import opened Base
  import opened Text
  import opened Flags
  import opened LineSearch

  /** One search result as the sniffer sees it: the page's URL, its text
      and the regex matches in that text; or the `RequestException` or
      `KeyError` raised while fetching it. */
  datatype SearchResult = Page(url: string, content: string, matches: seq<string>) | PageFailed

  /** The records one result contributes. */
  function ResultFlags(r: SearchResult): seq<Flag> {
    match r
    case PageFailed => []
    case Page(url, content, matches) => MatchFlags(url, SplitLines(content), matches)
  }

  /** The records of all results, in result order. */
  function DuckFlags(results: seq<SearchResult>): seq<Flag> {
    Collect(results, ResultFlags)
  }

  /** `DuckSniffer.sniff`: a failed search raises out of `sniff`; an empty
      one returns `[]`; otherwise every page is scanned, every match against
      the page's full lines, and a page that fails is skipped. */
  method Sniff(search: Fetch<seq<SearchResult>>) returns (outcome: SniffOutcome)
    ensures search.FetchFailed? ==> outcome == Raised
    ensures search.Fetched? ==> outcome == Sniffed(DuckFlags(search.value))
  {
    if search.FetchFailed? {
      return Raised;
    }
    var results := search.value;
    var flags: seq<Flag> := [];
    if |results| == 0 {
      return Sniffed(flags);
    }
    for r := 0 to |results|
      invariant flags == DuckFlags(results[..r])
    {
      DuckFlagsStep(results, r);
      var result := results[r];
      if result.Page? {
        var found := ScanPage(result.url, result.content, result.matches);
        flags := flags + found;
      }
    }
    assert results[..|results|] == results;
    return Sniffed(flags);
  }

  lemma DuckFlagsStep(results: seq<SearchResult>, r: nat)
    requires r < |results|
    ensures DuckFlags(results[..r + 1]) == DuckFlags(results[..r]) + ResultFlags(results[r])
  {
    CollectStep(results, ResultFlags, r);
  }

  /** A page that fails to load costs only its own records. */
  lemma FailedPageSkipped(a: seq<SearchResult>, b: seq<SearchResult>)
    ensures DuckFlags(a + [PageFailed] + b) == DuckFlags(a) + DuckFlags(b)
  {
    CollectSkip(a, PageFailed, b, ResultFlags);
  }

  /** A loaded page gives one record per match found on some line of the
      page (repeats included, none for a match spanning lines), each with
      the page's URL as origin and with its context cut from the page's
      full text. */
  lemma PageFlagsSpec(r: SearchResult)
    requires r.Page?
    ensures Values(ResultFlags(r)) == OnSomeLine(SplitLines(r.content), r.matches)
    ensures forall k :: 0 <= k < |ResultFlags(r)| ==> CutFrom(r.url, SplitLines(r.content), ResultFlags(r)[k])
  {
    MatchFlagsValues(r.url, SplitLines(r.content), r.matches);
    MatchFlagsRecords(r.url, SplitLines(r.content), r.matches);
  }
}
