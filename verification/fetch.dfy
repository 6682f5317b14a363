/** The paginated release fetch: pages of a fixed size are requested in order,
    starting at page 1, and their items are appended to a buffer until a page
    comes back empty (end of the catalog) or fails (a connection error). The
    API's answers are an input: `pages[k]` is the response to page `k + 1`. */
module Fetch {
  import opened Wrappers
  import opened Store

  /** Number of releases asked for per page. */
  const PageSize: nat := 30

  /** A call made to the release API. */
  datatype Request = LatestRelease | ReleasePage(size: nat, page: nat)

  /** A response that ends the loop: a failed call or an empty page. */
  predicate Stops(response: Option<seq<Release>>) {
    response.None? || |response.value| == 0
  }

  /** Some response ends the loop; the API eventually returns an empty page or
      fails, otherwise the fetch loop would never end. */
  predicate Terminating(pages: seq<Option<seq<Release>>>) {
    exists k :: 0 <= k < |pages| && Stops(pages[k])
  }

  /** Index of the first response at or after `i` that ends the loop. */
  function FirstStopFrom(pages: seq<Option<seq<Release>>>, i: nat): (k: nat)
    requires exists j :: i <= j < |pages| && Stops(pages[j])
    ensures i <= k < |pages| && Stops(pages[k])
    ensures forall j :: i <= j < k ==> !Stops(pages[j])
    decreases |pages| - i
  {
    if Stops(pages[i]) then i
    else
      assert exists j :: i + 1 <= j < |pages| && Stops(pages[j]);
      FirstStopFrom(pages, i + 1)
  }

  /** Index of the response that ends the fetch loop. */
  function FirstStop(pages: seq<Option<seq<Release>>>): (k: nat)
    requires Terminating(pages)
    ensures k < |pages| && Stops(pages[k])
    ensures forall j :: 0 <= j < k ==> !Stops(pages[j])
  {
    FirstStopFrom(pages, 0)
  }

  /** The items of a sequence of successful pages, in order. */
  function Concat(pages: seq<Option<seq<Release>>>): seq<Release>
  {
    if pages == [] then [] else pages[0].GetOr([]) + Concat(pages[1..])
  }

  /** Requests for pages `from + 1` through `to`, each of size PageSize. */
  function PageRequests(from: nat, to: nat): (rs: seq<Request>)
    requires from <= to
    ensures |rs| == to - from
    ensures forall j :: 0 <= j < |rs| ==> rs[j] == ReleasePage(PageSize, from + j + 1)
  {
    seq(to - from, j requires 0 <= j < to - from => ReleasePage(PageSize, from + j + 1))
  }

  /** The outcome of one run of the fetch loop: the buffer afterwards, the
      requests made, and whether the run ended with a connection error (the
      source raises an alert in that case). */
  datatype FetchOutcome = FetchOutcome(buffer: seq<Release>, requests: seq<Request>, failed: bool)

  /** The fetch loop from page `i + 1` on, appending to `buffer`. */
  function FetchFrom(pages: seq<Option<seq<Release>>>, i: nat, buffer: seq<Release>): (r: FetchOutcome)
    requires exists j :: i <= j < |pages| && Stops(pages[j])
    ensures var stop := FirstStopFrom(pages, i);
      && r.buffer == buffer + Concat(pages[i..stop])
      && r.requests == PageRequests(i, stop + 1)
      && (r.failed <==> pages[stop].None?)
    decreases |pages| - i
  {
    match pages[i]
    case None => FetchOutcome(buffer, [ReleasePage(PageSize, i + 1)], true)
    case Some(items) =>
      if |items| == 0 then FetchOutcome(buffer, [ReleasePage(PageSize, i + 1)], false)
      else
        assert exists j :: i + 1 <= j < |pages| && Stops(pages[j]);
        var rest := FetchFrom(pages, i + 1, buffer + items);
        assert pages[i..FirstStopFrom(pages, i)] == [pages[i]] + pages[i + 1..FirstStopFrom(pages, i)];
        FetchOutcome(rest.buffer, [ReleasePage(PageSize, i + 1)] + rest.requests, rest.failed)
  }

  /** The whole fetch, starting at page 1: the buffer gains exactly the items
      of the pages before the first empty or failed page, pages 1, 2, ... are
      requested up to and including that page and no further. */
  function GetReleases(pages: seq<Option<seq<Release>>>, buffer: seq<Release>): (r: FetchOutcome)
    requires Terminating(pages)
    ensures r.buffer == buffer + Concat(pages[..FirstStop(pages)])
    ensures |r.requests| == FirstStop(pages) + 1
    ensures forall j :: 0 <= j < |r.requests| ==> r.requests[j] == ReleasePage(PageSize, j + 1)
    ensures r.failed <==> pages[FirstStop(pages)].None?
  {
    FetchFrom(pages, 0, buffer)
  }

  /** Total number of items in a sequence of page responses. */
  function SumCounts(pages: seq<Option<seq<Release>>>): nat
  {
    if pages == [] then 0 else |pages[0].GetOr([])| + SumCounts(pages[1..])
  }

  lemma {:induction false} ConcatLength(pages: seq<Option<seq<Release>>>)
    ensures |Concat(pages)| == SumCounts(pages)
  {
    if pages != [] {
      ConcatLength(pages[1..]);
    }
  }

  /** The buffer grows by the sum of the counts of the pages fetched before
      the stopping page; nothing already buffered is dropped. */
  lemma BufferGrowth(pages: seq<Option<seq<Release>>>, buffer: seq<Release>)
    requires Terminating(pages)
    ensures var r := GetReleases(pages, buffer);
      && |r.buffer| == |buffer| + SumCounts(pages[..FirstStop(pages)])
      && r.buffer[..|buffer|] == buffer
  {
    ConcatLength(pages[..FirstStop(pages)]);
  }

  /** Responses after the stopping page are never looked at: replacing them
      by anything leaves the outcome unchanged. */
  lemma IgnoresLaterPages(pages: seq<Option<seq<Release>>>, later: seq<Option<seq<Release>>>, buffer: seq<Release>)
    requires Terminating(pages)
    ensures var cut := pages[..FirstStop(pages) + 1] + later;
      && Terminating(cut)
      && FirstStop(cut) == FirstStop(pages)
      && GetReleases(cut, buffer) == GetReleases(pages, buffer)
  {
    var stop := FirstStop(pages);
    var cut := pages[..stop + 1] + later;
    assert cut[stop] == pages[stop];
    assert Terminating(cut);
    var k := FirstStop(cut);
    assert forall j :: 0 <= j <= stop ==> cut[j] == pages[j];
    assert k == stop by {
      if k < stop {
        assert false;
      } else if k > stop {
        assert false;
      }
    }
    assert cut[..k] == pages[..stop];
    var a := GetReleases(cut, buffer);
    var b := GetReleases(pages, buffer);
    assert a.requests == b.requests;
  }
}
