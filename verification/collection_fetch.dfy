/**
 * The serverless collection fetcher: validates its inputs, reads page 1 of a
 * user's Discogs collection to learn the page count, reads the remaining
 * pages in order and stops early at the first failed page, and returns the
 * releases projected to the fields the dashboard needs.
 *
 * The network is a parameter: `upstream(p)` is what requesting page `p`
 * yields. Building the request URL and headers, and the pause between
 * requests, are outside the model.
 */
module CollectionFetch {
  import opened Wrappers
  import opened Normalize

  /** One release as Discogs lists it. */
  datatype Release = Release(id: int, instanceId: int, folderId: int, info: BasicInfo)

  /** The projection sent to the front end. */
  datatype LiteRelease = LiteRelease(id: int, instanceId: int, info: BasicInfo)

  /** A parsed page: `pagination.pages` (missing counts as `None`) and its releases. */
  datatype Page = Page(pages: Option<int>, releases: seq<Release>)

  /**
   * What requesting one page yields: a parsed page, a response that is not
   * `ok` with its status and text, or an exception (network error or
   * unparsable JSON) with its message, if any.
   */
  datatype Outcome = Ok(page: Page) | Failed(status: nat, text: string) | Thrown(message: Option<string>)

  datatype Body = Text(text: string) | Json(releases: seq<LiteRelease>)

  datatype Response = Response(status: nat, body: Body, headers: map<string, string>)

  /** The response, and the page numbers requested to produce it, in order. */
  datatype Handled = Handled(response: Response, requested: seq<nat>)

  const MissingUsername := "Missing ?username="
  const MissingToken := "Missing DISCOGS_TOKEN env var"
  const ServerError := "Server error"
  const SuccessHeaders: map<string, string> := map["content-type" := "application/json", "cache-control" := "max-age=300"]

  /** A JavaScript string is falsy when it is missing or empty. */
  predicate Truthy(s: Option<string>)
  {
    s.Some? && s.value != ""
  }

  /** `pagination.pages || 1`. */
  function PageCount(p: Page): (n: int)
    ensures n != 0
    ensures p.pages.Some? && p.pages.value != 0 ==> n == p.pages.value
  {
    if p.pages.Some? && p.pages.value != 0 then p.pages.value else 1
  }

  /** The page numbers `a, a + 1, ..., b - 1`. */
  function Range(a: nat, b: nat): (r: seq<nat>)
    ensures |r| == if b < a then 0 else b - a
    ensures forall i :: 0 <= i < |r| ==> r[i] == a + i
  {
    if b <= a then [] else seq(b - a, i requires 0 <= i < b - a => a + i)
  }

  lemma RangeCons(a: nat, b: nat)
    requires a < b
    ensures Range(a, b) == [a] + Range(a + 1, b)
  {
  }

  /** Every page from `a` to `b` (inclusive) parsed. */
  ghost predicate AllOk(upstream: nat -> Outcome, a: nat, b: int)
  {
    forall p: nat :: a <= p <= b ==> upstream(p).Ok?
  }

  /** The releases of pages `a` to `b`, in page order. */
  function Gathered(upstream: nat -> Outcome, a: nat, b: int): seq<Release>
    requires AllOk(upstream, a, b)
    decreases if b < a then 0 else b - a + 1
  {
    if b < a then [] else upstream(a).page.releases + Gathered(upstream, a + 1, b)
  }

  /** Pages after the first: either the releases gathered, or the exception that ended the run. */
  datatype Rest = Gathering(releases: seq<Release>, requested: seq<nat>)
                | Crashed(message: Option<string>, requested: seq<nat>)

  /**
   * The loop `for (p = from; p <= pages; p++)`: a failed page stops it
   * keeping what was gathered; an exception abandons the whole request.
   */
  function FetchFrom(upstream: nat -> Outcome, from: nat, pages: int): (r: Rest)
    ensures r.requested == Range(from, from + |r.requested|)
    ensures from <= pages ==> |r.requested| <= pages - from + 1
    ensures from > pages ==> r == Gathering([], [])
    decreases if pages < from then 0 else pages - from + 1
  {
    if from > pages then Gathering([], [])
    else
      match upstream(from)
      case Failed(_, _) => Gathering([], [from])
      case Thrown(m) => Crashed(m, [from])
      case Ok(page) =>
        var rest := FetchFrom(upstream, from + 1, pages);
        assert [from] + Range(from + 1, from + 1 + |rest.requested|) == Range(from, from + 1 + |rest.requested|);
        match rest
        case Gathering(rs, req) => Gathering(page.releases + rs, [from] + req)
        case Crashed(m, req) => Crashed(m, [from] + req)
  }

  /** With every page answering, the loop gathers them all, in order. */
  lemma {:induction false} FetchAllOk(upstream: nat -> Outcome, from: nat, pages: int)
    requires AllOk(upstream, from, pages)
    ensures FetchFrom(upstream, from, pages) ==
            Gathering(Gathered(upstream, from, pages), Range(from, if pages < from then from else pages + 1))
    decreases if pages < from then 0 else pages - from + 1
  {
    if from <= pages {
      FetchAllOk(upstream, from + 1, pages);
      if from < pages {
        RangeCons(from, pages + 1);
      }
    }
  }

  /**
   * A failed page `k` ends the loop: the releases of the pages before it are
   * kept and no page after it is requested.
   */
  lemma {:induction false} FetchStopsAtFailure(upstream: nat -> Outcome, from: nat, pages: int, k: nat)
    requires from <= k <= pages
    requires AllOk(upstream, from, k - 1) && upstream(k).Failed?
    ensures FetchFrom(upstream, from, pages) == Gathering(Gathered(upstream, from, k - 1), Range(from, k + 1))
    decreases k - from
  {
    if from < k {
      FetchStopsAtFailure(upstream, from + 1, pages, k);
      RangeCons(from, k + 1);
    }
  }

  /**
   * An exception at page `k` ends the loop and discards what was gathered:
   * its message is kept and no page after it is requested.
   */
  lemma {:induction false} FetchCrashesAt(upstream: nat -> Outcome, from: nat, pages: int, k: nat)
    requires from <= k <= pages
    requires AllOk(upstream, from, k - 1) && upstream(k).Thrown?
    ensures FetchFrom(upstream, from, pages) == Crashed(upstream(k).message, Range(from, k + 1))
    decreases k - from
  {
    if from < k {
      FetchCrashesAt(upstream, from + 1, pages, k);
      RangeCons(from, k + 1);
    }
  }

  /** `({id, instance_id, basic_information})` for each release. */
  function Lite(rs: seq<Release>): (r: seq<LiteRelease>)
    ensures |r| == |rs|
    ensures forall i :: 0 <= i < |rs| ==> r[i] == LiteRelease(rs[i].id, rs[i].instanceId, rs[i].info)
  {
    seq(|rs|, i requires 0 <= i < |rs| => LiteRelease(rs[i].id, rs[i].instanceId, rs[i].info))
  }

  /** `err?.message || "Server error"`. */
  function CrashResponse(m: Option<string>): (r: Response)
    ensures r.status == 500
    ensures r.body == Text(if Truthy(m) then m.value else ServerError)
  {
    Response(500, Text(if Truthy(m) then m.value else ServerError), map[])
  }

  /**
   * The handler. A missing username is reported before a missing token, and
   * neither makes any request; a failed first page is passed through with its
   * status; an exception at any point answers 500.
   */
  function Handle(username: Option<string>, token: Option<string>, upstream: nat -> Outcome): (h: Handled)
    ensures !Truthy(username) ==> h == Handled(Response(400, Text(MissingUsername), map[]), [])
    ensures Truthy(username) && !Truthy(token) ==> h == Handled(Response(500, Text(MissingToken), map[]), [])
    ensures h.requested == Range(1, 1 + |h.requested|)
    ensures h.response.body.Json? <==> Truthy(username) && Truthy(token) && upstream(1).Ok? && FetchFrom(upstream, 2, PageCount(upstream(1).page)).Gathering?
    ensures h.response.body.Json? ==> h.response.status == 200 && h.response.headers == SuccessHeaders
    ensures h.response.body.Json? ==> |h.requested| <= if PageCount(upstream(1).page) < 1 then 1 else PageCount(upstream(1).page)
    ensures Truthy(username) && Truthy(token) && upstream(1).Thrown? ==>
              h == Handled(CrashResponse(upstream(1).message), [1])
    ensures Truthy(username) && Truthy(token) && upstream(1).Ok? ==>
              var rest := FetchFrom(upstream, 2, PageCount(upstream(1).page));
              rest.Crashed? ==> h == Handled(CrashResponse(rest.message), [1] + rest.requested)
  {
    if !Truthy(username) then Handled(Response(400, Text(MissingUsername), map[]), [])
    else if !Truthy(token) then Handled(Response(500, Text(MissingToken), map[]), [])
    else
      match upstream(1)
      case Failed(status, text) =>
        Handled(Response(status, Text(text), map[]), [1])
      case Thrown(m) => Handled(CrashResponse(m), [1])
      case Ok(first) =>
        var pages := PageCount(first);
        var rest := FetchFrom(upstream, 2, pages);
        assert [1] + rest.requested == Range(1, 2 + |rest.requested|);
        match rest
        case Crashed(m, req) => Handled(CrashResponse(m), [1] + req)
        case Gathering(rs, req) =>
          Handled(Response(200, Json(Lite(first.releases + rs)), SuccessHeaders), [1] + req)
  }

  /** A failed first page is answered with its own status and text. */
  lemma FirstPageFailurePassesThrough(username: string, token: string, upstream: nat -> Outcome)
    requires username != "" && token != ""
    requires upstream(1).Failed?
    ensures Handle(Some(username), Some(token), upstream) ==
            Handled(Response(upstream(1).status, Text(upstream(1).text), map[]), [1])
  {
  }

  /**
   * When every page answers, the response lists the releases of pages 1 to
   * `pages` in page order, and exactly those pages are requested.
   */
  lemma AllPagesGathered(username: string, token: string, upstream: nat -> Outcome)
    requires username != "" && token != ""
    requires upstream(1).Ok? && AllOk(upstream, 2, PageCount(upstream(1).page))
    ensures var pages := PageCount(upstream(1).page);
            var h := Handle(Some(username), Some(token), upstream);
            && h.response == Response(200, Json(Lite(upstream(1).page.releases + Gathered(upstream, 2, pages))), SuccessHeaders)
            && h.requested == Range(1, if pages < 1 then 2 else pages + 1)
  {
    var pages := PageCount(upstream(1).page);
    FetchAllOk(upstream, 2, pages);
    if pages >= 2 {
      RangeCons(1, pages + 1);
    }
  }

  /**
   * Partial success: when page `k` (2 <= k <= pages) is the first to fail,
   * the response lists the releases of pages 1 to k - 1 with status 200.
   */
  lemma PartialOnLaterFailure(username: string, token: string, upstream: nat -> Outcome, k: nat)
    requires username != "" && token != ""
    requires upstream(1).Ok? && 2 <= k <= PageCount(upstream(1).page)
    requires AllOk(upstream, 2, k - 1) && upstream(k).Failed?
    ensures var h := Handle(Some(username), Some(token), upstream);
            && h.response == Response(200, Json(Lite(upstream(1).page.releases + Gathered(upstream, 2, k - 1))), SuccessHeaders)
            && h.requested == Range(1, k + 1)
  {
    FetchStopsAtFailure(upstream, 2, PageCount(upstream(1).page), k);
    RangeCons(1, k + 1);
  }

  /**
   * An exception on a later page `k` (2 <= k <= pages) answers 500 with its
   * message (or "Server error"), however many pages had been gathered.
   */
  lemma CrashOnLaterException(username: string, token: string, upstream: nat -> Outcome, k: nat)
    requires username != "" && token != ""
    requires upstream(1).Ok? && 2 <= k <= PageCount(upstream(1).page)
    requires AllOk(upstream, 2, k - 1) && upstream(k).Thrown?
    ensures var h := Handle(Some(username), Some(token), upstream);
            && h.response == CrashResponse(upstream(k).message)
            && h.requested == Range(1, k + 1)
  {
    FetchCrashesAt(upstream, 2, PageCount(upstream(1).page), k);
    RangeCons(1, k + 1);
  }
}
