/**
 * The catalog client: the seasonal listing endpoint of the anime catalog, reduced to what
 * the collector sees of it. The HTTP round trip is a deterministic function `Http` from a
 * (year, season, window) request to a response with a status code and a decoded body.
 */
module Catalog {
  import opened Wrappers

  /** First and last year collected (both inclusive). */
  const START_YEAR: int := 1990
  const STOP_YEAR: int := 2022

  /** Entries per page, sent as the `limit` query parameter. */
  const PAGE_SIZE: int := 100

  /** The only status code whose body is used. */
  const STATUS_OK: int := 200

  datatype Season = Winter | Spring | Summer | Fall

  /** The seasons of one year, in the order they are fetched. */
  const SEASONS: seq<Season> := [Winter, Spring, Summer, Fall]

  /** The position of a season in `SEASONS`. */
  function Ordinal(s: Season): nat {
    match s
    case Winter => 0
    case Spring => 1
    case Summer => 2
    case Fall => 3
  }

  /** The `node` of one listing entry: the title is always present, the source may be missing. */
  datatype Entry = Entry(title: string, source: Option<string>)

  /** A decoded response body: the list under its `data` key. */
  datatype Body = Body(data: seq<Entry>)

  datatype Response = Response(status: int, body: Body)

  /** The paging query parameters of one request. */
  datatype Window = Window(limit: int, offset: int)

  /** One GET of the seasonal listing for (year, season) with the given window. */
  type Http = (int, Season, Window) -> Response

  /**
   * The query window for a page number (pages count from 1): a full page's worth of
   * entries, skipping the entries of the pages before it.
   */
  function RequestWindow(page: int): (w: Window)
    ensures w.limit == PAGE_SIZE
    ensures w.offset % PAGE_SIZE == 0 && w.offset / PAGE_SIZE == page - 1
    ensures page >= 1 <==> w.offset >= 0
  {
    Window(PAGE_SIZE, (page - 1) * PAGE_SIZE)
  }

  /** Whether listing position `n` (0-based) falls inside window `w`. */
  predicate InWindow(w: Window, n: int) {
    w.offset <= n < w.offset + w.limit
  }

  /** The page whose window holds listing position `n`. */
  function PageOfPosition(n: nat): int {
    n / PAGE_SIZE + 1
  }

  /** Page 1 starts at position 0, each page asks for 100 entries, and page p + 1 starts where page p ends. */
  lemma WindowsAdjacent(p: int)
    ensures RequestWindow(1) == Window(100, 0)
    ensures RequestWindow(p).limit == 100
    ensures RequestWindow(p + 1).offset == RequestWindow(p).offset + RequestWindow(p).limit
  {
  }

  /** Different pages never ask for the same listing position. */
  lemma WindowsDisjoint(p: int, q: int, n: int)
    requires p != q
    ensures !(InWindow(RequestWindow(p), n) && InWindow(RequestWindow(q), n))
  {
  }

  /** Every listing position is covered by the window of some page numbered from 1. */
  lemma WindowsCover(n: nat)
    ensures PageOfPosition(n) >= 1
    ensures InWindow(RequestWindow(PageOfPosition(n)), n)
  {
    var p := n / PAGE_SIZE;
    assert p * PAGE_SIZE <= n < p * PAGE_SIZE + PAGE_SIZE;
  }

  /**
   * One page of a season's listing: the decoded body when the status is 200, and no
   * body for any other status.
   */
  function GetSeasonalAnime(http: Http, year: int, season: Season, page: int): (r: Option<Body>)
    ensures r.Some? <==> http(year, season, RequestWindow(page)).status == STATUS_OK
    ensures r.Some? ==> r.value == http(year, season, RequestWindow(page)).body
  {
    var response := http(year, season, RequestWindow(page));
    if response.status == STATUS_OK then Some(response.body) else None
  }

  /**
   * The one place that decides whether paging of a season ends at `page`: the request
   * failed, or it succeeded with an empty `data` list. The two are not told apart.
   */
  predicate Stops(http: Http, year: int, season: Season, page: int)
    ensures Stops(http, year, season, page) <==>
      http(year, season, RequestWindow(page)).status != STATUS_OK ||
      http(year, season, RequestWindow(page)).body.data == []
  {
    StopsOn(GetSeasonalAnime(http, year, season, page))
  }

  /** The stop test on one page's result: no body, or a body whose `data` list is empty. */
  predicate StopsOn(r: Option<Body>) {
    r.None? || r.value.data == []
  }
}
