/**
 * The collector: for one year, pages through the four seasons and flattens every entry
 * into a record; the driver concatenates the records of every year in the configured range.
 */
module Collector {
  import opened Wrappers
  import opened Catalog

  /** One row of the raw dataset. */
  datatype AnimeRecord = AnimeRecord(title: string, year: int, source: string, season: Season)

  /** The source given to an entry that has none. */
  const UNKNOWN_SOURCE: string := "unknown"

  /** The record built from one entry of a (year, season) page. */
  function ToRecord(e: Entry, year: int, season: Season): (r: AnimeRecord)
    ensures r.title == e.title && r.year == year && r.season == season
    ensures e.source.Some? ==> r.source == e.source.value
    ensures e.source.None? ==> r.source == UNKNOWN_SOURCE
  {
    AnimeRecord(e.title, year, e.source.GetOr(UNKNOWN_SOURCE), season)
  }

  /** The records of one page, entry by entry. */
  function PageRecords(data: seq<Entry>, year: int, season: Season): (rs: seq<AnimeRecord>)
    ensures |rs| == |data|
    ensures forall i :: 0 <= i < |data| ==> rs[i] == ToRecord(data[i], year, season)
  {
    if data == [] then []
    else PageRecords(data[..|data| - 1], year, season) + [ToRecord(data[|data| - 1], year, season)]
  }

  /** The records one page contributes: those of its body, or none when the request failed. */
  function PageOf(http: Http, year: int, season: Season, page: int): seq<AnimeRecord> {
    match GetSeasonalAnime(http, year, season, page)
    case None => []
    case Some(body) => PageRecords(body.data, year, season)
  }

  /** The number of entries on one page (zero for a failed request). */
  function EntriesOn(http: Http, year: int, season: Season, page: int): nat {
    match GetSeasonalAnime(http, year, season, page)
    case None => 0
    case Some(body) => |body.data|
  }

  /** The records of pages lo, lo + 1, ..., hi - 1, in page order. */
  function PageRange(http: Http, year: int, season: Season, lo: int, hi: int): seq<AnimeRecord>
    decreases hi - lo
  {
    if hi <= lo then []
    else PageRange(http, year, season, lo, hi - 1) + PageOf(http, year, season, hi - 1)
  }

  /** The number of entries on pages lo, ..., hi - 1. */
  function EntriesInRange(http: Http, year: int, season: Season, lo: int, hi: int): nat
    decreases hi - lo
  {
    if hi <= lo then 0
    else EntriesInRange(http, year, season, lo, hi - 1) + EntriesOn(http, year, season, hi - 1)
  }

  /** Paging of the season ends somewhere: some page from 1 on fails or comes back empty. */
  ghost predicate SeasonEnds(http: Http, year: int, season: Season) {
    exists k :: 1 <= k && Stops(http, year, season, k)
  }

  /** Page k is the first page of the season at which paging stops. */
  predicate IsFirstStop(http: Http, year: int, season: Season, k: int) {
    1 <= k && Stops(http, year, season, k) &&
    forall j :: 1 <= j < k ==> !Stops(http, year, season, j)
  }

  /** If paging stops at some page, it stops at a first one. */
  lemma {:induction false} FirstStopExists(http: Http, year: int, season: Season, k: int)
    requires 1 <= k && Stops(http, year, season, k)
    ensures exists f :: IsFirstStop(http, year, season, f) && f <= k
    decreases k
  {
    if exists j :: 1 <= j < k && Stops(http, year, season, j) {
      var j :| 1 <= j < k && Stops(http, year, season, j);
      FirstStopExists(http, year, season, j);
    } else {
      assert IsFirstStop(http, year, season, k);
    }
  }

  /** There is only one first stop. */
  lemma FirstStopUnique(http: Http, year: int, season: Season, k1: int, k2: int)
    requires IsFirstStop(http, year, season, k1) && IsFirstStop(http, year, season, k2)
    ensures k1 == k2
  {
  }

  /** The page at which paging of the season stops. */
  ghost function FirstStop(http: Http, year: int, season: Season): (k: int)
    requires SeasonEnds(http, year, season)
    ensures IsFirstStop(http, year, season, k)
  {
    var bound :| 1 <= bound && Stops(http, year, season, bound);
    FirstStopExists(http, year, season, bound);
    var k :| IsFirstStop(http, year, season, k);
    k
  }

  /** What a season contributes: the pages before its first stop, concatenated. */
  ghost function SeasonRecords(http: Http, year: int, season: Season): seq<AnimeRecord>
    requires SeasonEnds(http, year, season)
  {
    PageRange(http, year, season, 1, FirstStop(http, year, season))
  }

  /** Whichever page is found to be the first stop, the season's records are the pages before it. */
  lemma SeasonRecordsAtStop(http: Http, year: int, season: Season, k: int)
    requires IsFirstStop(http, year, season, k)
    ensures SeasonEnds(http, year, season)
    ensures SeasonRecords(http, year, season) == PageRange(http, year, season, 1, k)
  {
    FirstStopUnique(http, year, season, k, FirstStop(http, year, season));
  }

  /** Paging ends in every season of the year. */
  ghost predicate YearEnds(http: Http, year: int) {
    forall s :: SeasonEnds(http, year, s)
  }

  /** The contributions of the seasons `ss`, in that order. */
  ghost function SeasonsRecords(http: Http, year: int, ss: seq<Season>): seq<AnimeRecord>
    requires YearEnds(http, year)
  {
    if ss == [] then []
    else SeasonsRecords(http, year, ss[..|ss| - 1]) + SeasonRecords(http, year, ss[|ss| - 1])
  }

  /** What one year contributes. */
  ghost function YearRecords(http: Http, year: int): seq<AnimeRecord>
    requires YearEnds(http, year)
  {
    SeasonsRecords(http, year, SEASONS)
  }

  /** Paging ends in every season of every year lo, ..., hi - 1. */
  ghost predicate YearsEnd(http: Http, lo: int, hi: int) {
    forall y :: lo <= y < hi ==> YearEnds(http, y)
  }

  /** The contributions of the years lo, ..., hi - 1, in increasing order. */
  ghost function YearsRecords(http: Http, lo: int, hi: int): seq<AnimeRecord>
    requires YearsEnd(http, lo, hi)
    decreases hi - lo
  {
    if hi <= lo then []
    else YearsRecords(http, lo, hi - 1) + YearRecords(http, hi - 1)
  }

  /** The page numbers 1, 2, ..., n, in order. */
  function PageNumbers(n: nat): (ps: seq<int>)
    ensures |ps| == n
    ensures forall i :: 0 <= i < n ==> ps[i] == i + 1
  {
    if n == 0 then [] else PageNumbers(n - 1) + [n]
  }

  /** The inner loop over one page's entries: appends one record per entry, in entry order. */
  method AppendPage(records: seq<AnimeRecord>, data: seq<Entry>, year: int, season: Season)
    returns (extended: seq<AnimeRecord>)
    ensures extended == records + PageRecords(data, year, season)
  {
    extended := records;
    for i := 0 to |data|
      invariant extended == records + PageRecords(data[..i], year, season)
    {
      assert data[..i + 1][..i] == data[..i];
      extended := extended + [ToRecord(data[i], year, season)];
    }
    assert data[..|data|] == data;
  }

  /**
   * The paging loop of one season: requests pages 1, 2, ... and stops at the first page
   * that fails or is empty. `requested` is the log of page numbers asked for.
   */
  method CollectSeason(http: Http, year: int, season: Season)
    returns (records: seq<AnimeRecord>, requested: seq<int>)
    requires SeasonEnds(http, year, season)
    ensures IsFirstStop(http, year, season, |requested|)
    ensures requested == PageNumbers(|requested|)
    ensures records == PageRange(http, year, season, 1, |requested|)
    ensures records == SeasonRecords(http, year, season)
  {
    ghost var bound :| 1 <= bound && Stops(http, year, season, bound);
    records, requested := [], [];
    var page := 1;
    while true
      invariant 1 <= page <= bound
      invariant requested == PageNumbers(page - 1)
      invariant forall j :: 1 <= j < page ==> !Stops(http, year, season, j)
      invariant records == PageRange(http, year, season, 1, page)
      decreases bound - page
    {
      var response := GetSeasonalAnime(http, year, season, page);
      requested := requested + [page];
      assert requested == PageNumbers(page);
      if StopsOn(response) {
        break;
      }
      records := AppendPage(records, response.value.data, year, season);
      page := page + 1;
    }
    assert |requested| == page;
    SeasonRecordsAtStop(http, year, season, page);
  }

  /** All records of one year: the four seasons in order, each paged until it stops. */
  method GetAnime(http: Http, year: int) returns (records: seq<AnimeRecord>)
    requires YearEnds(http, year)
    ensures records == YearRecords(http, year)
  {
    records := [];
    for i := 0 to |SEASONS|
      invariant records == SeasonsRecords(http, year, SEASONS[..i])
    {
      var seasonRecords, requested := CollectSeason(http, year, SEASONS[i]);
      assert SEASONS[..i + 1][..i] == SEASONS[..i];
      records := records + seasonRecords;
    }
    assert SEASONS[..|SEASONS|] == SEASONS;
  }

  /** The year loop of the driver: every configured year's records, in increasing year order. */
  method CollectYears(http: Http) returns (records: seq<AnimeRecord>)
    requires YearsEnd(http, START_YEAR, STOP_YEAR + 1)
    ensures records == YearsRecords(http, START_YEAR, STOP_YEAR + 1)
  {
    records := [];
    for year := START_YEAR to STOP_YEAR + 1
      invariant records == YearsRecords(http, START_YEAR, year)
    {
      var yearRecords := GetAnime(http, year);
      records := records + yearRecords;
    }
  }

  // Properties of the specification

  /** Every record of a page range carries the year and season it was requested for. */
  lemma {:induction false} PageRangeTagged(http: Http, year: int, season: Season, lo: int, hi: int)
    ensures forall r :: r in PageRange(http, year, season, lo, hi) ==> r.year == year && r.season == season
    decreases hi - lo
  {
    if lo < hi {
      PageRangeTagged(http, year, season, lo, hi - 1);
    }
  }

  /** A page range holds exactly as many records as its pages hold entries. */
  lemma {:induction false} PageRangeLength(http: Http, year: int, season: Season, lo: int, hi: int)
    ensures |PageRange(http, year, season, lo, hi)| == EntriesInRange(http, year, season, lo, hi)
    decreases hi - lo
  {
    if lo < hi {
      PageRangeLength(http, year, season, lo, hi - 1);
    }
  }

  /** A season contributes as many records as its pages before the stop hold entries. */
  lemma SeasonRecordsLength(http: Http, year: int, season: Season)
    requires SeasonEnds(http, year, season)
    ensures |SeasonRecords(http, year, season)| == EntriesInRange(http, year, season, 1, FirstStop(http, year, season))
  {
    PageRangeLength(http, year, season, 1, FirstStop(http, year, season));
  }

  /** The number of entries on a season's pages before its stop page. */
  ghost function SeasonEntries(http: Http, year: int, season: Season): nat
    requires SeasonEnds(http, year, season)
  {
    EntriesInRange(http, year, season, 1, FirstStop(http, year, season))
  }

  /** A year yields as many records as its four seasons' pages before their stops hold entries. */
  lemma YearRecordsLength(http: Http, year: int)
    requires YearEnds(http, year)
    ensures |YearRecords(http, year)| ==
      SeasonEntries(http, year, Winter) + SeasonEntries(http, year, Spring) +
      SeasonEntries(http, year, Summer) + SeasonEntries(http, year, Fall)
  {
    YearRecordsSeasons(http, year);
    SeasonRecordsLength(http, year, Winter);
    SeasonRecordsLength(http, year, Spring);
    SeasonRecordsLength(http, year, Summer);
    SeasonRecordsLength(http, year, Fall);
  }

  /** Each season's records carry that year and that season. */
  lemma SeasonRecordsTagged(http: Http, year: int, season: Season)
    requires SeasonEnds(http, year, season)
    ensures forall r :: r in SeasonRecords(http, year, season) ==> r.year == year && r.season == season
  {
    PageRangeTagged(http, year, season, 1, FirstStop(http, year, season));
  }

  /** Records ordered by season: winter before spring before summer before fall. */
  predicate SeasonOrdered(rs: seq<AnimeRecord>) {
    forall i, j :: 0 <= i < j < |rs| ==> Ordinal(rs[i].season) <= Ordinal(rs[j].season)
  }

  lemma {:induction false} SeasonsPrefixOrdered(http: Http, year: int, n: nat)
    requires YearEnds(http, year)
    requires n <= |SEASONS|
    ensures forall r :: r in SeasonsRecords(http, year, SEASONS[..n]) ==> r.year == year && Ordinal(r.season) < n
    ensures SeasonOrdered(SeasonsRecords(http, year, SEASONS[..n]))
  {
    if n > 0 {
      SeasonsPrefixOrdered(http, year, n - 1);
      assert SEASONS[..n][..n - 1] == SEASONS[..n - 1];
      var season := SEASONS[n - 1];
      assert Ordinal(season) == n - 1;
      SeasonRecordsTagged(http, year, season);
      var front: seq<AnimeRecord> := SeasonsRecords(http, year, SEASONS[..n - 1]);
      var back: seq<AnimeRecord> := SeasonRecords(http, year, season);
      assert SeasonsRecords(http, year, SEASONS[..n]) == front + back;
      forall i, j | 0 <= i < j < |front + back|
        ensures Ordinal((front + back)[i].season) <= Ordinal((front + back)[j].season)
      {
        if j < |front| {
        } else if i < |front| {
          assert front[i] in front;
          assert back[j - |front|] in back;
        } else {
          assert back[i - |front|] in back;
          assert back[j - |front|] in back;
        }
      }
    }
  }

  /** One year's records: the seasons' contributions in the order winter, spring, summer, fall. */
  lemma YearRecordsSeasons(http: Http, year: int)
    requires YearEnds(http, year)
    ensures YearRecords(http, year) ==
      SeasonRecords(http, year, Winter) + SeasonRecords(http, year, Spring) +
      SeasonRecords(http, year, Summer) + SeasonRecords(http, year, Fall)
  {
    assert SEASONS[..3] == [Winter, Spring, Summer];
    assert [Winter, Spring, Summer][..2] == [Winter, Spring];
    assert [Winter, Spring][..1] == [Winter];
    assert [Winter][..0] == [];
    assert SeasonsRecords(http, year, [Winter]) == SeasonRecords(http, year, Winter);
    assert SeasonsRecords(http, year, [Winter, Spring]) ==
      SeasonRecords(http, year, Winter) + SeasonRecords(http, year, Spring);
    assert SeasonsRecords(http, year, [Winter, Spring, Summer]) ==
      SeasonRecords(http, year, Winter) + SeasonRecords(http, year, Spring) + SeasonRecords(http, year, Summer);
  }

  /** Every record of a year carries that year, and seasons follow each other in order without interleaving. */
  lemma YearRecordsShape(http: Http, year: int)
    requires YearEnds(http, year)
    ensures forall r :: r in YearRecords(http, year) ==> r.year == year
    ensures SeasonOrdered(YearRecords(http, year))
  {
    assert SEASONS[..4] == SEASONS;
    SeasonsPrefixOrdered(http, year, 4);
  }

  /** Every record of the years lo, ..., hi - 1 has its year in that range. */
  lemma {:induction false} YearsRecordsInRange(http: Http, lo: int, hi: int)
    requires YearsEnd(http, lo, hi)
    ensures forall r :: r in YearsRecords(http, lo, hi) ==> lo <= r.year < hi
    decreases hi - lo
  {
    if lo < hi {
      YearsRecordsInRange(http, lo, hi - 1);
      YearRecordsShape(http, hi - 1);
    }
  }
}
