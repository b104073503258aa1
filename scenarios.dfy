/**
 * A worked instance of the whole pipeline for one year: winter has one page of two
 * entries (one without a source), spring one page of one light-novel entry, every summer
 * request fails with status 500, and fall's first page is empty.
 */
module Scenarios {
  import opened Wrappers
  import opened Catalog
  import opened Collector
  import opened LightNovel

  function ScenarioHttp(): Http {
    (year: int, season: Season, w: Window) =>
      if year == 2020 && season == Winter && w.offset == 0 then
        Response(200, Body([Entry("Alpha", Some("manga")), Entry("Beta", None)]))
      else if year == 2020 && season == Spring && w.offset == 0 then
        Response(200, Body([Entry("Gamma", Some("light_novel"))]))
      else if season == Summer then
        Response(500, Body([]))
      else
        Response(200, Body([]))
  }

  /** A season whose first page is empty or fails contributes nothing. */
  lemma StopAtFirstPage(http: Http, year: int, season: Season)
    requires Stops(http, year, season, 1)
    ensures SeasonEnds(http, year, season)
    ensures FirstStop(http, year, season) == 1
    ensures SeasonRecords(http, year, season) == []
  {
    FirstStopUnique(http, year, season, 1, FirstStop(http, year, season));
  }

  /** A season with one full page before an empty or failed one contributes that page. */
  lemma StopAtSecondPage(http: Http, year: int, season: Season)
    requires !Stops(http, year, season, 1) && Stops(http, year, season, 2)
    ensures SeasonEnds(http, year, season)
    ensures SeasonRecords(http, year, season) == PageOf(http, year, season, 1)
  {
    assert IsFirstStop(http, year, season, 2);
    FirstStopUnique(http, year, season, 2, FirstStop(http, year, season));
  }

  /** Paging ends in every season of the scenario year. */
  lemma ScenarioEnds()
    ensures YearEnds(ScenarioHttp(), 2020)
  {
    var http := ScenarioHttp();
    forall s ensures SeasonEnds(http, 2020, s) {
      assert RequestWindow(2).offset == 100;
      assert Stops(http, 2020, s, 2);
    }
  }

  lemma ScenarioWinter()
    ensures SeasonEnds(ScenarioHttp(), 2020, Winter)
    ensures SeasonRecords(ScenarioHttp(), 2020, Winter) ==
      [AnimeRecord("Alpha", 2020, "manga", Winter), AnimeRecord("Beta", 2020, "unknown", Winter)]
  {
    var http := ScenarioHttp();
    var page := [Entry("Alpha", Some("manga")), Entry("Beta", None)];
    assert RequestWindow(1).offset == 0 && RequestWindow(2).offset == 100;
    assert GetSeasonalAnime(http, 2020, Winter, 1) == Some(Body(page));
    StopAtSecondPage(http, 2020, Winter);
    assert PageOf(http, 2020, Winter, 1) == PageRecords(page, 2020, Winter);
  }

  lemma ScenarioSpring()
    ensures SeasonEnds(ScenarioHttp(), 2020, Spring)
    ensures SeasonRecords(ScenarioHttp(), 2020, Spring) == [AnimeRecord("Gamma", 2020, "light_novel", Spring)]
  {
    var http := ScenarioHttp();
    var page := [Entry("Gamma", Some("light_novel"))];
    assert RequestWindow(1).offset == 0 && RequestWindow(2).offset == 100;
    assert GetSeasonalAnime(http, 2020, Spring, 1) == Some(Body(page));
    StopAtSecondPage(http, 2020, Spring);
    assert PageOf(http, 2020, Spring, 1) == PageRecords(page, 2020, Spring);
  }

  /** Every summer request fails with status 500, so summer contributes nothing. */
  lemma ScenarioSummer()
    ensures SeasonEnds(ScenarioHttp(), 2020, Summer)
    ensures SeasonRecords(ScenarioHttp(), 2020, Summer) == []
  {
    assert ScenarioHttp()(2020, Summer, RequestWindow(1)).status == 500;
    StopAtFirstPage(ScenarioHttp(), 2020, Summer);
  }

  lemma ScenarioFall()
    ensures SeasonEnds(ScenarioHttp(), 2020, Fall)
    ensures SeasonRecords(ScenarioHttp(), 2020, Fall) == []
  {
    assert ScenarioHttp()(2020, Fall, RequestWindow(1)).body.data == [];
    StopAtFirstPage(ScenarioHttp(), 2020, Fall);
  }

  /** The year's raw dataset: three records, the one without a source marked unknown. */
  lemma ScenarioYear()
    ensures YearEnds(ScenarioHttp(), 2020)
    ensures YearRecords(ScenarioHttp(), 2020) == ScenarioRecords()
  {
    ScenarioWinter();
    ScenarioSpring();
    ScenarioSummer();
    ScenarioFall();
    ScenarioEnds();
    YearRecordsSeasons(ScenarioHttp(), 2020);
    var w := SeasonRecords(ScenarioHttp(), 2020, Winter);
    var sp := SeasonRecords(ScenarioHttp(), 2020, Spring);
    assert w + sp == ScenarioRecords();
  }

  function ScenarioRecords(): seq<AnimeRecord> {
    [AnimeRecord("Alpha", 2020, "manga", Winter),
     AnimeRecord("Beta", 2020, "unknown", Winter),
     AnimeRecord("Gamma", 2020, "light_novel", Spring)]
  }

  /** The light-novel aggregate of that dataset: one row, 1 light novel out of 3 records. */
  lemma ScenarioCounts()
    ensures LightNovelYears(ScenarioRecords()) == [2020]
    ensures CountLightNovel(ScenarioRecords(), 2020) == 1
    ensures CountYear(ScenarioRecords(), 2020) == 3
  {
    var rs := ScenarioRecords();
    var r0, r1, r2 := rs[0], rs[1], rs[2];
    assert [r0][..0] == [];
    assert [r0, r1][..1] == [r0];
    assert rs[..2] == [r0, r1];
    assert LightNovelYears([r0]) == [] && CountLightNovel([r0], 2020) == 0 && CountYear([r0], 2020) == 1;
    assert LightNovelYears([r0, r1]) == [] && CountLightNovel([r0, r1], 2020) == 0 && CountYear([r0, r1], 2020) == 2;
  }
}
