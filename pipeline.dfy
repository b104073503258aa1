/**
 * The collection script's driver: collect every configured year, then aggregate the
 * light-novel counts of the raw dataset.
 */
module Pipeline {
  import opened Catalog
  import opened Collector
  import opened LightNovel

  /** Collects the raw dataset for START_YEAR..STOP_YEAR and builds the light-novel rows from it. */
  method CollectAndAggregate(http: Http) returns (records: seq<AnimeRecord>, rows: seq<Row>)
    requires YearsEnd(http, START_YEAR, STOP_YEAR + 1)
    ensures records == YearsRecords(http, START_YEAR, STOP_YEAR + 1)
    ensures forall r :: r in records ==> START_YEAR <= r.year <= STOP_YEAR
    ensures |rows| == |LightNovelYears(records)|
    ensures forall i :: 0 <= i < |rows| ==>
      rows[i] == Row(LightNovelYears(records)[i], CountLightNovel(records, rows[i].year), CountYear(records, rows[i].year))
    ensures forall i :: 0 <= i < |rows| ==>
      START_YEAR <= rows[i].year <= STOP_YEAR && 1 <= rows[i].lightNovelCount <= rows[i].totalAnimeCount
  {
    records := CollectYears(http);
    YearsRecordsInRange(http, START_YEAR, STOP_YEAR + 1);
    rows := CountLightNovelSources(records);
    forall i | 0 <= i < |rows|
      ensures START_YEAR <= rows[i].year <= STOP_YEAR
    {
      assert HasRow(rows, rows[i].year);
      var k :| 0 <= k < |records| && records[k].year == rows[i].year && IsLightNovel(records[k]);
      assert records[k] in records;
    }
  }
}
