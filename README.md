# mal-anime-study collection core, in Dafny

This project models the collection and aggregation logic of the `mal-anime-study` scripts.
It covers the collecting half of `pulldata.py`:

- **Catalog client** (`catalog.dfy`, module `Catalog`). The seasonal listing is a deterministic function `Http` from (year, season, query window) to a response with a status code and a decoded body. `get_seasonal_anime` becomes `GetSeasonalAnime`: it computes the window (`limit` = 100, `offset` = (page − 1) · 100) and passes the body on only when the status is 200. `StopsOn` is the single test that ends paging. Both `Stops` and the paging loop use it. It fires on a failed request or an empty `data` list, and the two are not told apart.
- **Collector** (`collector.dfy`, module `Collector`).
  - `CollectSeason` is the `while True` paging loop of one season.
  - `AppendPage` is its inner loop over a page's entries.
  - `GetAnime` is the loop over the four seasons in the order winter, spring, summer, fall.
  - `CollectYears` is the year loop of `main`, which runs from 1990 to 2022 inclusive.

  Each method is proved against ghost specification functions: `PageRange`, `SeasonRecords`, `YearRecords` and `YearsRecords`. Lemmas then state what the source promises about those functions.
- **Light-novel aggregate** (`light_novel.dfy`, module `LightNovel`). `CountLightNovelSources` makes one pass that fills two counting dictionaries: light-novel records per year, and all records per year. It then emits one row per key of the first dictionary. Python's dictionary insertion order is kept as an explicit `order` sequence beside the map. A `defaultdict` read of a missing key is `Get`, which gives 0. The specification is `CountLightNovel`, `CountYear` and `LightNovelYears`, the last listing years in first-seen order.
- **Driver** (`pipeline.dfy`, module `Pipeline`). `CollectAndAggregate` runs the year loop and then the aggregate, as `main` does.
- **Worked instance** (`scenarios.dfy`, module `Scenarios`). It covers one year:
  - winter has one page with two entries, one of them without a source;
  - spring has one page with one light-novel entry;
  - every summer request fails with status 500;
  - fall's first page is empty.

  The lemmas show the resulting three records and the single row (2020, 1, 3).

The network call is a parameter. A `while True` loop ends only when some page fails or comes back empty, so the collecting methods require this of every season they page through (`SeasonEnds`, `YearEnds`, `YearsEnd`). `FirstStopExists` turns that into a first such page.

## Model

| member | source | states |
|---|---|---|
| Catalog.RequestWindow | pulldata.py:47-49 | every request asks for 100 entries; its offset is a multiple of 100 that counts the pages before it, (page − 1); the offset is non-negative exactly for pages from 1 on |
| Catalog.WindowsAdjacent | pulldata.py:47-50 | page 1 asks for positions from 0, every page asks for 100 entries, and page p+1's offset is where page p's window ends |
| Catalog.WindowsDisjoint | pulldata.py:47-50 | the windows of two different pages share no listing position |
| Catalog.WindowsCover | pulldata.py:47-50 | every listing position lies in the window of some page numbered from 1, namely position / 100 + 1 |
| Catalog.GetSeasonalAnime | pulldata.py:46-59 | a body is returned exactly when the response to the page's window has status 200, and it is that response's decoded body; any other status gives no body |
| Catalog.Stops | pulldata.py:26-28 | paging of a season ends at a page exactly when the response to that page's window has a status other than 200 or an empty `data` list |
| Collector.ToRecord | pulldata.py:31-39 | the title is copied unchanged; the year and season are the requested ones; the source is the entry's source when present and "unknown" when absent |
| Collector.PageRecords | pulldata.py:30-39 | one record per entry of the page, in entry order, each built from its entry |
| Collector.PageNumbers | pulldata.py:24-41 | the log of pages asked for is 1, 2, …, n in order |
| Collector.AppendPage | pulldata.py:30-39 | the inner loop leaves the records so far followed by the page's records, in entry order |
| Collector.FirstStopExists | pulldata.py:25-28 | if paging would stop at some page k ≥ 1, there is a first page at or before k where it stops |
| Collector.FirstStopUnique | pulldata.py:25-28 | the first stopping page of a season is unique |
| Collector.FirstStop | pulldata.py:25-28 | the page where a season's paging stops: it fails or is empty, and every page before it succeeded with data |
| Collector.SeasonRecordsAtStop | pulldata.py:24-41 | once page k is known to be the first stop, the season's records are exactly those of pages 1..k−1 |
| Collector.CollectSeason | pulldata.py:24-43 | pages are requested as 1, 2, …, k with no gaps (the returned log); k is the first page that fails or is empty, and no page after it is requested; the season yields exactly pages 1..k−1 concatenated, in page order and then entry order |
| Collector.GetAnime | pulldata.py:21-44 | one year's records are the contributions of winter, spring, summer and fall, concatenated in that order |
| Collector.CollectYears | pulldata.py:75-78 | the collected dataset is the concatenation of every year's records for 1990..2022 in increasing order |
| Collector.PageRangeTagged | pulldata.py:34-39 | every record from the pages of a (year, season) carries that year and that season |
| Collector.PageRangeLength | pulldata.py:27-39 | a run of pages yields exactly as many records as its successful pages hold entries |
| Collector.SeasonRecordsLength | pulldata.py:24-41 | a season yields as many records as there are entries on its pages before the stop page |
| Collector.YearRecordsLength | pulldata.py:21-44 | a year yields as many records as its four seasons' pages before their stops hold entries |
| Collector.SeasonRecordsTagged | pulldata.py:34-39 | each of a season's records has the requested year and that season |
| Collector.SeasonsPrefixOrdered | pulldata.py:23-39 | after the first n seasons, every record has the year and one of those seasons, and the records are in season order |
| Collector.YearRecordsSeasons | pulldata.py:21-44 | a year's records are winter's, then spring's, then summer's, then fall's, concatenated |
| Collector.YearRecordsShape | pulldata.py:21-44 | every record of a year carries that year, and the records are ordered by season (winter, spring, summer, fall) with no interleaving |
| Collector.YearsRecordsInRange | pulldata.py:77-78 | every record collected for the years lo..hi−1 has its year in that range |
| LightNovel.CountLightNovelSources | pulldata.py:62-71 | one row per year with a light-novel record, in the order those years first appear; no year appears twice; each row's light-novel count is the year's number of "light_novel" records and its total is all of the year's records, "unknown" included; so 1 ≤ light-novel count ≤ total |
| LightNovel.CountLightNovelPositive | pulldata.py:67-68 | a year's light-novel count is positive exactly when some record of that year has source "light_novel" |
| LightNovel.LightNovelYearsMembers | pulldata.py:67-71 | a year is listed exactly when its light-novel count is positive |
| LightNovel.LightNovelYearsPrefix | pulldata.py:66-71 | the years listed are in first-seen order: the listing for any prefix of the records is a prefix of the listing for all of them |
| LightNovel.LightNovelYearsDistinct | pulldata.py:71 | no year is listed twice |
| LightNovel.LightNovelAtMostTotal | pulldata.py:66-69 | a year's light-novel count never exceeds its total count |
| Pipeline.CollectAndAggregate | pulldata.py:74-86 | the dataset is the year-ordered concatenation, and every record's year lies in 1990..2022; the rows are those of the aggregate, each with a year in 1990..2022 and 1 ≤ light-novel count ≤ total |
| Scenarios.StopAtFirstPage | pulldata.py:25-28 | a season whose page 1 fails or is empty stops at page 1 and contributes nothing |
| Scenarios.StopAtSecondPage | pulldata.py:25-41 | a season with data on page 1 and a stop at page 2 contributes exactly page 1's records |
| Scenarios.ScenarioWinter | pulldata.py:30-39 | in the worked instance, winter yields two records, and the one without a source gets "unknown" |
| Scenarios.ScenarioSpring | pulldata.py:30-39 | in the worked instance, spring yields its single light-novel record |
| Scenarios.ScenarioSummer | pulldata.py:55-59 | in the worked instance, a season whose requests fail with status 500 yields no records |
| Scenarios.ScenarioFall | pulldata.py:27-28 | in the worked instance, a season whose first page is empty yields no records |
| Scenarios.ScenarioEnds | pulldata.py:25-28 | paging ends in every season of the worked instance |
| Scenarios.ScenarioYear | pulldata.py:21-44 | the worked instance's year yields exactly the three records (manga, unknown, light_novel) |
| Scenarios.ScenarioCounts | pulldata.py:62-71 | the worked instance's aggregate has one row, for 2020, with 1 light-novel record out of 3 |

## Left out

- The HTTP request and JSON decoding (pulldata.py:53-56) are the `Http` parameter. Its result is a status code and an already decoded body. The URL template and the `fields` query parameter play no part.
- The body is modelled as a record that always has a `data` list. Two cases of the source are therefore not represented. An empty JSON object is falsy and would also stop paging. A body without `data` would raise a `KeyError`.
- A node whose `source` key is present but null is not represented. `Entry.source` uses `None` only for a missing key. In the source, the default "unknown" applies only when the key is absent, so such a node would keep a null source. It would count towards its year's total and never as a light novel.
- Each entry is modelled as its `node`. A node without `title` would raise a `KeyError`, and is not represented.
- The 250 ms pause after every page (pulldata.py:43) is wall-clock behaviour with no effect on the data.
- Reading the API key from the environment, the fatal error when it is missing, and the request headers (pulldata.py:8-16) are process configuration. So is the unused `ID_URL`.
- Console messages (pulldata.py:58, 79-80, 84, 91) are left out. This includes the progress report every fifth year.
- The CSV files, the pandas tables and the dropped column (pulldata.py:82-90) are left out.
- The floating-point percentage (pulldata.py:88) is left out. Only the integer bound 1 ≤ light-novel count ≤ total, which keeps it within (0, 100], is proved.
- plot.py is not part of this model. It consists of library group-by and pivot calls, a floating-point division and chart rendering.
- Collector.CollectSeason, Collector.GetAnime, Collector.CollectYears and Pipeline.CollectAndAggregate require that paging ends in every season they visit. The source loops forever when a season never returns a failed or empty page. That case has no model.
- A record's season is the `Season` datatype rather than the strings "winter", "spring", "summer" and "fall".
