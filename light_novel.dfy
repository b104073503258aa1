/**
 * The light-novel aggregate: per year, how many records adapt a light novel and how many
 * records there are in all (records of unknown source included).
 */
module LightNovel {
  import opened Collector

  const LIGHT_NOVEL: string := "light_novel"

  /** One aggregate row. */
  datatype Row = Row(year: int, lightNovelCount: nat, totalAnimeCount: nat)

  predicate IsLightNovel(r: AnimeRecord) {
    r.source == LIGHT_NOVEL
  }

  /** Some record of `year` in `rs` adapts a light novel. */
  predicate HasLightNovel(rs: seq<AnimeRecord>, year: int) {
    exists k :: 0 <= k < |rs| && rs[k].year == year && IsLightNovel(rs[k])
  }

  /** Some row is about `year`. */
  predicate HasRow(rows: seq<Row>, year: int) {
    exists i :: 0 <= i < |rows| && rows[i].year == year
  }

  /** Reading a counting dictionary: a year never counted reads as zero. */
  function Get(counts: map<int, nat>, year: int): nat {
    if year in counts then counts[year] else 0
  }

  /** The number of light-novel records of `year` in `rs`. */
  function CountLightNovel(rs: seq<AnimeRecord>, year: int): nat {
    if rs == [] then 0
    else
      var last := rs[|rs| - 1];
      CountLightNovel(rs[..|rs| - 1], year) + (if last.year == year && IsLightNovel(last) then 1 else 0)
  }

  /** The number of records of `year` in `rs`, whatever their source. */
  function CountYear(rs: seq<AnimeRecord>, year: int): nat {
    if rs == [] then 0
    else
      var last := rs[|rs| - 1];
      CountYear(rs[..|rs| - 1], year) + (if last.year == year then 1 else 0)
  }

  /** The years that have a light-novel record, in the order their first one appears. */
  function LightNovelYears(rs: seq<AnimeRecord>): seq<int> {
    if rs == [] then []
    else
      var years := LightNovelYears(rs[..|rs| - 1]);
      var last := rs[|rs| - 1];
      if IsLightNovel(last) && last.year !in years then years + [last.year] else years
  }

  /**
   * One pass over the records fills the two counting dictionaries; then one row is emitted
   * per key of the light-novel dictionary, in the order the keys were inserted.
   */
  method CountLightNovelSources(rs: seq<AnimeRecord>) returns (rows: seq<Row>)
    ensures |rows| == |LightNovelYears(rs)|
    ensures forall i :: 0 <= i < |rows| ==>
      rows[i] == Row(LightNovelYears(rs)[i], CountLightNovel(rs, rows[i].year), CountYear(rs, rows[i].year))
    ensures forall y :: HasRow(rows, y) <==> HasLightNovel(rs, y)
    ensures forall i, j :: 0 <= i < j < |rows| ==> rows[i].year != rows[j].year
    ensures forall i :: 0 <= i < |rows| ==> 1 <= rows[i].lightNovelCount <= rows[i].totalAnimeCount
  {
    var sourceCounts: map<int, nat> := map[];
    var animeCounts: map<int, nat> := map[];
    var order: seq<int> := [];  // the insertion order of sourceCounts' keys
    for n := 0 to |rs|
      invariant order == LightNovelYears(rs[..n])
      invariant forall y :: y in sourceCounts <==> y in order
      invariant forall y :: Get(sourceCounts, y) == CountLightNovel(rs[..n], y)
      invariant forall y :: Get(animeCounts, y) == CountYear(rs[..n], y)
    {
      assert rs[..n + 1][..n] == rs[..n];
      var anime := rs[n];
      if anime.source == LIGHT_NOVEL {
        if anime.year !in sourceCounts {
          order := order + [anime.year];
        }
        sourceCounts := sourceCounts[anime.year := Get(sourceCounts, anime.year) + 1];
      }
      animeCounts := animeCounts[anime.year := Get(animeCounts, anime.year) + 1];
    }
    assert rs[..|rs|] == rs;
    rows := seq(|order|, i requires 0 <= i < |order| =>
      Row(order[i], Get(sourceCounts, order[i]), Get(animeCounts, order[i])));

    LightNovelYearsDistinct(rs);
    forall y ensures HasRow(rows, y) <==> HasLightNovel(rs, y)
    {
      LightNovelYearsMembers(rs, y);
      CountLightNovelPositive(rs, y);
      if y in order {
        var i :| 0 <= i < |order| && order[i] == y;
        assert rows[i].year == y;
      }
    }
    forall i | 0 <= i < |rows|
      ensures 1 <= rows[i].lightNovelCount <= rows[i].totalAnimeCount
    {
      LightNovelYearsMembers(rs, order[i]);
      LightNovelAtMostTotal(rs, order[i]);
    }
  }

  // Properties of the specification

  /** A light-novel record of the year exists exactly when the count is positive. */
  lemma {:induction false} CountLightNovelPositive(rs: seq<AnimeRecord>, year: int)
    ensures CountLightNovel(rs, year) > 0 <==> HasLightNovel(rs, year)
  {
    if rs != [] {
      var front := rs[..|rs| - 1];
      CountLightNovelPositive(front, year);
      if exists k :: 0 <= k < |front| && front[k].year == year && IsLightNovel(front[k]) {
        var k :| 0 <= k < |front| && front[k].year == year && IsLightNovel(front[k]);
        assert rs[k] == front[k];
      }
      if exists k :: 0 <= k < |rs| && rs[k].year == year && IsLightNovel(rs[k]) {
        var k :| 0 <= k < |rs| && rs[k].year == year && IsLightNovel(rs[k]);
        if k < |front| {
          assert front[k] == rs[k];
        }
      }
    }
  }

  /** A year is listed exactly when it has at least one light-novel record. */
  lemma {:induction false} LightNovelYearsMembers(rs: seq<AnimeRecord>, year: int)
    ensures year in LightNovelYears(rs) <==> CountLightNovel(rs, year) > 0
  {
    if rs != [] {
      LightNovelYearsMembers(rs[..|rs| - 1], year);
    }
  }

  /**
   * The listing is in first-seen order: the years listed for any prefix of the records
   * come first, in the same order, in the listing for all of them.
   */
  lemma {:induction false} LightNovelYearsPrefix(rs: seq<AnimeRecord>, n: nat)
    requires n <= |rs|
    ensures LightNovelYears(rs[..n]) <= LightNovelYears(rs)
  {
    if n < |rs| {
      var front := rs[..|rs| - 1];
      assert front[..n] == rs[..n];
      LightNovelYearsPrefix(front, n);
    } else {
      assert rs[..n] == rs;
    }
  }

  /** No year is listed twice. */
  lemma {:induction false} LightNovelYearsDistinct(rs: seq<AnimeRecord>)
    ensures forall i, j :: 0 <= i < j < |LightNovelYears(rs)| ==> LightNovelYears(rs)[i] != LightNovelYears(rs)[j]
  {
    if rs != [] {
      LightNovelYearsDistinct(rs[..|rs| - 1]);
    }
  }

  /** A year's light-novel records are among its records. */
  lemma {:induction false} LightNovelAtMostTotal(rs: seq<AnimeRecord>, year: int)
    ensures CountLightNovel(rs, year) <= CountYear(rs, year)
  {
    if rs != [] {
      LightNovelAtMostTotal(rs[..|rs| - 1], year);
    }
  }
}
