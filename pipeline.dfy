/**
 * One pass of the whole script, app.py top to bottom: load, clean, summarise,
 * and show the explorer for the given widget values. The file, the date
 * parser and the widget values are inputs; rendering is not modelled.
 */
module Pipeline {
  import opened Wrappers
  import opened Counting
  import opened Cleaning
  import opened Aggregates
  import opened Explorer

  /** Why a pass ends without the explorer. */
  datatype RunError =
    /** app.py:13-20: metadata.csv is absent; the table is never bound. */
    | FileNotFound
    /**
     * Cleaning left no rows. The script then stops at app.py:59, where the
     * word cloud rejects the empty title corpus, before it reaches the
     * minimum year at app.py:80. Both are the same outcome here: no explorer.
     */
    | NoRows

  /** Everything one pass computes for display. */
  datatype Dashboard = Dashboard(
    yearCounts: seq<(int, nat)>,
    topJournals: seq<(string, nat)>,
    titleCorpus: string,
    topSources: seq<(string, nat)>,
    minYear: int,
    maxYear: int,
    yearPreview: seq<Row>,
    journalOptions: seq<string>,
    journalPreview: seq<Row>)

  /**
   * One pass. `loaded` is the CSV file's rows, missing when the file is
   * absent; `lo` and `hi` are the slider's values; `selected` is the
   * selector's value.
   */
  function Run(loaded: Option<seq<RawPaper>>, parse: string -> Option<Date>,
               lo: int, hi: int, selected: Option<string>): (r: Result<Dashboard, RunError>)
    ensures r == Failure(FileNotFound) <==> loaded.None?
    ensures r == Failure(NoRows) <==> loaded.Some? && Clean(parse, loaded.value) == []
    ensures r.Success? ==>
      var t := Clean(parse, loaded.value);
      && YearBounds(t) == Some((r.value.minYear, r.value.maxYear))
      && r.value.yearCounts == YearCounts(t)
      && r.value.topJournals == TopJournals(t) && r.value.topSources == TopSources(t)
      && r.value.titleCorpus == TitleCorpus(t) && r.value.journalOptions == JournalOptions(t)
      && r.value.yearPreview == YearPreview(t, lo, hi)
      && r.value.journalPreview == JournalPreview(t, lo, hi, selected)
      && r.value.minYear <= r.value.maxYear
      && (forall x :: x in t ==> r.value.minYear <= x.year <= r.value.maxYear)
      && SumCounts(r.value.yearCounts) == |t|
      && |r.value.topJournals| <= 10 && |r.value.topSources| <= 10
      && (forall x :: x in r.value.yearPreview ==> x in t && lo <= x.year <= hi)
      && (forall x :: x in r.value.journalPreview ==> x in r.value.yearPreview || |r.value.yearPreview| == 20)
  {
    match loaded
    case None => Failure(FileNotFound)
    case Some(raw) =>
      var t := Clean(parse, raw);
      match YearBounds(t)
      case None => Failure(NoRows)
      case Some((minYear, maxYear)) =>
        YearCountsSpec(t);
        JournalPreviewWithinYearPreview(t, lo, hi, selected);
        Success(Dashboard(YearCounts(t), TopJournals(t), TitleCorpus(t), TopSources(t),
                          minYear, maxYear, YearPreview(t, lo, hi),
                          JournalOptions(t), JournalPreview(t, lo, hi, selected)))
  }

  /**
   * The journal view shows rows of the year view: when the year view is not
   * cut at twenty rows, every row of the journal view is in it.
   */
  lemma JournalPreviewWithinYearPreview(t: seq<Row>, lo: int, hi: int, selected: Option<string>)
    ensures forall x :: x in JournalPreview(t, lo, hi, selected) ==>
      x in YearPreview(t, lo, hi) || |YearPreview(t, lo, hi)| == 20
  {
    forall x | x in JournalPreview(t, lo, hi, selected)
      ensures x in YearPreview(t, lo, hi) || |YearPreview(t, lo, hi)| == 20
    {
      var p := JournalPreview(t, lo, hi, selected);
      var i :| 0 <= i < |p| && p[i] == x;
      assert x in JournalFilter(YearFilter(t, lo, hi), selected);
    }
  }

  /** A table of four papers published in 2019, 2020, 2020 and 2021. */
  function ScenarioTable(): seq<Row> {
    [ Row(None, None, None, None, None, Date(2019, 5, 1), 2019, 0),
      Row(None, None, None, None, None, Date(2020, 3, 2), 2020, 0),
      Row(None, None, None, None, None, Date(2020, 7, 9), 2020, 0),
      Row(None, None, None, None, None, Date(2021, 1, 4), 2021, 0) ]
  }

  lemma ScenarioYearColumn()
    ensures Years(ScenarioTable()) == [2019, 2020, 2020, 2021]
  {
  }

  lemma ScenarioDistinct()
    ensures Distinct([2019, 2020, 2020, 2021]) == [2019, 2020, 2021]
  {
    var ys := [2019, 2020, 2020, 2021];
    var d1, d2, d3 := [2019], [2019, 2020], [2019, 2020, 2020];
    assert d1[..0] == [] && d2[..1] == d1 && d3[..2] == d2 && ys[..3] == d3;
    assert Distinct(d1) == [2019];
    assert Distinct(d2) == [2019, 2020];
    assert Distinct(d3) == [2019, 2020];
  }

  lemma ScenarioCounts()
    ensures Tally([2019, 2020, 2020, 2021], [2019, 2020, 2021]) == [(2019, 1), (2020, 2), (2021, 1)]
  {
    var ys := [2019, 2020, 2020, 2021];
    assert ys[1..] == [2020, 2020, 2021] && ys[1..][1..] == [2020, 2021];
    assert ys[1..][1..][1..] == [2021] && ys[1..][1..][1..][1..] == [];
    assert Count(ys[1..][1..][1..], 2021) == 1;
    assert Count(ys[1..][1..], 2021) == 1 && Count(ys[1..], 2021) == 1;
    assert Count(ys, 2019) == 1 && Count(ys, 2020) == 2 && Count(ys, 2021) == 1;
  }

  lemma ScenarioSort()
    ensures SortByRank([(2019, 1), (2020, 2), (2021, 1)], ByKey) == [(2019, 1), (2020, 2), (2021, 1)]
  {
    var h: seq<(int, nat)> := [(2019, 1), (2020, 2), (2021, 1)];
    assert h[1..] == [(2020, 2), (2021, 1)] && h[1..][1..] == [(2021, 1)];
    assert |h[1..][1..][1..]| == 0;
    assert SortByRank(h[1..][1..], ByKey) == [(2021, 1)];
    assert SortByRank(h[1..], ByKey) == [(2020, 2), (2021, 1)];
  }

  lemma ScenarioFilter()
    ensures |YearFilter(ScenarioTable(), 2020, 2021)| == 3
  {
    var t := ScenarioTable();
    assert t[1..] == [t[1], t[2], t[3]] && t[1..][1..] == [t[2], t[3]] && t[1..][1..][1..] == [t[3]];
  }

  /**
   * On that table the year histogram is 2019:1, 2020:2, 2021:1, and the
   * slider's default range 2020-2021 keeps three rows.
   */
  lemma ScenarioYears()
    ensures YearCounts(ScenarioTable()) == [(2019, 1), (2020, 2), (2021, 1)]
    ensures |YearFilter(ScenarioTable(), 2020, 2021)| == 3
  {
    ScenarioYearColumn();
    ScenarioDistinct();
    ScenarioCounts();
    ScenarioSort();
    ScenarioFilter();
  }

  /**
   * A paper titled "Covid Study" without an abstract, whose publish_time
   * parses, is kept with a word count of 0, and the corpus is its title.
   */
  lemma ScenarioCovidStudy(parse: string -> Option<Date>, time: string, d: Date)
    requires parse(time) == Some(d)
    ensures var p := Paper(Some("Covid Study"), None, None, None, None, Some(time));
      && Clean(parse, [p]) == [Row(Some("Covid Study"), None, None, None, None, d, d.year, 0)]
      && TitleCorpus(Clean(parse, [p])) == "Covid Study"
  {
    var p := Paper(Some("Covid Study"), None, None, None, None, Some(time));
    CleanSingle(parse, p);
    var t := Clean(parse, [p]);
    assert Titles(t) == [Some("Covid Study")];
    assert Titles(t)[1..] == [];
  }
}
