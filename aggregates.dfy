/**
 * The read-only summaries of the cleaned table (app.py lines 40, 49, 58, 67,
 * 80-81 and 89): the year histogram, the two top-ten lists, the title
 * corpus, the year bounds and the journal selector's options.
 */
module Aggregates {
  import opened Wrappers
  import opened Counting
  import Words
  import opened Cleaning

  /** The `year` column. */
  function Years(t: seq<Row>): (c: seq<int>)
    ensures |c| == |t| && forall i :: 0 <= i < |t| ==> c[i] == t[i].year
  {
    seq(|t|, i requires 0 <= i < |t| => t[i].year)
  }

  /** The `journal` column. */
  function Journals(t: seq<Row>): (c: seq<Option<string>>)
    ensures |c| == |t| && forall i :: 0 <= i < |t| ==> c[i] == t[i].journal
  {
    seq(|t|, i requires 0 <= i < |t| => t[i].journal)
  }

  /** The `source_x` column. */
  function Sources(t: seq<Row>): (c: seq<Option<string>>)
    ensures |c| == |t| && forall i :: 0 <= i < |t| ==> c[i] == t[i].source
  {
    seq(|t|, i requires 0 <= i < |t| => t[i].source)
  }

  /** The `title` column. */
  function Titles(t: seq<Row>): (c: seq<Option<string>>)
    ensures |c| == |t| && forall i :: 0 <= i < |t| ==> c[i] == t[i].title
  {
    seq(|t|, i requires 0 <= i < |t| => t[i].title)
  }

  /** Orders a histogram by ascending key (`sort_index`). */
  function ByKey(e: (int, nat)): int {
    e.0
  }

  /** Orders value counts by descending count (`value_counts`). */
  function ByCountDescending(e: (string, nat)): int {
    -(e.1 as int)
  }

  /** app.py:40, `df['year'].value_counts().sort_index()`. */
  function YearCounts(t: seq<Row>): seq<(int, nat)> {
    SortedTally(Years(t), ByKey)
  }

  /**
   * The year histogram lists each year that occurs exactly once, in strictly
   * ascending order, with the number of rows of that year (at least one), and
   * its counts add up to the number of rows.
   */
  lemma YearCountsSpec(t: seq<Row>)
    ensures var h := YearCounts(t);
      && (forall i, j :: 0 <= i < j < |h| ==> h[i].0 < h[j].0)
      && (forall i :: 0 <= i < |h| ==> h[i].1 == Count(Years(t), h[i].0) >= 1)
      && (forall y :: y in Keys(h) <==> exists r :: r in t && r.year == y)
      && SumCounts(h) == |t|
  {
    var h := YearCounts(t);
    SortedTallySpec(Years(t), ByKey);
    forall i, j | 0 <= i < j < |h| ensures h[i].0 < h[j].0 {
      assert ByKey(h[i]) <= ByKey(h[j]);
    }
    forall y ensures y in Keys(h) <==> exists r :: r in t && r.year == y {
      if y in Years(t) {
        var i :| 0 <= i < |t| && Years(t)[i] == y;
        assert t[i] in t;
      }
    }
  }

  /** value_counts of a column, most frequent first; missing cells are not counted. */
  function ValueCounts(col: seq<Option<string>>): seq<(string, nat)> {
    SortedTally(Present(col), ByCountDescending)
  }

  /** `.value_counts().head(10)` of a column. */
  function TopTen(col: seq<Option<string>>): seq<(string, nat)> {
    Head(ValueCounts(col), 10)
  }

  /**
   * value_counts lists every present value once, most frequent first, each
   * with the number of cells holding it.
   */
  lemma ValueCountsSpec(col: seq<Option<string>>)
    ensures var vc := ValueCounts(col);
      && KeysDistinct(vc)
      && (forall i, j :: 0 <= i < j < |vc| ==> vc[i].1 >= vc[j].1)
      && (forall i :: 0 <= i < |vc| ==> vc[i].1 == Count(col, Some(vc[i].0)) >= 1)
      && (forall v :: v in Keys(vc) <==> Some(v) in col)
  {
    var vc := ValueCounts(col);
    SortedTallySpec(Present(col), ByCountDescending);
    forall i, j | 0 <= i < j < |vc| ensures vc[i].1 >= vc[j].1 {
      assert ByCountDescending(vc[i]) <= ByCountDescending(vc[j]);
    }
    forall i | 0 <= i < |vc| ensures vc[i].1 == Count(col, Some(vc[i].0)) >= 1 {
      CountPresent(col, vc[i].0);
    }
  }

  /**
   * A top-ten list has at most ten entries, no value twice, counts that do not
   * increase, each count the number of cells holding that value (at least one),
   * and only values that occur.
   */
  lemma TopTenEntries(col: seq<Option<string>>)
    ensures var top := TopTen(col);
      && |top| <= 10
      && KeysDistinct(top)
      && (forall i, j :: 0 <= i < j < |top| ==> top[i].1 >= top[j].1)
      && (forall i :: 0 <= i < |top| ==> top[i].1 == Count(col, Some(top[i].0)) >= 1)
      && (forall v :: v in Keys(top) ==> Some(v) in col)
  {
    var vc := ValueCounts(col);
    var top := TopTen(col);
    ValueCountsSpec(col);
    assert forall i :: 0 <= i < |top| ==> top[i] == vc[i] by {
      assert top == vc[..|top|];
    }
    forall v | v in Keys(top) ensures Some(v) in col {
      var i :| 0 <= i < |top| && Keys(top)[i] == v;
      assert Keys(vc)[i] == v;
    }
  }

  /**
   * A value that occurs but is not in the top-ten list is left out only when
   * ten values are listed, and is at most as frequent as each of them.
   */
  lemma TopTenLeavesOutOnlyLessFrequent(col: seq<Option<string>>, v: string)
    requires Some(v) in col && v !in Keys(TopTen(col))
    ensures |TopTen(col)| == 10
    ensures forall i :: 0 <= i < 10 ==> Count(col, Some(v)) <= TopTen(col)[i].1
  {
    var vc := ValueCounts(col);
    var top := TopTen(col);
    ValueCountsSpec(col);
    assert forall i :: 0 <= i < |top| ==> top[i] == vc[i] by {
      assert top == vc[..|top|];
    }
    assert v in Keys(vc);
    var k :| 0 <= k < |vc| && Keys(vc)[k] == v;
    assert k >= |top| by {
      assert forall i :: 0 <= i < |top| ==> Keys(top)[i] == Keys(vc)[i];
    }
  }

  /** Both halves of the top-ten contract. */
  lemma TopTenSpec(col: seq<Option<string>>)
    ensures var top := TopTen(col);
      && |top| <= 10
      && KeysDistinct(top)
      && (forall i, j :: 0 <= i < j < |top| ==> top[i].1 >= top[j].1)
      && (forall i :: 0 <= i < |top| ==> top[i].1 == Count(col, Some(top[i].0)) >= 1)
      && (forall v :: v in Keys(top) ==> Some(v) in col)
      && (forall v :: Some(v) in col && v !in Keys(top) ==>
            |top| == 10 && forall i :: 0 <= i < |top| ==> Count(col, Some(v)) <= top[i].1)
  {
    TopTenEntries(col);
    forall v | Some(v) in col && v !in Keys(TopTen(col))
      ensures |TopTen(col)| == 10
      ensures forall i :: 0 <= i < |TopTen(col)| ==> Count(col, Some(v)) <= TopTen(col)[i].1
    {
      TopTenLeavesOutOnlyLessFrequent(col, v);
    }
  }

  /** app.py:49, `df['journal'].value_counts().head(10)`. */
  function TopJournals(t: seq<Row>): (top: seq<(string, nat)>)
    ensures |top| <= 10
    ensures KeysDistinct(top)
    ensures forall i, j :: 0 <= i < j < |top| ==> top[i].1 >= top[j].1
    ensures forall i :: 0 <= i < |top| ==> top[i].1 == Count(Journals(t), Some(top[i].0)) >= 1
    ensures forall v :: Some(v) in Journals(t) && v !in Keys(top) ==>
      |top| == 10 && forall i :: 0 <= i < |top| ==> Count(Journals(t), Some(v)) <= top[i].1
  {
    TopTenSpec(Journals(t));
    TopTen(Journals(t))
  }

  /** app.py:67, `df['source_x'].value_counts().head(10)`. */
  function TopSources(t: seq<Row>): (top: seq<(string, nat)>)
    ensures |top| <= 10
    ensures KeysDistinct(top)
    ensures forall i, j :: 0 <= i < j < |top| ==> top[i].1 >= top[j].1
    ensures forall i :: 0 <= i < |top| ==> top[i].1 == Count(Sources(t), Some(top[i].0)) >= 1
    ensures forall v :: Some(v) in Sources(t) && v !in Keys(top) ==>
      |top| == 10 && forall i :: 0 <= i < |top| ==> Count(Sources(t), Some(v)) <= top[i].1
  {
    TopTenSpec(Sources(t));
    TopTen(Sources(t))
  }

  /** app.py:58, `" ".join(title for title in df['title'].dropna())`. */
  function TitleCorpus(t: seq<Row>): string {
    Words.Join(Present(Titles(t)))
  }

  /**
   * The corpus grows row by row: a row without a title adds nothing, the
   * first title is the corpus, and each later title is added after a single
   * space. With no titles the corpus is empty.
   */
  lemma TitleCorpusSnoc(t: seq<Row>, r: Row)
    ensures TitleCorpus(t + [r]) ==
      match r.title
      case None => TitleCorpus(t)
      case Some(title) => if Present(Titles(t)) == [] then title else TitleCorpus(t) + " " + title
    ensures Present(Titles(t)) == [] ==> TitleCorpus(t) == ""
  {
    assert Titles(t + [r]) == Titles(t) + [r.title];
    PresentAppend(Titles(t), [r.title]);
    match r.title
    case None =>
      assert Present([r.title]) == [];
      assert Present(Titles(t)) + [] == Present(Titles(t));
    case Some(title) =>
      assert Present([r.title]) == [title];
      Words.JoinSnoc(Present(Titles(t)), title);
  }

  /** Every present title occurs in the corpus as a contiguous piece of text. */
  lemma TitleCorpusContains(t: seq<Row>, r: Row)
    requires r in t && r.title.Some?
    ensures exists i :: Words.OccursAt(r.title.value, TitleCorpus(t), i)
  {
    var titles := Present(Titles(t));
    var k :| 0 <= k < |t| && t[k] == r;
    assert Titles(t)[k] == r.title;
    assert r.title.value in titles;
    var j :| 0 <= j < |titles| && titles[j] == r.title.value;
    Words.JoinContains(titles, j);
    assert Words.OccursAt(r.title.value, TitleCorpus(t), Words.JoinOffset(titles, j));
  }

  /** app.py:80-81, `int(df['year'].min())` and `int(df['year'].max())`; missing on an empty table. */
  function YearBounds(t: seq<Row>): (b: Option<(int, int)>)
    ensures b.Some? <==> t != []
    ensures b.Some? ==> forall r :: r in t ==> b.value.0 <= r.year <= b.value.1
    ensures b.Some? ==> (exists r :: r in t && r.year == b.value.0) && (exists r :: r in t && r.year == b.value.1)
  {
    if t == [] then None
    else
      assert forall r :: r in t[1..] ==> r in t;
      match YearBounds(t[1..])
      case None => Some((t[0].year, t[0].year))
      case Some((lo, hi)) =>
        Some((if t[0].year < lo then t[0].year else lo, if t[0].year > hi then t[0].year else hi))
  }

  /** app.py:89, `df['journal'].dropna().unique()`: the journal selector's options. */
  function JournalOptions(t: seq<Row>): seq<string> {
    Distinct(Present(Journals(t)))
  }

  /**
   * The journal options are the distinct journals that occur, none missing,
   * each listed once, in order of first appearance.
   */
  lemma JournalOptionsSpec(t: seq<Row>)
    ensures var opts := JournalOptions(t);
      && NoDupes(opts)
      && (forall j :: j in opts <==> exists r :: r in t && r.journal == Some(j))
      && (forall a, b :: 0 <= a < b < |opts| ==>
            FirstIndex(Present(Journals(t)), opts[a]) < FirstIndex(Present(Journals(t)), opts[b]))
  {
    DistinctInFirstAppearanceOrder(Present(Journals(t)));
    forall j ensures j in JournalOptions(t) <==> exists r :: r in t && r.journal == Some(j) {
      if Some(j) in Journals(t) {
        var i :| 0 <= i < |t| && Journals(t)[i] == Some(j);
        assert t[i] in t;
      }
    }
  }
}
