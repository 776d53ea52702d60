/**
 * The paper table and the cleaning pass (app.py lines 27-35) as four stage
 * functions, each taking the previous stage's table: the two `dropna` calls
 * and the date conversion get one stage each, and the two derived columns
 * (`year` and `abstract_word_count`) share the last.
 */
module Cleaning {
  import opened Wrappers
  import Words

  /** A calendar date, as `pd.to_datetime` yields it; only its year is read. */
  datatype Date = Date(year: int, month: int, day: int)

  /**
   * One paper row. The `publishTime` cell changes type as cleaning proceeds:
   * raw text, then a parsed date or a missing one, then a date.
   * `source` is the column `source_x`.
   */
  datatype Paper<P> = Paper(
    title: Option<string>,
    authors: Option<string>,
    journal: Option<string>,
    source: Option<string>,
    abstractText: Option<string>,
    publishTime: P)

  /** The same row with its publish_time cell replaced. */
  function WithTime<P, Q>(p: Paper<P>, time: Q): Paper<Q> {
    Paper(p.title, p.authors, p.journal, p.source, p.abstractText, time)
  }

  /** A row as loaded from the CSV file. */
  type RawPaper = Paper<Option<string>>

  /** A row of the cleaned table, with the two derived columns. */
  datatype Row = Row(
    title: Option<string>,
    authors: Option<string>,
    journal: Option<string>,
    source: Option<string>,
    abstractText: Option<string>,
    publishTime: Date,
    year: int,
    abstractWordCount: nat)

  /** app.py:27, `dropna(subset=['publish_time'])` on the loaded table. */
  function DropMissingTime(t: seq<RawPaper>): (r: seq<RawPaper>)
    ensures forall p :: p in r <==> p in t && p.publishTime.Some?
    ensures |r| <= |t|
  {
    if t == [] then []
    else if t[0].publishTime.Some? then [t[0]] + DropMissingTime(t[1..])
    else DropMissingTime(t[1..])
  }

  /** The time cell of one row after `pd.to_datetime(..., errors='coerce')`. */
  function ParseTime(parse: string -> Option<Date>, p: RawPaper): Paper<Option<Date>> {
    WithTime(p, match p.publishTime case Some(s) => parse(s) case None => None)
  }

  /** app.py:30, the whole publish_time column converted; failures become missing. */
  function ParseTimes(parse: string -> Option<Date>, t: seq<RawPaper>): (r: seq<Paper<Option<Date>>>)
    ensures |r| == |t|
    ensures forall i :: 0 <= i < |t| ==> r[i] == ParseTime(parse, t[i])
  {
    if t == [] then [] else [ParseTime(parse, t[0])] + ParseTimes(parse, t[1..])
  }

  /** A parsed row seen with its (present) date as an optional cell again. */
  function Unparsed(q: Paper<Date>): Paper<Option<Date>> {
    WithTime(q, Some(q.publishTime))
  }

  /** app.py:31, the second `dropna`: rows whose date did not parse are removed. */
  function DropUnparsed(t: seq<Paper<Option<Date>>>): (r: seq<Paper<Date>>)
    ensures forall q :: q in r <==> Unparsed(q) in t
    ensures |r| <= |t|
  {
    if t == [] then []
    else match t[0].publishTime
      case Some(d) => [WithTime(t[0], d)] + DropUnparsed(t[1..])
      case None => DropUnparsed(t[1..])
  }

  /**
   * app.py:32 and app.py:35 for one row: `year` from the date, and the
   * number of white-space separated words of the abstract, a missing
   * abstract read as "".
   */
  function DeriveColumns(q: Paper<Date>): Row {
    Row(q.title, q.authors, q.journal, q.source, q.abstractText, q.publishTime,
        q.publishTime.year, Words.WordCount(q.abstractText.GetOr("")))
  }

  /** app.py:32-35, both derived columns added to every row. */
  function AddDerivedColumns(t: seq<Paper<Date>>): (r: seq<Row>)
    ensures |r| == |t|
    ensures forall i :: 0 <= i < |t| ==> r[i] == DeriveColumns(t[i])
  {
    if t == [] then [] else [DeriveColumns(t[0])] + AddDerivedColumns(t[1..])
  }

  /** The cleaning pass, app.py:27-35, stage after stage. */
  function Clean(parse: string -> Option<Date>, t: seq<RawPaper>): seq<Row> {
    AddDerivedColumns(DropUnparsed(ParseTimes(parse, DropMissingTime(t))))
  }

  /**
   * What cleaning does to one loaded row on its own: a row is kept exactly
   * when its publish_time is present and parses, and then it gets the parsed
   * date, its year and its abstract's word count.
   */
  function CleanRow(parse: string -> Option<Date>, p: RawPaper): (r: Option<Row>)
    ensures r.Some? <==> p.publishTime.Some? && parse(p.publishTime.value).Some?
  {
    match p.publishTime
    case None => None
    case Some(s) =>
      match parse(s)
      case None => None
      case Some(d) => Some(DeriveColumns(WithTime(p, d)))
  }

  /** Row-wise reference for the cleaning pass: each row cleaned alone, in order. */
  function CleanEach(parse: string -> Option<Date>, t: seq<RawPaper>): seq<Row> {
    if t == [] then []
    else (match CleanRow(parse, t[0]) case Some(r) => [r] case None => []) + CleanEach(parse, t[1..])
  }

  /** The staged pass treats the first row on its own. */
  lemma CleanFirstRow(parse: string -> Option<Date>, t: seq<RawPaper>)
    requires t != []
    ensures Clean(parse, t) ==
      (match CleanRow(parse, t[0]) case Some(r) => [r] case None => []) + Clean(parse, t[1..])
  {
    var p := t[0];
    var dm := DropMissingTime(t[1..]);
    if p.publishTime.Some? {
      assert DropMissingTime(t) == [p] + dm;
      var pt := ParseTimes(parse, [p] + dm);
      assert pt == [ParseTime(parse, p)] + ParseTimes(parse, dm);
      var q := ParseTime(parse, p);
      assert pt[0] == q && pt[1..] == ParseTimes(parse, dm);
      match q.publishTime
      case Some(d) =>
        assert DropUnparsed(pt) == [WithTime(q, d)] + DropUnparsed(pt[1..]);
      case None =>
    }
  }

  /** The staged cleaning pass is the row-wise one. */
  lemma {:induction false} CleanIsRowWise(parse: string -> Option<Date>, t: seq<RawPaper>)
    ensures Clean(parse, t) == CleanEach(parse, t)
  {
    if t == [] {
    } else {
      CleanFirstRow(parse, t);
      CleanIsRowWise(parse, t[1..]);
    }
  }

  lemma {:induction false} CleanEachAppend(parse: string -> Option<Date>, a: seq<RawPaper>, b: seq<RawPaper>)
    ensures CleanEach(parse, a + b) == CleanEach(parse, a) + CleanEach(parse, b)
  {
    if a == [] {
      assert a + b == b;
    } else {
      assert (a + b)[0] == a[0] && (a + b)[1..] == a[1..] + b;
      CleanEachAppend(parse, a[1..], b);
    }
  }

  /**
   * Cleaning only removes rows and keeps the order of the rest: cleaning a
   * table is cleaning its two halves and putting the results end to end.
   */
  lemma CleanAppend(parse: string -> Option<Date>, a: seq<RawPaper>, b: seq<RawPaper>)
    ensures Clean(parse, a + b) == Clean(parse, a) + Clean(parse, b)
  {
    CleanIsRowWise(parse, a + b);
    CleanIsRowWise(parse, a);
    CleanIsRowWise(parse, b);
    CleanEachAppend(parse, a, b);
  }

  /** Cleaning a single row keeps it exactly when its publish_time is present and parses. */
  lemma CleanSingle(parse: string -> Option<Date>, p: RawPaper)
    ensures |Clean(parse, [p])| == (if p.publishTime.Some? && parse(p.publishTime.value).Some? then 1 else 0)
    ensures Clean(parse, [p]) != [] ==> Some(Clean(parse, [p])[0]) == CleanRow(parse, p)
  {
    CleanIsRowWise(parse, [p]);
    assert [p][1..] == [];
  }

  /** The cleaned table is never longer than the loaded one. */
  lemma {:induction false} CleanEachShorter(parse: string -> Option<Date>, t: seq<RawPaper>)
    ensures |CleanEach(parse, t)| <= |t|
  {
    if t != [] {
      CleanEachShorter(parse, t[1..]);
    }
  }

  /** Every row of `CleanEach(t)` is the cleaned form of a row of `t`. */
  lemma {:induction false} CleanEachOrigin(parse: string -> Option<Date>, t: seq<RawPaper>, r: Row)
    requires r in CleanEach(parse, t)
    ensures exists p :: p in t && CleanRow(parse, p) == Some(r)
  {
    if t != [] {
      var head := match CleanRow(parse, t[0]) case Some(x) => [x] case None => [];
      assert CleanEach(parse, t) == head + CleanEach(parse, t[1..]);
      if r in head {
        assert t[0] in t;
      } else {
        CleanEachOrigin(parse, t[1..], r);
        var p :| p in t[1..] && CleanRow(parse, p) == Some(r);
        assert p in t;
      }
    }
  }

  /** Every kept row of `t` is in `CleanEach(t)`. */
  lemma {:induction false} CleanEachKeeps(parse: string -> Option<Date>, t: seq<RawPaper>, p: RawPaper)
    requires p in t && CleanRow(parse, p).Some?
    ensures CleanRow(parse, p).value in CleanEach(parse, t)
  {
    var head := match CleanRow(parse, t[0]) case Some(x) => [x] case None => [];
    assert CleanEach(parse, t) == head + CleanEach(parse, t[1..]);
    if p != t[0] {
      CleanEachKeeps(parse, t[1..], p);
    }
  }

  /**
   * After cleaning, every row came from a loaded row whose publish_time was
   * present and parsed to that row's date; its year is that date's year; its
   * word count is that of its abstract (0 when missing); its other columns are
   * the loaded row's. Conversely every loaded row whose publish_time parses is
   * kept. The cleaned table is no longer than the loaded one.
   */
  lemma CleanSpec(parse: string -> Option<Date>, t: seq<RawPaper>)
    ensures |Clean(parse, t)| <= |t|
    ensures forall r :: r in Clean(parse, t) ==>
      && r.year == r.publishTime.year
      && r.abstractWordCount == Words.WordCount(r.abstractText.GetOr(""))
      && exists p :: p in t && p.publishTime.Some? && parse(p.publishTime.value) == Some(r.publishTime)
           && p.title == r.title && p.authors == r.authors && p.journal == r.journal
           && p.source == r.source && p.abstractText == r.abstractText
    ensures forall p :: p in t && p.publishTime.Some? && parse(p.publishTime.value).Some? ==>
      CleanRow(parse, p).value in Clean(parse, t)
  {
    CleanIsRowWise(parse, t);
    CleanEachShorter(parse, t);
    forall r | r in Clean(parse, t)
      ensures && r.year == r.publishTime.year
        && r.abstractWordCount == Words.WordCount(r.abstractText.GetOr(""))
        && exists p :: p in t && p.publishTime.Some? && parse(p.publishTime.value) == Some(r.publishTime)
             && p.title == r.title && p.authors == r.authors && p.journal == r.journal
             && p.source == r.source && p.abstractText == r.abstractText
    {
      CleanEachOrigin(parse, t, r);
    }
    forall p | p in t && p.publishTime.Some? && parse(p.publishTime.value).Some?
      ensures CleanRow(parse, p).value in Clean(parse, t)
    {
      CleanEachKeeps(parse, t, p);
    }
  }

  /** A missing abstract counts zero words. */
  lemma MissingAbstractCountsZero(parse: string -> Option<Date>, p: RawPaper)
    requires p.abstractText.None? && CleanRow(parse, p).Some?
    ensures CleanRow(parse, p).value.abstractWordCount == 0
  {
  }
}
