/**
 * The interactive explorer (app.py lines 83, 86 and 90): the year-range
 * filter, the journal filter on its result, and the capped previews. The
 * slider's range and the selected journal are inputs.
 */
module Explorer {
  import opened Wrappers
  import opened Counting
  import opened Cleaning
  import opened Aggregates

  /** app.py:83, the rows with `lo <= year <= hi`, in table order. */
  function YearFilter(t: seq<Row>, lo: int, hi: int): (r: seq<Row>)
    ensures forall x :: x in r <==> x in t && lo <= x.year <= hi
    ensures IsSubsequence(r, t)
  {
    if t == [] then []
    else if lo <= t[0].year <= hi then [t[0]] + YearFilter(t[1..], lo, hi)
    else YearFilter(t[1..], lo, hi)
  }

  /**
   * app.py:90, `filtered_df[filtered_df['journal'] == selected_journal]`.
   * A missing journal never equals the selection, and a missing selection
   * (a selector without options) equals nothing.
   */
  function JournalFilter(t: seq<Row>, selected: Option<string>): (r: seq<Row>)
    ensures forall x :: x in r <==> x in t && selected.Some? && x.journal == selected
    ensures IsSubsequence(r, t)
  {
    if t == [] then []
    else if selected.Some? && t[0].journal == selected then [t[0]] + JournalFilter(t[1..], selected)
    else JournalFilter(t[1..], selected)
  }

  /** app.py:86, the first twenty rows of the year-filtered table. */
  function YearPreview(t: seq<Row>, lo: int, hi: int): (p: seq<Row>)
    ensures |p| <= 20 && p <= YearFilter(t, lo, hi)
    ensures |p| == 20 || p == YearFilter(t, lo, hi)
    ensures forall x :: x in p ==> x in t && lo <= x.year <= hi
  {
    Head(YearFilter(t, lo, hi), 20)
  }

  /** app.py:90, the first ten rows of the selected journal within the year range. */
  function JournalPreview(t: seq<Row>, lo: int, hi: int, selected: Option<string>): (p: seq<Row>)
    ensures |p| <= 10 && p <= JournalFilter(YearFilter(t, lo, hi), selected)
    ensures |p| == 10 || p == JournalFilter(YearFilter(t, lo, hi), selected)
    ensures forall x :: x in p ==> x in t && lo <= x.year <= hi && selected.Some? && x.journal == selected
  {
    Head(JournalFilter(YearFilter(t, lo, hi), selected), 10)
  }

  lemma {:induction false} YearFilterAppend(a: seq<Row>, b: seq<Row>, lo: int, hi: int)
    ensures YearFilter(a + b, lo, hi) == YearFilter(a, lo, hi) + YearFilter(b, lo, hi)
  {
    if a == [] {
      assert a + b == b;
    } else {
      assert (a + b)[0] == a[0] && (a + b)[1..] == a[1..] + b;
      YearFilterAppend(a[1..], b, lo, hi);
    }
  }

  /**
   * The journal filter works row by row, so it keeps every matching row,
   * repeated rows included, in table order.
   */
  lemma {:induction false} JournalFilterAppend(a: seq<Row>, b: seq<Row>, selected: Option<string>)
    ensures JournalFilter(a + b, selected) == JournalFilter(a, selected) + JournalFilter(b, selected)
  {
    if a == [] {
      assert a + b == b;
    } else {
      assert (a + b)[0] == a[0] && (a + b)[1..] == a[1..] + b;
      JournalFilterAppend(a[1..], b, selected);
    }
  }

  /** A range covering every row's year keeps the whole table. */
  lemma {:induction false} YearFilterKeepsAll(t: seq<Row>, lo: int, hi: int)
    requires forall x :: x in t ==> lo <= x.year <= hi
    ensures YearFilter(t, lo, hi) == t
  {
    if t != [] {
      assert forall x :: x in t[1..] ==> x in t;
      YearFilterKeepsAll(t[1..], lo, hi);
    }
  }

  /**
   * The slider's full range, from the minimum to the maximum year of the
   * cleaned table, selects every row.
   */
  lemma FullRangeKeepsAll(t: seq<Row>)
    requires t != []
    ensures YearFilter(t, YearBounds(t).value.0, YearBounds(t).value.1) == t
  {
    YearFilterKeepsAll(t, YearBounds(t).value.0, YearBounds(t).value.1);
  }

  /** A selected journal that occurs in the year range shows at least one row. */
  lemma SelectedJournalShows(t: seq<Row>, lo: int, hi: int, r: Row)
    requires r in t && lo <= r.year <= hi && r.journal.Some?
    ensures JournalPreview(t, lo, hi, r.journal) != []
  {
    assert r in JournalFilter(YearFilter(t, lo, hi), r.journal);
  }
}
