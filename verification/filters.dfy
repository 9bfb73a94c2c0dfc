/**
 * The filter engine of the dashboard (lib.py:30-65): a copy of the loaded
 * table is narrowed first by an inclusive issue-date window and then, column
 * by column, by the multi-select of each categorical column the table has.
 * An empty multi-select switches its column's filter off.
 */
module Filters {
  import opened Seqs
  import opened Lending

  /** What each categorical multi-select returned. */
  type Selection = Category -> set<Option<string>>

  /** The date mask of lib.py:43-44; a missing issue date (NaT) compares false on both sides. */
  predicate InDateRange(lo: Day, hi: Day, r: Row)
  {
    r.issueDate.Some? && lo <= r.issueDate.value <= hi
  }

  /** lib.py:42-45: keep exactly the rows issued on a day in the closed range [lo, hi]. */
  function DateWindow(rows: seq<Row>, lo: Day, hi: Day): (view: seq<Row>)
    ensures forall r :: r in view <==> r in rows && r.issueDate.Some? && lo <= r.issueDate.value <= hi
    ensures IsSubsequence(view, rows)
  {
    Filter(rows, (r: Row) => InDateRange(lo, hi, r))
  }

  /**
   * lib.py:64-65: an empty selection leaves the rows alone; otherwise keep
   * the rows whose cell in column `c` is one of the chosen values.
   */
  function CategoryFilter(rows: seq<Row>, c: Category, chosen: set<Option<string>>): (view: seq<Row>)
    ensures chosen == {} ==> view == rows
    ensures chosen != {} ==> forall r :: r in view <==> r in rows && r.CategoryOf(c) in chosen
    ensures IsSubsequence(view, rows)
  {
    if chosen == {} then
      SubsequenceReflexive(rows);
      rows
    else
      Filter(rows, (r: Row) => r.CategoryOf(c) in chosen)
  }

  // ----- The declarative filter: one predicate per column, joined by AND -----

  /** The date predicate; a table without `issue_date` imposes none (lib.py:33). */
  predicate PassesDate(cols: set<Column>, lo: Day, hi: Day, r: Row)
  {
    IssueDate in cols ==> InDateRange(lo, hi, r)
  }

  /** One categorical predicate; an absent column or an empty selection imposes none (lib.py:57, 64). */
  predicate PassesCategory(cols: set<Column>, c: Category, chosen: set<Option<string>>, r: Row)
  {
    Cat(c) in cols && chosen != {} ==> r.CategoryOf(c) in chosen
  }

  /** The date predicate and the first `k` categorical predicates in filter order. */
  predicate PassesFirst(cols: set<Column>, lo: Day, hi: Day, sel: Selection, k: nat, r: Row)
  {
    && PassesDate(cols, lo, hi, r)
    && forall j :: 0 <= j < k && j < |FilterOrder| ==> PassesCategory(cols, FilterOrder[j], sel(FilterOrder[j]), r)
  }

  /** A row is in the final view iff it passes the date predicate and every categorical predicate. */
  predicate Passes(cols: set<Column>, lo: Day, hi: Day, sel: Selection, r: Row)
  {
    && PassesDate(cols, lo, hi, r)
    && forall c: Category :: PassesCategory(cols, c, sel(c), r)
  }

  /** The view the dashboard shows for a filter state, stated without reference to the order of the steps. */
  function FilteredView(t: Table, lo: Day, hi: Day, sel: Selection): (view: Table)
    ensures view.columns == t.columns
    ensures IsSubsequence(view.rows, t.rows) && |view.rows| <= |t.rows|
    ensures forall r :: r in view.rows <==> r in t.rows && Passes(t.columns, lo, hi, sel, r)
  {
    Table(t.columns, Filter(t.rows, (r: Row) => Passes(t.columns, lo, hi, sel, r)))
  }

  // ----- The filter stage as the source runs it -----

  /**
   * lib.py:30-65: start from a copy of the rows, apply the date window when
   * the table has `issue_date`, then narrow once per present categorical
   * column in filter order. The loaded table is a value and is not changed.
   */
  method ApplyFilters(t: Table, lo: Day, hi: Day, sel: Selection) returns (view: Table)
    ensures view == FilteredView(t, lo, hi, sel)
    ensures view.columns == t.columns
    ensures IsSubsequence(view.rows, t.rows) && |view.rows| <= |t.rows|
    ensures forall r :: r in view.rows <==> r in t.rows && Passes(t.columns, lo, hi, sel, r)
  {
    var rows := t.rows;
    if IssueDate in t.columns {
      rows := DateWindow(rows, lo, hi);
    }
    DateStage(t.rows, t.columns, lo, hi, sel);
    for i := 0 to |FilterOrder|
      invariant rows == Filter(t.rows, (r: Row) => PassesFirst(t.columns, lo, hi, sel, i, r))
    {
      var c := FilterOrder[i];
      if Cat(c) in t.columns {
        rows := CategoryFilter(rows, c, sel(c));
      }
      CategoryStage(t.rows, t.columns, lo, hi, sel, i);
    }
    AllStages(t.rows, t.columns, lo, hi, sel);
    view := Table(t.columns, rows);
  }

  /** After the date step the rows are those passing the first zero categorical predicates. */
  lemma DateStage(rows: seq<Row>, cols: set<Column>, lo: Day, hi: Day, sel: Selection)
    ensures (if IssueDate in cols then DateWindow(rows, lo, hi) else rows)
         == Filter(rows, (r: Row) => PassesFirst(cols, lo, hi, sel, 0, r))
  {
    if IssueDate in cols {
      FilterSameMask(rows, (r: Row) => InDateRange(lo, hi, r), (r: Row) => PassesFirst(cols, lo, hi, sel, 0, r));
    } else {
      FilterKeepsAll(rows, (r: Row) => PassesFirst(cols, lo, hi, sel, 0, r));
    }
  }

  /** Step `i` of the column loop turns the first-`i` view into the first-`i + 1` view. */
  lemma CategoryStage(rows: seq<Row>, cols: set<Column>, lo: Day, hi: Day, sel: Selection, i: nat)
    requires i < |FilterOrder|
    ensures
      var before := Filter(rows, (r: Row) => PassesFirst(cols, lo, hi, sel, i, r));
      var c := FilterOrder[i];
      (if Cat(c) in cols then CategoryFilter(before, c, sel(c)) else before)
        == Filter(rows, (r: Row) => PassesFirst(cols, lo, hi, sel, i + 1, r))
  {
    var c := FilterOrder[i];
    var p := (r: Row) => PassesFirst(cols, lo, hi, sel, i, r);
    var p' := (r: Row) => PassesFirst(cols, lo, hi, sel, i + 1, r);
    forall r: Row
      ensures p'(r) == (p(r) && PassesCategory(cols, c, sel(c), r))
    {
    }
    if Cat(c) in cols && sel(c) != {} {
      var q := (r: Row) => r.CategoryOf(c) in sel(c);
      assert CategoryFilter(Filter(rows, p), c, sel(c)) == Filter(Filter(rows, p), q);
      FilterThenFilter(rows, p, q, p');
    } else {
      FilterSameMask(rows, p, p');
    }
  }

  /** Once all five columns are processed, the view is the declarative one. */
  lemma AllStages(rows: seq<Row>, cols: set<Column>, lo: Day, hi: Day, sel: Selection)
    ensures Filter(rows, (r: Row) => PassesFirst(cols, lo, hi, sel, |FilterOrder|, r))
         == Filter(rows, (r: Row) => Passes(cols, lo, hi, sel, r))
  {
    forall r: Row
      ensures PassesFirst(cols, lo, hi, sel, |FilterOrder|, r) == Passes(cols, lo, hi, sel, r)
    {
      if PassesFirst(cols, lo, hi, sel, |FilterOrder|, r) {
        forall c: Category
          ensures PassesCategory(cols, c, sel(c), r)
        {
          var j := match c
            case Genre => 0
            case BorrowerType => 1
            case StudentBatch => 2
            case StudentMajor => 3
            case BorrowerAgeGroup => 4;
          assert FilterOrder[j] == c;
        }
      }
    }
    FilterSameMask(rows, (r: Row) => PassesFirst(cols, lo, hi, sel, |FilterOrder|, r), (r: Row) => Passes(cols, lo, hi, sel, r));
  }

  // ----- The sidebar defaults (lib.py:34-40, 58-63) -----

  /** The earliest issue date in the rows; pandas' `min` skips missing dates. */
  function EarliestIssue(rows: seq<Row>): (m: Option<Day>)
    ensures m.None? <==> forall i :: 0 <= i < |rows| ==> rows[i].issueDate.None?
    ensures m.Some? ==> exists i :: 0 <= i < |rows| && rows[i].issueDate == m
    ensures m.Some? ==> forall i :: 0 <= i < |rows| && rows[i].issueDate.Some? ==> m.value <= rows[i].issueDate.value
    decreases |rows|
  {
    if rows == [] then None
    else
      var rest := EarliestIssue(rows[1..]);
      assert forall i :: 1 <= i < |rows| ==> rows[i] == rows[1..][i - 1];
      match rows[0].issueDate
      case None => rest
      case Some(d) => if rest.Some? && rest.value < d then rest else Some(d)
  }

  /** The latest issue date in the rows; pandas' `max` skips missing dates. */
  function LatestIssue(rows: seq<Row>): (m: Option<Day>)
    ensures m.None? <==> forall i :: 0 <= i < |rows| ==> rows[i].issueDate.None?
    ensures m.Some? ==> exists i :: 0 <= i < |rows| && rows[i].issueDate == m
    ensures m.Some? ==> forall i :: 0 <= i < |rows| && rows[i].issueDate.Some? ==> rows[i].issueDate.value <= m.value
    decreases |rows|
  {
    if rows == [] then None
    else
      var rest := LatestIssue(rows[1..]);
      assert forall i :: 1 <= i < |rows| ==> rows[i] == rows[1..][i - 1];
      match rows[0].issueDate
      case None => rest
      case Some(d) => if rest.Some? && rest.value > d then rest else Some(d)
  }

  /** The values a categorical multi-select offers and starts with: every cell of the column, missing included. */
  function ObservedValues(rows: seq<Row>, c: Category): (vs: set<Option<string>>)
    ensures forall r :: r in rows ==> r.CategoryOf(c) in vs
    ensures forall v :: v in vs ==> exists r :: r in rows && r.CategoryOf(c) == v
  {
    set r | r in rows :: r.CategoryOf(c)
  }

  /**
   * With the slider at its default (earliest, latest) the date window removes
   * no row that has an issue date; it removes only rows whose date is missing.
   */
  lemma DefaultRangeKeepsDatedRows(rows: seq<Row>, lo: Day, hi: Day)
    requires EarliestIssue(rows) == Some(lo) && LatestIssue(rows) == Some(hi)
    ensures DateWindow(rows, lo, hi) == Filter(rows, (r: Row) => r.issueDate.Some?)
  {
    forall r | r in rows
      ensures InDateRange(lo, hi, r) == r.issueDate.Some?
    {
      var i :| 0 <= i < |rows| && rows[i] == r;
    }
    FilterSameMask(rows, (r: Row) => InDateRange(lo, hi, r), (r: Row) => r.issueDate.Some?);
  }

  /**
   * With every widget at its default (the full date range, every observed
   * value selected) the view is the whole table, less the rows without an
   * issue date when the table has that column.
   */
  lemma DefaultFiltersKeepTable(t: Table, lo: Day, hi: Day, sel: Selection)
    requires IssueDate in t.columns ==> EarliestIssue(t.rows) == Some(lo) && LatestIssue(t.rows) == Some(hi)
    requires forall c :: Cat(c) in t.columns ==> sel(c) == ObservedValues(t.rows, c)
    ensures FilteredView(t, lo, hi, sel).rows
         == if IssueDate in t.columns then Filter(t.rows, (r: Row) => r.issueDate.Some?) else t.rows
  {
    var passes := (r: Row) => Passes(t.columns, lo, hi, sel, r);
    if IssueDate in t.columns {
      forall r | r in t.rows
        ensures passes(r) == r.issueDate.Some?
      {
        var i :| 0 <= i < |t.rows| && t.rows[i] == r;
        assert forall c :: PassesCategory(t.columns, c, sel(c), r);
      }
      FilterSameMask(t.rows, passes, (r: Row) => r.issueDate.Some?);
    } else {
      forall r | r in t.rows
        ensures passes(r)
      {
        assert forall c :: PassesCategory(t.columns, c, sel(c), r);
      }
      FilterKeepsAll(t.rows, passes);
    }
  }

  // ----- How the categorical selections combine -----

  /**
   * lib.py:64: selecting nothing in a column's multi-select gives the same
   * view as if the table did not have that column at all.
   */
  lemma EmptySelectionDisablesFilter(t: Table, lo: Day, hi: Day, sel: Selection, c: Category)
    requires sel(c) == {}
    ensures FilteredView(t, lo, hi, sel).rows == FilteredView(Table(t.columns - {Cat(c)}, t.rows), lo, hi, sel).rows
  {
    var cols' := t.columns - {Cat(c)};
    forall r: Row
      ensures Passes(t.columns, lo, hi, sel, r) == Passes(cols', lo, hi, sel, r)
    {
      assert forall d :: PassesCategory(t.columns, d, sel(d), r) == PassesCategory(cols', d, sel(d), r);
    }
    FilterSameMask(t.rows, (r: Row) => Passes(t.columns, lo, hi, sel, r), (r: Row) => Passes(cols', lo, hi, sel, r));
  }

  /** lib.py:57: the selection for a column the table lacks has no effect on the view. */
  lemma AbsentColumnIgnored(t: Table, lo: Day, hi: Day, sel: Selection, sel': Selection, c: Category)
    requires Cat(c) !in t.columns
    requires forall d :: d != c ==> sel(d) == sel'(d)
    ensures FilteredView(t, lo, hi, sel) == FilteredView(t, lo, hi, sel')
  {
    forall r: Row
      ensures Passes(t.columns, lo, hi, sel, r) == Passes(t.columns, lo, hi, sel', r)
    {
      assert forall d :: PassesCategory(t.columns, d, sel(d), r) == PassesCategory(t.columns, d, sel'(d), r);
    }
    FilterSameMask(t.rows, (r: Row) => Passes(t.columns, lo, hi, sel, r), (r: Row) => Passes(t.columns, lo, hi, sel', r));
  }
}
