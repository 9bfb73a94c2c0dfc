/**
 * The four key metrics shown above the charts (lib.py:70-75), computed from
 * the filtered view. The source reads the `borrower_id`, `return_date` and
 * `overdue_status` columns without checking that they exist, so a view that
 * lacks one of them raises a KeyError at the first such read.
 */
module Metrics {
  import opened Seqs
  import opened Lending

  // ----- Substring search for the late-return pattern -----

  /** `pat` occurs in `s` at some offset; case-sensitive, as `str.contains` with a regular expression of literals. */
  predicate Contains(s: string, pat: string)
    decreases |s|
  {
    pat <= s || (s != [] && Contains(s[1..], pat))
  }

  /** When `pat` occurs in `s`, there is an offset at which it starts. */
  lemma {:induction false} ContainsOffset(s: string, pat: string) returns (i: nat)
    requires Contains(s, pat)
    ensures i <= |s| && pat <= s[i..]
    decreases |s|
  {
    if pat <= s {
      i := 0;
    } else {
      var j := ContainsOffset(s[1..], pat);
      assert s[1..][j..] == s[j + 1..];
      i := j + 1;
    }
  }

  /** An occurrence of `pat` starting at offset `i` is found by `Contains`. */
  lemma {:induction false} OffsetContains(s: string, pat: string, i: nat)
    requires i <= |s| && pat <= s[i..]
    ensures Contains(s, pat)
    decreases i
  {
    if i > 0 {
      assert s[1..][i - 1..] == s[i..];
      OffsetContains(s[1..], pat, i - 1);
    }
  }

  /** `Contains` is the existence of an offset at which `pat` starts. */
  lemma ContainsAtOffset(s: string, pat: string)
    ensures Contains(s, pat) <==> exists i :: 0 <= i <= |s| && pat <= s[i..]
  {
    if Contains(s, pat) {
      var i := ContainsOffset(s, pat);
    }
    if exists i :: 0 <= i <= |s| && pat <= s[i..] {
      var i :| 0 <= i <= |s| && pat <= s[i..];
      OffsetContains(s, pat, i);
    }
  }

  /** lib.py:74: the status is present and matches `Late|Overdue`; a missing status (na=False) does not match. */
  predicate IsLate(r: Row)
  {
    r.overdueStatus.Some? && (Contains(r.overdueStatus.value, "Late") || Contains(r.overdueStatus.value, "Overdue"))
  }

  // ----- The four aggregates -----

  /** lib.py:72: the distinct borrower ids of the rows; pandas' `nunique` ignores missing ids. */
  function BorrowerIds(rows: seq<Row>): (ids: set<string>)
    ensures |ids| <= |rows|
    ensures forall v :: v in ids <==> exists i :: 0 <= i < |rows| && rows[i].borrowerId == Some(v)
    decreases |rows|
  {
    if rows == [] then {}
    else
      var rest := BorrowerIds(rows[1..]);
      assert forall i :: 1 <= i < |rows| ==> rows[i] == rows[1..][i - 1];
      match rows[0].borrowerId
      case None => rest
      case Some(v) =>
        assert v in rest ==> rest + {v} == rest;
        rest + {v}
  }

  /** lib.py:73: the rows whose return date is missing. */
  function NotReturned(rows: seq<Row>): (n: nat)
    ensures n <= |rows|
  {
    |Filter(rows, (r: Row) => r.returnDate.None?)|
  }

  /** lib.py:74: the rows whose overdue status reports a late or overdue loan. */
  function LateReturns(rows: seq<Row>): (n: nat)
    ensures n <= |rows|
  {
    |Filter(rows, IsLate)|
  }

  /** The four values of the metrics strip, in display order. */
  datatype KeyMetrics = KeyMetrics(totalIssued: nat, uniqueBorrowers: nat, notReturned: nat, lateReturns: nat)

  /** Either the metrics or the column whose lookup raised a KeyError. */
  datatype MetricsOutcome = Computed(metrics: KeyMetrics) | KeyError(column: Column)

  /** lib.py:70-75: the metrics of a view, evaluated in list order. */
  function ComputeMetrics(view: Table): (out: MetricsOutcome)
    ensures out.KeyError? <==> !(BorrowerId in view.columns && ReturnDate in view.columns && OverdueStatus in view.columns)
    ensures out.KeyError? ==> out.column == (if BorrowerId !in view.columns then BorrowerId
                                             else if ReturnDate !in view.columns then ReturnDate
                                             else OverdueStatus)
    ensures out.Computed? ==>
              && out.metrics.totalIssued == |view.rows|
              && out.metrics.uniqueBorrowers <= out.metrics.totalIssued
              && out.metrics.notReturned <= out.metrics.totalIssued
              && out.metrics.lateReturns <= out.metrics.totalIssued
    ensures out.Computed? && view.rows == [] ==> out.metrics == KeyMetrics(0, 0, 0, 0)
    ensures out.Computed? ==>
              out.metrics == KeyMetrics(|view.rows|, |BorrowerIds(view.rows)|, NotReturned(view.rows), LateReturns(view.rows))
  {
    if BorrowerId !in view.columns then KeyError(BorrowerId)
    else if ReturnDate !in view.columns then KeyError(ReturnDate)
    else if OverdueStatus !in view.columns then KeyError(OverdueStatus)
    else
      Computed(KeyMetrics(
        |view.rows|,
        |BorrowerIds(view.rows)|,
        NotReturned(view.rows),
        LateReturns(view.rows)))
  }

  /** A further row adds one to Books Not Returned exactly when its return date is missing. */
  lemma NotReturnedCountsMissing(rows: seq<Row>, r: Row)
    ensures NotReturned(rows + [r]) == NotReturned(rows) + (if r.returnDate.None? then 1 else 0)
  {
    FilterAppend(rows, r, (r: Row) => r.returnDate.None?);
  }

  /** A further row adds one to Late Returns exactly when its status is present and contains "Late" or "Overdue". */
  lemma LateReturnsCountsLate(rows: seq<Row>, r: Row)
    ensures LateReturns(rows + [r]) == LateReturns(rows) + (if IsLate(r) then 1 else 0)
  {
    FilterAppend(rows, r, IsLate);
  }

  /** Late Returns counts exactly the rows whose status holds one of the two words at some offset. */
  lemma LateMeansSubstring(r: Row)
    ensures IsLate(r) <==>
              && r.overdueStatus.Some?
              && ((exists i :: 0 <= i <= |r.overdueStatus.value| && "Late" <= r.overdueStatus.value[i..])
                  || (exists i :: 0 <= i <= |r.overdueStatus.value| && "Overdue" <= r.overdueStatus.value[i..]))
  {
    if r.overdueStatus.Some? {
      ContainsAtOffset(r.overdueStatus.value, "Late");
      ContainsAtOffset(r.overdueStatus.value, "Overdue");
    }
  }
}
