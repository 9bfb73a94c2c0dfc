/**
 * What one run of the page produces from the filtered view (lib.py:67-126).
 * The metrics list is built first; a KeyError raised while building it is
 * not caught, so the script ends there and no chart data is computed.
 * Otherwise the page shows the four metrics and the data of each chart
 * whose column is present, provided the view is not empty.
 */
module Dashboard {
  import opened Lending
  import opened Metrics
  import opened Counts

  /** The data handed to the three frequency charts; `None` for a chart the page skips. */
  datatype ChartData = ChartData(
    topTitles: Option<seq<Entry>>,
    genres: Option<seq<Entry>>,
    borrowerTypes: Option<seq<Entry>>)

  /** The page either shows its metrics and charts, or stops on the column whose lookup raised. */
  datatype Page = Shown(metrics: KeyMetrics, charts: ChartData) | Stopped(missing: Column)

  /** lib.py:67-126: metrics first, then the charts only if the metrics were computed. */
  function RenderPage(view: Table): (page: Page)
    ensures page.Stopped? <==>
              !(BorrowerId in view.columns && ReturnDate in view.columns && OverdueStatus in view.columns)
    ensures page.Stopped? ==> page.missing == (if BorrowerId !in view.columns then BorrowerId
                                               else if ReturnDate !in view.columns then ReturnDate
                                               else OverdueStatus)
    ensures page.Shown? ==> page.metrics.totalIssued == |view.rows|
    ensures page.Shown? ==>
              && (page.charts.topTitles.Some? <==> view.rows != [] && BookTitle in view.columns)
              && (page.charts.genres.Some? <==> view.rows != [] && Cat(Genre) in view.columns)
              && (page.charts.borrowerTypes.Some? <==> view.rows != [] && Cat(BorrowerType) in view.columns)
    ensures page.Shown? && page.charts.topTitles.Some? ==> |page.charts.topTitles.value| <= 10
    ensures page.Shown? ==>
              && page.metrics == ComputeMetrics(view).metrics
              && page.charts == ChartData(TopTitles(view), Distribution(view, Genre), Distribution(view, BorrowerType))
  {
    match ComputeMetrics(view)
    case KeyError(column) => Stopped(column)
    case Computed(m) =>
      Shown(m, ChartData(TopTitles(view), Distribution(view, Genre), Distribution(view, BorrowerType)))
  }

  /**
   * A chart is drawn only on a page that got past the metrics: every chart
   * needs the three columns the metrics read, besides its own.
   */
  lemma ChartsNeedMetricColumns(view: Table)
    ensures (RenderPage(view).Shown? && RenderPage(view).charts.topTitles.Some?) <==>
              && view.rows != []
              && BookTitle in view.columns
              && BorrowerId in view.columns && ReturnDate in view.columns && OverdueStatus in view.columns
  {
  }
}
