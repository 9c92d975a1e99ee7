/** One render of the dashboard's ranked charts: the view selected by the
    year slider and the three top-10 lists computed from it. */
module Dashboard {
  import opened Records
  import opened YearFilter
  import opened Frequency

  /** The data behind the ranked charts of one page render. */
  datatype Charts = Charts(
    view: seq<Row>,
    topLocations: seq<Entry>,
    topTitles: seq<Entry>,
    topAuthors: seq<Entry>)

  /** Every chart is recomputed from the whole table and the slider value. */
  function Render(t: seq<Row>, s: Selection): Charts
  {
    var view := FilterByYear(t, s);
    Charts(view, TopValues(Location, view), TopValues(BookTitle, view), TopValues(BookAuthor, view))
  }

  /** A range that holds no publication year is not an error: the view and
      all three charts are simply empty. */
  lemma EmptyRangeCharts(t: seq<Row>, s: Selection)
    requires forall k :: 0 <= k < |t| ==> !Selected(s, t[k])
    ensures Render(t, s) == Charts([], [], [], [])
  {
    FilterEmptyIff(t, s);
  }

  /** Each bar counts rows of the view, so no chart's bars add up to more
      rows than the table has, nor than the years in range hold. */
  lemma ChartTotals(t: seq<Row>, s: Selection)
    ensures var ch := Render(t, s);
      && |ch.view| <= |t|
      && Total(ch.topLocations) <= |ch.view|
      && Total(ch.topTitles) <= |ch.view|
      && Total(ch.topAuthors) <= |ch.view|
  {
    var view := FilterByYear(t, s);
    TopValuesChart(Location, view);
    TopValuesChart(BookTitle, view);
    TopValuesChart(BookAuthor, view);
  }
}
