/** `create_interactive_plot` and the index page that calls it: the visible
    age window, the reference band under it and one cat's series. */
module Chart {
  import opened Calendar
  import opened AgeCalculator
  import opened ReferenceBand
  import opened Records

  /** `pd.Timestamp("2025-08-30")`, the birth date both charts use. */
  const BirthDate: Date := Date(2025, 8, 30)

  /** The x-axis range the chart opens with. */
  datatype View = View(start: real, end: real)

  /** What one chart shows: the band, the cat's points and the x-axis range. */
  datatype Plot = Plot(band: Band, series: seq<Record>, view: View)

  /** One line of the table under the charts: `id, cat_name, date_str, weight`. */
  datatype TableRow = TableRow(id: int, catName: string, dateStr: string, weight: real)

  /** What the index page renders; `None` where the template gets `None`. */
  datatype Page = Page(simba: Option<Plot>, nala: Option<Plot>, table: seq<TableRow>)

  /** Weighed on 2025-09-15 at midnight, a cat born on the birth date above is
      16 days into its first month, which runs 31 days to 2025-09-30. */
  lemma BirthDateFirstMonth()
    ensures AgeMonths(Timestamp(Date(2025, 9, 15), 0), BirthDate) == 16.0 / 31.0
  {
    ExampleFirstMonth(2025);
  }

  // ---------------------------------------------------------------------------
  // The view window

  /** `df['date'].min()`. */
  function Earliest(recs: seq<Record>): (t: Timestamp)
    requires |recs| >= 1 && ValidRecords(recs)
    ensures exists r :: r in recs && r.date == t
    ensures forall r :: r in recs ==> StampKey(t) <= StampKey(r.date)
  {
    if |recs| == 1 then recs[0].date
    else
      var rest := Earliest(recs[1..]);
      assert forall r :: r in recs <==> r == recs[0] || r in recs[1..];
      if StampKey(recs[0].date) <= StampKey(rest) then recs[0].date else rest
  }

  /** `df['date'].max()`. */
  function Latest(recs: seq<Record>): (t: Timestamp)
    requires |recs| >= 1 && ValidRecords(recs)
    ensures exists r :: r in recs && r.date == t
    ensures forall r :: r in recs ==> StampKey(r.date) <= StampKey(t)
  {
    if |recs| == 1 then recs[0].date
    else
      var rest := Latest(recs[1..]);
      assert forall r :: r in recs <==> r == recs[0] || r in recs[1..];
      if StampKey(rest) <= StampKey(recs[0].date) then recs[0].date else rest
  }

  /** `t - timedelta(days=7)`: the same time of day a week earlier. */
  function WeekBefore(t: Timestamp): (r: Timestamp)
    requires ParsedStamp(t)
    ensures ValidTimestamp(r) && r.minute == t.minute && Ordinal(r.date) == Ordinal(t.date) - 7
  {
    LaterYearOrdinal(t.date);
    Timestamp(SubDays(t.date, 7), t.minute)
  }

  lemma LaterYearOrdinal(d: Date)
    requires ValidDate(d) && d.year >= 2
    ensures Ordinal(d) > 31
  {
    MonthStartMonotone(1, 1, d.year, d.month);
  }

  /** `t + timedelta(days=7)`: the same time of day a week later. */
  function WeekAfter(t: Timestamp): (r: Timestamp)
    requires ValidTimestamp(t)
    ensures ValidTimestamp(r) && r.minute == t.minute && Ordinal(r.date) == Ordinal(t.date) + 7
  {
    Timestamp(AddDays(t.date, 7), t.minute)
  }

  /** Lines 44-47: the ages a week before the earliest and a week after the
      latest weighing of either cat. */
  function ViewWindow(recs: seq<Record>, birth: Date): (v: View)
    requires |recs| >= 1 && ValidRecords(recs) && ValidDate(birth)
    ensures v.start >= 0.0
  {
    View(AgeMonths(WeekBefore(Earliest(recs)), birth), AgeMonths(WeekAfter(Latest(recs)), birth))
  }

  /** Ages grow with time, so the window is never reversed. */
  lemma ViewWindowOrdered(recs: seq<Record>, birth: Date)
    requires |recs| >= 1 && ValidRecords(recs) && ValidDate(birth)
    ensures ViewWindow(recs, birth).start <= ViewWindow(recs, birth).end
  {
    assert recs[0] in recs;
    ViewWindowCovers(recs, birth, recs[0]);
  }

  /** Every weighing of either cat lies inside the window. */
  lemma ViewWindowCovers(recs: seq<Record>, birth: Date, r: Record)
    requires |recs| >= 1 && ValidRecords(recs) && ValidDate(birth) && r in recs
    ensures ViewWindow(recs, birth).start <= AgeMonths(r.date, birth) <= ViewWindow(recs, birth).end
  {
    var lo, hi := Earliest(recs), Latest(recs);
    StampOrderedAges(lo, r.date, birth);
    StampOrderedAges(r.date, hi, birth);
    BeforeIffOrdinalLess(WeekBefore(lo).date, lo.date);
    AgeMonotone(WeekBefore(lo), lo, birth);
    BeforeIffOrdinalLess(hi.date, WeekAfter(hi).date);
    AgeMonotone(hi, WeekAfter(hi), birth);
  }

  lemma StampOrderedAges(a: Timestamp, b: Timestamp, birth: Date)
    requires ValidTimestamp(a) && ValidTimestamp(b) && ValidDate(birth)
    requires StampKey(a) <= StampKey(b)
    ensures AgeMonths(a, birth) <= AgeMonths(b, birth)
  {
    StampKeyOrder(a, b);
    AgeMonotone(a, b, birth);
  }

  // ---------------------------------------------------------------------------
  // One chart

  /** `create_interactive_plot(df, cat, ref, birth)`: the band is built up to the
      window's right edge (or the table's last age, whichever is later), and
      the cat's trace is its records in date order. */
  function CreatePlot(recs: seq<Record>, cat: string, table: seq<RefPoint>, birth: Date): (p: Plot)
    requires |recs| >= 1 && ValidRecords(recs) && ValidDate(birth) && WellFormedTable(table)
    ensures p.view == ViewWindow(recs, birth)
    ensures p.band == BuildBand(table, p.view.end)
    ensures |p.band.months| == GridPoints
    ensures p.band.months[0] <= p.view.start
    ensures p.band.months[GridPoints - 1] == Max(p.view.end, MaxOf(Ages(table)))
    ensures p.view.end <= p.band.months[GridPoints - 1]
    ensures forall r :: r in p.series <==> r in recs && r.catName == cat
    ensures forall r :: multiset(p.series)[r] == if r.catName == cat then multiset(recs)[r] else 0
    ensures ValidRecords(p.series) && SortedByDate(p.series)
  {
    var view := ViewWindow(recs, birth);
    CatSeriesContents(recs, cat);
    Plot(BuildBand(table, view.end), CatSeries(recs, cat), view)
  }

  /** The series of a chart runs left to right along the age axis and stays
      inside the opening window. */
  lemma PlotSeriesInView(recs: seq<Record>, cat: string, table: seq<RefPoint>, birth: Date, i: nat, j: nat)
    requires |recs| >= 1 && ValidRecords(recs) && ValidDate(birth) && WellFormedTable(table)
    requires AgesConsistent(recs, birth)
    requires i <= j < |CreatePlot(recs, cat, table, birth).series|
    ensures var p := CreatePlot(recs, cat, table, birth);
            p.view.start <= p.series[i].ageMonths <= p.series[j].ageMonths <= p.view.end
  {
    var p := CreatePlot(recs, cat, table, birth);
    CatSeriesAgesNonDecreasing(recs, cat, birth, i, j);
    assert p.series[i] in p.series && p.series[j] in p.series;
    ViewWindowCovers(recs, birth, p.series[i]);
    ViewWindowCovers(recs, birth, p.series[j]);
  }

  // ---------------------------------------------------------------------------
  // The index page

  function TableOf(recs: seq<Record>): (rows: seq<TableRow>)
    ensures |rows| == |recs|
    ensures forall i :: 0 <= i < |recs| ==>
      rows[i] == TableRow(recs[i].id, recs[i].catName, recs[i].dateStr, recs[i].weight)
  {
    seq(|recs|, i requires 0 <= i < |recs| => TableRow(recs[i].id, recs[i].catName, recs[i].dateStr, recs[i].weight))
  }

  /** The test of line 128 as written: the table has any rows at all, parsed
      or not. */
  predicate ChartsRequestedAsWritten(rows: seq<RawRow>) {
    |rows| > 0
  }

  /** A table whose only row has a weight that is not a number passes the test
      of line 128, yet cleaning leaves no record, so the charts would be built
      from an empty frame whose earliest date is `NaT`. */
  lemma AsWrittenGuardAdmitsEmptyFrame()
    ensures exists rows :: ParsedDatesValid(rows) && ChartsRequestedAsWritten(rows) && |CleanRows(rows, BirthDate)| == 0
  {
    var rows := [RawRow(1, "Simba", "2025-10-01 08:00", None, Some(Timestamp(Date(2025, 10, 1), 8 * 60)))];
    assert DropNa(rows, WeightColumn) == [];
    assert |CleanRows(rows, BirthDate)| == 0;
  }

  /** The index page with the test made on the cleaned records: both charts and
      the table exactly when at least one row parsed. */
  function IndexPage(rows: seq<RawRow>): (page: Page)
    requires ParsedDatesValid(rows)
    ensures page.simba.Some? <==> |CleanRows(rows, BirthDate)| > 0
    ensures page.nala.Some? <==> |CleanRows(rows, BirthDate)| > 0
    ensures page.table == TableOf(CleanRows(rows, BirthDate))
    ensures page.simba.Some? ==>
      (ValidRecords(CleanRows(rows, BirthDate)) && WellFormedTable(MaleRef) &&
       page.simba.value == CreatePlot(CleanRows(rows, BirthDate), "Simba", MaleRef, BirthDate))
    ensures page.nala.Some? ==>
      (ValidRecords(CleanRows(rows, BirthDate)) && WellFormedTable(FemaleRef) &&
       page.nala.value == CreatePlot(CleanRows(rows, BirthDate), "Nala", FemaleRef, BirthDate))
  {
    var recs := CleanRows(rows, BirthDate);
    if |recs| == 0 then Page(None, None, [])
    else
      CleanRowsConsistent(rows, BirthDate);
      MaleRefWellFormed();
      FemaleRefWellFormed();
      Page(Some(CreatePlot(recs, "Simba", MaleRef, BirthDate)),
           Some(CreatePlot(recs, "Nala", FemaleRef, BirthDate)),
           TableOf(recs))
  }
}
