/** The rows of the weights table as the index page prepares them: rows whose
    weight or date did not parse are dropped, the age column is added, and
    each chart takes one cat's rows in date order. */
module Records {
  import opened Calendar
  import opened AgeCalculator

  datatype Option<T> = None | Some(value: T)

  /** A row of the `weights` table together with the results of parsing its
      `weight` column (`pd.to_numeric(..., errors='coerce')`) and its
      `date_str` column (`pd.to_datetime(..., errors='coerce')`); `None` is
      the `NaN`/`NaT` a failed parse leaves. */
  datatype RawRow = RawRow(id: int, catName: string, dateStr: string, weight: Option<real>, date: Option<Timestamp>)

  /** A row that kept both values, with the `age_months` column added. */
  datatype Record = Record(id: int, catName: string, dateStr: string, weight: real, date: Timestamp, ageMonths: real)

  /** The column a `dropna(subset=[...])` call looks at. */
  datatype Column = WeightColumn | DateColumn

  predicate Present(r: RawRow, c: Column) {
    match c
    case WeightColumn => r.weight.Some?
    case DateColumn => r.date.Some?
  }

  /** Both values of the row parsed. */
  predicate Parsed(r: RawRow) {
    r.weight.Some? && r.date.Some?
  }

  /** What `pd.to_datetime` can return: a calendar instant inside the years of
      pandas' nanosecond timestamps (anything else parses to `NaT`). */
  predicate ParsedStamp(t: Timestamp) {
    ValidTimestamp(t) && 1677 <= t.date.year <= 2262
  }

  /** Parsed timestamps are real calendar instants. */
  predicate ParsedDatesValid(rows: seq<RawRow>) {
    forall r :: r in rows && r.date.Some? ==> ParsedStamp(r.date.value)
  }

  /** `df.dropna(subset=[c])`: the rows whose column `c` holds a value, in
      their original order. */
  function DropNa(rows: seq<RawRow>, c: Column): (kept: seq<RawRow>)
    ensures |kept| <= |rows|
    ensures forall r :: r in kept <==> r in rows && Present(r, c)
  {
    if |rows| == 0 then []
    else
      var rest := DropNa(rows[1..], c);
      assert forall r :: r in rows <==> r == rows[0] || r in rows[1..];
      if Present(rows[0], c) then [rows[0]] + rest else rest
  }

  /** Dropping rows keeps the order of what is left: the rows kept from a
      concatenation are the rows kept from each part, one after the other. */
  lemma {:induction false} DropNaAppend(a: seq<RawRow>, b: seq<RawRow>, c: Column)
    ensures DropNa(a + b, c) == DropNa(a, c) + DropNa(b, c)
  {
    if |a| > 0 {
      assert (a + b)[1..] == a[1..] + b;
      DropNaAppend(a[1..], b, c);
    } else {
      assert a + b == b;
    }
  }

  /** The two `dropna` calls can be made in either order. */
  lemma {:induction false} DropNaCommute(rows: seq<RawRow>)
    ensures DropNa(DropNa(rows, WeightColumn), DateColumn) == DropNa(DropNa(rows, DateColumn), WeightColumn)
  {
    if |rows| > 0 {
      DropNaCommute(rows[1..]);
    }
  }

  /** Nothing is dropped exactly when every row holds a value. */
  lemma {:induction false} DropNaKeepsAll(rows: seq<RawRow>, c: Column)
    ensures DropNa(rows, c) == rows <==> forall i :: 0 <= i < |rows| ==> Present(rows[i], c)
  {
    if |rows| > 0 {
      DropNaKeepsAll(rows[1..], c);
      if !Present(rows[0], c) {
        assert |DropNa(rows, c)| < |rows| by { assert |DropNa(rows[1..], c)| <= |rows[1..]|; }
      }
    }
  }

  /** The record a fully parsed row becomes: `age_months` is the age at its
      timestamp. */
  function ToRecord(r: RawRow, birth: Date): (rec: Record)
    requires Parsed(r) && ParsedStamp(r.date.value) && ValidDate(birth)
    ensures rec.ageMonths == AgeMonths(r.date.value, birth) && rec.ageMonths >= 0.0
    ensures rec.id == r.id && rec.catName == r.catName && rec.dateStr == r.dateStr
    ensures rec.weight == r.weight.value && rec.date == r.date.value
  {
    Record(r.id, r.catName, r.dateStr, r.weight.value, r.date.value, AgeMonths(r.date.value, birth))
  }

  /** `df['age_months'] = df['date'].apply(calculate_age_months)` on rows that
      hold both values. */
  function WithAges(rows: seq<RawRow>, birth: Date): (recs: seq<Record>)
    requires forall r :: r in rows ==> Parsed(r)
    requires ParsedDatesValid(rows) && ValidDate(birth)
    ensures |recs| == |rows|
    ensures forall i :: 0 <= i < |rows| ==> recs[i] == ToRecord(rows[i], birth)
  {
    seq(|rows|, i requires 0 <= i < |rows| => ToRecord(rows[i], birth))
  }

  /** Lines 132-138 of the index page: drop rows without a numeric weight, then
      rows without a parsable date, then add the age column. */
  function CleanRows(rows: seq<RawRow>, birth: Date): (recs: seq<Record>)
    requires ParsedDatesValid(rows) && ValidDate(birth)
    ensures |recs| <= |rows|
    ensures |recs| == |rows| <==> forall i :: 0 <= i < |rows| ==> Parsed(rows[i])
  {
    var kept := DropNa(DropNa(rows, WeightColumn), DateColumn);
    CleanKeepsAll(rows);
    WithAges(kept, birth)
  }

  /** Both `dropna` calls together drop nothing exactly when every row parsed. */
  lemma CleanKeepsAll(rows: seq<RawRow>)
    ensures |DropNa(DropNa(rows, WeightColumn), DateColumn)| == |rows| <==>
      forall i :: 0 <= i < |rows| ==> Parsed(rows[i])
  {
    var w := DropNa(rows, WeightColumn);
    DropNaSameLength(rows, WeightColumn);
    DropNaSameLength(w, DateColumn);
    DropNaKeepsAll(rows, WeightColumn);
    DropNaKeepsAll(w, DateColumn);
  }

  /** A `dropna` that keeps as many rows as it was given keeps them all. */
  lemma {:induction false} DropNaSameLength(rows: seq<RawRow>, c: Column)
    ensures |DropNa(rows, c)| == |rows| ==> DropNa(rows, c) == rows
  {
    if |rows| > 0 {
      DropNaSameLength(rows[1..], c);
      assert rows == [rows[0]] + rows[1..];
    }
  }

  /** A record survives cleaning exactly when it comes from a row of the table
      whose weight and date both parsed. */
  lemma CleanRowsMembership(rows: seq<RawRow>, birth: Date, rec: Record)
    requires ParsedDatesValid(rows) && ValidDate(birth)
    ensures rec in CleanRows(rows, birth) <==>
      exists i :: 0 <= i < |rows| && Parsed(rows[i]) && rec == ToRecord(rows[i], birth)
  {
    var kept := DropNa(DropNa(rows, WeightColumn), DateColumn);
    var recs := CleanRows(rows, birth);
    if rec in recs {
      var k :| 0 <= k < |recs| && recs[k] == rec;
      assert kept[k] in rows;
      var i :| 0 <= i < |rows| && rows[i] == kept[k];
    }
    if exists i :: 0 <= i < |rows| && Parsed(rows[i]) && rec == ToRecord(rows[i], birth) {
      var i :| 0 <= i < |rows| && Parsed(rows[i]) && rec == ToRecord(rows[i], birth);
      assert rows[i] in kept;
      var k :| 0 <= k < |kept| && kept[k] == rows[i];
      assert recs[k] == rec;
    }
  }

  /** Cleaning a concatenation cleans each part: records keep the table's order. */
  lemma CleanRowsAppend(a: seq<RawRow>, b: seq<RawRow>, birth: Date)
    requires ParsedDatesValid(a) && ParsedDatesValid(b) && ValidDate(birth)
    ensures ParsedDatesValid(a + b)
    ensures CleanRows(a + b, birth) == CleanRows(a, birth) + CleanRows(b, birth)
  {
    assert ParsedDatesValid(a + b) by {
      forall r | r in a + b && r.date.Some? ensures ParsedStamp(r.date.value) {
        assert r in a || r in b;
      }
    }
    var ka := DropNa(DropNa(a, WeightColumn), DateColumn);
    var kb := DropNa(DropNa(b, WeightColumn), DateColumn);
    DropNaAppend(a, b, WeightColumn);
    DropNaAppend(DropNa(a, WeightColumn), DropNa(b, WeightColumn), DateColumn);
    WithAgesAppend(ka, kb, birth);
  }

  lemma WithAgesAppend(a: seq<RawRow>, b: seq<RawRow>, birth: Date)
    requires forall r :: r in a ==> Parsed(r)
    requires forall r :: r in b ==> Parsed(r)
    requires ParsedDatesValid(a) && ParsedDatesValid(b) && ParsedDatesValid(a + b) && ValidDate(birth)
    ensures WithAges(a + b, birth) == WithAges(a, birth) + WithAges(b, birth)
  {
    var l, r := WithAges(a + b, birth), WithAges(a, birth) + WithAges(b, birth);
    forall i | 0 <= i < |l| ensures l[i] == r[i] {
      if i < |a| {
        assert (a + b)[i] == a[i];
      } else {
        assert (a + b)[i] == b[i - |a|];
      }
    }
  }

  // ---------------------------------------------------------------------------
  // One cat's series

  predicate ValidRecords(recs: seq<Record>) {
    forall r :: r in recs ==> ParsedStamp(r.date)
  }

  /** Every record's age column holds the age at its timestamp. */
  predicate AgesConsistent(recs: seq<Record>, birth: Date)
    requires ValidDate(birth) && ValidRecords(recs)
  {
    forall r :: r in recs ==> r.ageMonths == AgeMonths(r.date, birth)
  }

  /** `df[df['cat_name'] == cat]`: that cat's records, in their order. */
  function SelectCat(recs: seq<Record>, cat: string): (sel: seq<Record>)
    ensures forall r :: r in sel <==> r in recs && r.catName == cat
    ensures forall r :: multiset(sel)[r] == if r.catName == cat then multiset(recs)[r] else 0
  {
    if |recs| == 0 then []
    else
      var rest := SelectCat(recs[1..], cat);
      assert recs == [recs[0]] + recs[1..];
      if recs[0].catName == cat then [recs[0]] + rest else rest
  }

  predicate SortedByDate(recs: seq<Record>)
    requires ValidRecords(recs)
  {
    forall i, j :: 0 <= i < j < |recs| ==> StampKey(recs[i].date) <= StampKey(recs[j].date)
  }

  /** `sort_values('date')`, as an insertion sort. */
  function SortByDate(recs: seq<Record>): (sorted: seq<Record>)
    requires ValidRecords(recs)
    ensures multiset(sorted) == multiset(recs)
    ensures ValidRecords(sorted) && SortedByDate(sorted)
  {
    if |recs| == 0 then []
    else
      assert recs == [recs[0]] + recs[1..];
      var rest := SortByDate(recs[1..]);
      InsertSorted(recs[0], rest);
      Insert(recs[0], rest)
  }

  /** Puts `x` in front of the first record with a later timestamp. */
  function Insert(x: Record, sorted: seq<Record>): (r: seq<Record>)
    requires ParsedStamp(x.date) && ValidRecords(sorted)
    ensures multiset(r) == multiset(sorted) + multiset{x}
    ensures forall z :: z in r <==> z == x || z in sorted
  {
    if |sorted| == 0 then [x]
    else if StampKey(x.date) <= StampKey(sorted[0].date) then [x] + sorted
    else
      assert sorted == [sorted[0]] + sorted[1..];
      [sorted[0]] + Insert(x, sorted[1..])
  }

  /** Inserting into a sorted list keeps it sorted. */
  lemma {:induction false} InsertSorted(x: Record, sorted: seq<Record>)
    requires ParsedStamp(x.date) && ValidRecords(sorted) && SortedByDate(sorted)
    ensures ValidRecords(Insert(x, sorted)) && SortedByDate(Insert(x, sorted))
  {
    if |sorted| == 0 {
    } else {
      SortedHeadFirst(sorted);
      if StampKey(x.date) <= StampKey(sorted[0].date) {
        SortedCons(x, sorted);
      } else {
        var tail := sorted[1..];
        assert sorted == [sorted[0]] + tail;
        InsertSorted(x, tail);
        SortedCons(sorted[0], Insert(x, tail));
      }
    }
  }

  /** The first record of a sorted list is no later than any of them. */
  lemma SortedHeadFirst(s: seq<Record>)
    requires |s| >= 1 && ValidRecords(s) && SortedByDate(s)
    ensures forall z :: z in s ==> StampKey(s[0].date) <= StampKey(z.date)
  {
    forall z | z in s ensures StampKey(s[0].date) <= StampKey(z.date) {
      var k :| 0 <= k < |s| && s[k] == z;
    }
  }

  /** A record no later than every record of a sorted list can go in front. */
  lemma SortedCons(y: Record, s: seq<Record>)
    requires ParsedStamp(y.date) && ValidRecords(s) && SortedByDate(s)
    requires forall z :: z in s ==> StampKey(y.date) <= StampKey(z.date)
    ensures ValidRecords([y] + s) && SortedByDate([y] + s)
  {
    var r := [y] + s;
    forall i, j | 0 <= i < j < |r| ensures StampKey(r[i].date) <= StampKey(r[j].date) {
      if i == 0 {
        assert r[j] in s;
      } else {
        assert r[i] == s[i - 1] && r[j] == s[j - 1];
      }
    }
  }

  /** `cat_df`: the cat's records sorted by date. */
  function CatSeries(recs: seq<Record>, cat: string): (series: seq<Record>)
    requires ValidRecords(recs)
    ensures ValidRecords(series) && SortedByDate(series)
  {
    var sel := SelectCat(recs, cat);
    assert forall i :: 0 <= i < |sel| ==> sel[i] in recs;
    SortByDate(sel)
  }

  /** The series holds exactly the cat's records, each as often as in the
      table. */
  lemma CatSeriesContents(recs: seq<Record>, cat: string)
    requires ValidRecords(recs)
    ensures forall r :: multiset(CatSeries(recs, cat))[r] == if r.catName == cat then multiset(recs)[r] else 0
    ensures forall r :: r in CatSeries(recs, cat) <==> r in recs && r.catName == cat
  {
    var sel := SelectCat(recs, cat);
    assert forall r :: r in CatSeries(recs, cat) <==> r in multiset(sel);
  }

  /** Along a cat's series the age column never decreases, so the chart's line
      runs left to right. */
  lemma CatSeriesAgesNonDecreasing(recs: seq<Record>, cat: string, birth: Date, i: nat, j: nat)
    requires ValidRecords(recs) && ValidDate(birth) && AgesConsistent(recs, birth)
    requires i <= j < |CatSeries(recs, cat)|
    ensures CatSeries(recs, cat)[i].ageMonths <= CatSeries(recs, cat)[j].ageMonths
  {
    var series := CatSeries(recs, cat);
    if i < j {
      var a, b := series[i], series[j];
      assert StampKey(a.date) <= StampKey(b.date);
      SeriesMember(recs, cat, series, a);
      SeriesMember(recs, cat, series, b);
      AgesFollowDates(recs, birth, a, b);
    }
  }

  lemma SeriesMember(recs: seq<Record>, cat: string, series: seq<Record>, r: Record)
    requires ValidRecords(recs) && series == CatSeries(recs, cat) && r in series
    ensures r in recs
  {
    CatSeriesContents(recs, cat);
  }

  /** Of two records of a consistent table, the later one is the older. */
  lemma AgesFollowDates(recs: seq<Record>, birth: Date, a: Record, b: Record)
    requires ValidRecords(recs) && ValidDate(birth) && AgesConsistent(recs, birth)
    requires a in recs && b in recs && StampKey(a.date) <= StampKey(b.date)
    ensures a.ageMonths <= b.ageMonths
  {
    StampKeyOrder(a.date, b.date);
    AgeMonotone(a.date, b.date, birth);
  }

  /** Cleaned records are valid and carry their ages. */
  lemma CleanRowsConsistent(rows: seq<RawRow>, birth: Date)
    requires ParsedDatesValid(rows) && ValidDate(birth)
    ensures ValidRecords(CleanRows(rows, birth)) && AgesConsistent(CleanRows(rows, birth), birth)
  {
    var kept := DropNa(DropNa(rows, WeightColumn), DateColumn);
    var recs := CleanRows(rows, birth);
    forall rec | rec in recs ensures ParsedStamp(rec.date) && rec.ageMonths == AgeMonths(rec.date, birth) {
      var k :| 0 <= k < |recs| && recs[k] == rec;
      assert kept[k] in rows;
    }
  }
}
