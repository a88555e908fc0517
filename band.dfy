/** The reference growth band: the calibration tables `MALE_REF` and
    `FEMALE_REF`, numpy's `linspace` and `interp`, and the band the chart draws
    from them. Arithmetic is on exact reals. */
module ReferenceBand {

  /** One calibration row: an age in months and the healthy weight range in kg. */
  datatype RefPoint = RefPoint(age: real, lower: real, upper: real)

  /** The grid and the two interpolated bounds the chart fills between. */
  datatype Band = Band(months: seq<real>, lower: seq<real>, upper: seq<real>)

  /** Number of points of the interpolation grid. */
  const GridPoints: nat := 300

  /** `MALE_REF`: the first weeks are given as `7/30.44` months and so on. */
  const MaleRef: seq<RefPoint> := [
    RefPoint(0.0, 0.08, 0.17), RefPoint(7.0 / 30.44, 0.18, 0.29),
    RefPoint(14.0 / 30.44, 0.29, 0.43), RefPoint(21.0 / 30.44, 0.42, 0.60),
    RefPoint(1.0, 0.61, 0.82), RefPoint(2.0, 0.9, 1.8), RefPoint(3.0, 1.7, 2.3),
    RefPoint(4.0, 2.9, 4.1), RefPoint(5.0, 3.3, 5.4), RefPoint(6.0, 3.4, 5.9),
    RefPoint(7.0, 4.1, 6.3), RefPoint(8.0, 4.4, 6.8), RefPoint(9.0, 5.0, 7.3),
    RefPoint(10.0, 5.1, 7.7)
  ]

  /** `FEMALE_REF`. */
  const FemaleRef: seq<RefPoint> := [
    RefPoint(0.0, 0.08, 0.15), RefPoint(7.0 / 30.44, 0.15, 0.26),
    RefPoint(14.0 / 30.44, 0.27, 0.41), RefPoint(21.0 / 30.44, 0.41, 0.55),
    RefPoint(1.0, 0.55, 0.74), RefPoint(2.0, 0.9, 1.4), RefPoint(3.0, 1.4, 2.3),
    RefPoint(4.0, 2.5, 3.6), RefPoint(5.0, 2.7, 4.2), RefPoint(6.0, 3.1, 4.5),
    RefPoint(7.0, 3.3, 4.5), RefPoint(8.0, 3.7, 5.0), RefPoint(9.0, 4.1, 5.4),
    RefPoint(10.0, 4.0, 5.4)
  ]

  // ---------------------------------------------------------------------------
  // Columns of a table

  /** `[x[0] for x in ref_data]`. */
  function Ages(t: seq<RefPoint>): (xs: seq<real>)
    ensures |xs| == |t| && forall i :: 0 <= i < |t| ==> xs[i] == t[i].age
  {
    seq(|t|, i requires 0 <= i < |t| => t[i].age)
  }

  /** `[x[1] for x in ref_data]`. */
  function Lowers(t: seq<RefPoint>): (ys: seq<real>)
    ensures |ys| == |t| && forall i :: 0 <= i < |t| ==> ys[i] == t[i].lower
  {
    seq(|t|, i requires 0 <= i < |t| => t[i].lower)
  }

  /** `[x[2] for x in ref_data]`. */
  function Uppers(t: seq<RefPoint>): (ys: seq<real>)
    ensures |ys| == |t| && forall i :: 0 <= i < |t| ==> ys[i] == t[i].upper
  {
    seq(|t|, i requires 0 <= i < |t| => t[i].upper)
  }

  predicate StrictlyIncreasing(xs: seq<real>) {
    forall i :: 0 <= i < |xs| - 1 ==> xs[i] < xs[i + 1]
  }

  /** What the band builder needs of a table: at least one row, ages strictly
      increasing (numpy's `interp` assumes increasing `xp`), and no row whose
      lower weight exceeds its upper weight. */
  predicate WellFormedTable(t: seq<RefPoint>) {
    |t| >= 1 && StrictlyIncreasing(Ages(t)) && forall i :: 0 <= i < |t| ==> t[i].lower <= t[i].upper
  }

  function Max(a: real, b: real): real {
    if a >= b then a else b
  }

  function Min(a: real, b: real): real {
    if a <= b then a else b
  }

  /** Python's `max` of a non-empty list. */
  function MaxOf(xs: seq<real>): (m: real)
    requires |xs| >= 1
    ensures m in xs
    ensures forall i :: 0 <= i < |xs| ==> xs[i] <= m
  {
    if |xs| == 1 then xs[0] else Max(xs[0], MaxOf(xs[1..]))
  }

  /** The smallest element of a non-empty list. */
  function MinOf(xs: seq<real>): (m: real)
    requires |xs| >= 1
    ensures m in xs
    ensures forall i :: 0 <= i < |xs| ==> m <= xs[i]
  {
    if |xs| == 1 then xs[0] else Min(xs[0], MinOf(xs[1..]))
  }

  // ---------------------------------------------------------------------------
  // numpy.linspace

  /** `np.linspace(start, stop, num)` (endpoint included): `num` points from
      `start` with step `(stop - start) / (num - 1)`, the last one set to `stop`. */
  function Linspace(start: real, stop: real, num: nat): (xs: seq<real>)
    ensures |xs| == num
    ensures num >= 1 ==> xs[0] == start
    ensures num >= 2 ==> xs[num - 1] == stop
  {
    if num <= 1 then seq(num, i requires 0 <= i < num => start)
    else
      var step := (stop - start) / (num - 1) as real;
      seq(num, i requires 0 <= i < num => if i == num - 1 then stop else start + i as real * step)
  }

  /** Consecutive grid points are one step apart. */
  lemma LinspaceEvenlySpaced(start: real, stop: real, num: nat, i: nat)
    requires num >= 2 && i < num - 1
    ensures var xs := Linspace(start, stop, num);
            xs[i + 1] - xs[i] == (stop - start) / (num - 1) as real
  {
    var step := (stop - start) / (num - 1) as real;
    var xs := Linspace(start, stop, num);
    if i + 1 == num - 1 {
      assert (num - 1) as real * step == stop - start;
      assert xs[i + 1] - xs[i] == stop - (start + (num - 2) as real * step);
    } else {
      assert xs[i + 1] - xs[i] == (i + 1) as real * step - i as real * step;
    }
  }

  /** Each grid point is `start` plus its index times the step. */
  lemma LinspacePoint(start: real, stop: real, num: nat, i: nat)
    requires num >= 2 && i < num
    ensures Linspace(start, stop, num)[i] == start + i as real * ((stop - start) / (num - 1) as real)
  {
    var step := (stop - start) / (num - 1) as real;
    if i == num - 1 {
      assert (num - 1) as real * step == stop - start;
    }
  }

  /** With `start <= stop` the grid is non-decreasing. */
  lemma LinspaceNonDecreasing(start: real, stop: real, num: nat, i: nat)
    requires start <= stop && i + 1 < num
    ensures var xs := Linspace(start, stop, num);
            xs[i] <= xs[i + 1]
  {
    LinspaceEvenlySpaced(start, stop, num, i);
    NonNegativeRatio(stop - start, (num - 1) as real);
  }

  /** With `start <= stop` every grid point lies in `[start, stop]`. */
  lemma LinspaceWithin(start: real, stop: real, num: nat, i: nat)
    requires start <= stop && i < num
    ensures var xs := Linspace(start, stop, num);
            start <= xs[i] <= stop
  {
    if num >= 2 {
      var step := (stop - start) / (num - 1) as real;
      NonNegativeRatio(stop - start, (num - 1) as real);
      LinspacePoint(start, stop, num, i);
      LinspacePoint(start, stop, num, num - 1);
      StepsOrdered(start, step, i as real, (num - 1) as real);
      assert Linspace(start, stop, num)[i] == start + i as real * step <= start + (num - 1) as real * step == stop;
    }
  }

  lemma ScaleMonotone(a: real, b: real, k: real)
    requires a <= b && k >= 0.0
    ensures a * k <= b * k
  {
    assert b * k - a * k == (b - a) * k;
  }

  lemma NonNegativeRatio(a: real, d: real)
    requires a >= 0.0 && d > 0.0
    ensures a / d >= 0.0
  {
    assert a / d * d == a;
  }

  lemma StepsOrdered(start: real, step: real, i: real, n: real)
    requires step >= 0.0 && 0.0 <= i <= n
    ensures start <= start + i * step <= start + n * step
  {
    ScaleMonotone(0.0, i, step);
    ScaleMonotone(i, n, step);
  }

  // ---------------------------------------------------------------------------
  // numpy.interp

  /** The value at `x` of the line through `(x0, y0)` and `(x1, y1)`, computed as
      numpy does: `slope * (x - x0) + y0`. */
  function Lerp(x0: real, y0: real, x1: real, y1: real, x: real): real
    requires x0 < x1
  {
    (y1 - y0) / (x1 - x0) * (x - x0) + y0
  }

  /** `np.interp(x, xp, fp)` for increasing `xp`: `fp[0]` up to the first
      knot, linear between consecutive knots, and the last value from the last
      knot on. */
  function Interp(x: real, xp: seq<real>, fp: seq<real>): (y: real)
    requires |xp| == |fp| >= 1 && StrictlyIncreasing(xp)
    ensures x <= xp[0] ==> y == fp[0]
    ensures x >= xp[|xp| - 1] ==> y == fp[|fp| - 1]
    decreases |xp|
  {
    if x <= xp[0] || |xp| == 1 then
      Increasing(xp, 0, |xp| - 1);
      fp[0]
    else if x <= xp[1] then
      LerpEnds(xp[0], fp[0], xp[1], fp[1], x);
      Increasing(xp, 1, |xp| - 1);
      Lerp(xp[0], fp[0], xp[1], fp[1], x)
    else
      assert xp[1..][|xp| - 2] == xp[|xp| - 1];
      Interp(x, xp[1..], fp[1..])
  }

  /** The interpolation never leaves the range of the table values. */
  lemma {:induction false} InterpWithinRange(x: real, xp: seq<real>, fp: seq<real>)
    requires |xp| == |fp| >= 1 && StrictlyIncreasing(xp)
    ensures MinOf(fp) <= Interp(x, xp, fp) <= MaxOf(fp)
    decreases |xp|
  {
    if x <= xp[0] || |xp| == 1 {
    } else if x <= xp[1] {
      LerpEnds(xp[0], fp[0], xp[1], fp[1], x);
    } else {
      InterpWithinRange(x, xp[1..], fp[1..]);
      MinMaxOfTail(fp);
    }
  }

  /** `np.interp(xs, xp, fp)` with an array `xs`: each point interpolated. */
  function InterpAll(xs: seq<real>, xp: seq<real>, fp: seq<real>): (ys: seq<real>)
    requires |xp| == |fp| >= 1 && StrictlyIncreasing(xp)
    ensures |ys| == |xs| && forall i :: 0 <= i < |xs| ==> ys[i] == Interp(xs[i], xp, fp)
  {
    seq(|xs|, i requires 0 <= i < |xs| => Interp(xs[i], xp, fp))
  }

  /** On a segment the line stays between its end values, and meets the right
      end value at the right knot. */
  lemma LerpEnds(x0: real, y0: real, x1: real, y1: real, x: real)
    requires x0 < x1 && x0 <= x <= x1
    ensures Min(y0, y1) <= Lerp(x0, y0, x1, y1, x) <= Max(y0, y1)
    ensures x == x1 ==> Lerp(x0, y0, x1, y1, x) == y1
  {
    var t := (x - x0) / (x1 - x0);
    UnitRatio(x - x0, x1 - x0);
    LerpAsFraction(x0, y0, x1, y1, x);
    Fraction(t, y1 - y0);
  }

  /** numpy's `slope * (x - x0) + y0` is `y0` plus the fraction of the segment
      covered times the rise. */
  lemma LerpAsFraction(x0: real, y0: real, x1: real, y1: real, x: real)
    requires x0 < x1
    ensures Lerp(x0, y0, x1, y1, x) == y0 + (x - x0) / (x1 - x0) * (y1 - y0)
  {
  }

  /** `a / d` lies in `[0, 1]` for `0 <= a <= d`, and is 1 for `a == d`. */
  lemma UnitRatio(a: real, d: real)
    requires 0.0 <= a <= d && d > 0.0
    ensures 0.0 <= a / d <= 1.0
    ensures a == d ==> a / d == 1.0
  {
    assert a / d * d == a;
  }

  /** A fraction `t` in `[0, 1]` of `k` lies between 0 and `k`. */
  lemma Fraction(t: real, k: real)
    requires 0.0 <= t <= 1.0
    ensures k >= 0.0 ==> 0.0 <= t * k <= k
    ensures k < 0.0 ==> k <= t * k <= 0.0
    ensures t == 1.0 ==> t * k == k
  {
    if k >= 0.0 {
      FractionOfNonNegative(t, k);
    } else {
      FractionOfNonNegative(t, -k);
      assert t * (-k) == -(t * k);
    }
  }

  lemma FractionOfNonNegative(t: real, k: real)
    requires 0.0 <= t <= 1.0 && k >= 0.0
    ensures 0.0 <= t * k <= k
  {
    assert k - t * k == (1.0 - t) * k;
  }

  lemma MinMaxOfTail(fp: seq<real>)
    requires |fp| >= 2
    ensures MinOf(fp) <= MinOf(fp[1..]) && MaxOf(fp[1..]) <= MaxOf(fp)
  {
  }

  /** At every knot the interpolation returns the table value exactly. */
  lemma {:induction false} InterpAtKnot(xp: seq<real>, fp: seq<real>, k: nat)
    requires |xp| == |fp| >= 1 && StrictlyIncreasing(xp) && k < |xp|
    ensures Interp(xp[k], xp, fp) == fp[k]
    decreases k
  {
    if k == 1 {
      LerpEnds(xp[0], fp[0], xp[1], fp[1], xp[1]);
    } else if k > 1 {
      Increasing(xp, 1, k);
      InterpAtKnot(xp[1..], fp[1..], k - 1);
    }
  }

  /** Consecutive increase carries over to any two positions. */
  lemma {:induction false} Increasing(xs: seq<real>, i: nat, j: nat)
    requires StrictlyIncreasing(xs) && i <= j < |xs|
    ensures xs[i] <= xs[j]
    ensures i < j ==> xs[i] < xs[j]
    decreases j - i
  {
    if i < j {
      Increasing(xs, i + 1, j);
    }
  }

  /** Between two consecutive knots the interpolation is the line through them. */
  lemma {:induction false} InterpOnSegment(x: real, xp: seq<real>, fp: seq<real>, k: nat)
    requires |xp| == |fp| >= 2 && StrictlyIncreasing(xp) && k < |xp| - 1
    requires xp[k] <= x <= xp[k + 1]
    ensures Interp(x, xp, fp) == Lerp(xp[k], fp[k], xp[k + 1], fp[k + 1], x)
    decreases k
  {
    if k == 0 {
      if x == xp[0] {
        assert Lerp(xp[0], fp[0], xp[1], fp[1], x) == fp[0];
      }
    } else {
      Increasing(xp, 0, k);
      Increasing(xp, 1, k);
      if x <= xp[1] {
        LerpEnds(xp[0], fp[0], xp[1], fp[1], x);
        assert Lerp(xp[1], fp[1], xp[2], fp[2], x) == fp[1];
      } else {
        InterpOnSegment(x, xp[1..], fp[1..], k - 1);
      }
    }
  }

  /** Between two consecutive knots the interpolation lies between the two
      table values. */
  lemma InterpBetween(x: real, xp: seq<real>, fp: seq<real>, k: nat)
    requires |xp| == |fp| >= 2 && StrictlyIncreasing(xp) && k < |xp| - 1
    requires xp[k] <= x <= xp[k + 1]
    ensures Min(fp[k], fp[k + 1]) <= Interp(x, xp, fp) <= Max(fp[k], fp[k + 1])
  {
    InterpOnSegment(x, xp, fp, k);
    LerpEnds(xp[k], fp[k], xp[k + 1], fp[k + 1], x);
  }

  /** Interpolating a pointwise smaller column gives a smaller value. */
  lemma {:induction false} InterpOrdered(x: real, xp: seq<real>, lo: seq<real>, hi: seq<real>)
    requires |xp| == |lo| == |hi| >= 1 && StrictlyIncreasing(xp)
    requires forall i :: 0 <= i < |xp| ==> lo[i] <= hi[i]
    ensures Interp(x, xp, lo) <= Interp(x, xp, hi)
    decreases |xp|
  {
    if x <= xp[0] || |xp| == 1 {
    } else if x <= xp[1] {
      LerpOrdered(xp[0], lo[0], hi[0], xp[1], lo[1], hi[1], x);
    } else {
      InterpOrdered(x, xp[1..], lo[1..], hi[1..]);
    }
  }

  /** The line through smaller end values lies below on the whole segment. */
  lemma LerpOrdered(x0: real, y0: real, z0: real, x1: real, y1: real, z1: real, x: real)
    requires x0 < x1 && x0 <= x <= x1 && y0 <= z0 && y1 <= z1
    ensures Lerp(x0, y0, x1, y1, x) <= Lerp(x0, z0, x1, z1, x)
  {
    var t := (x - x0) / (x1 - x0);
    UnitRatio(x - x0, x1 - x0);
    LerpAsFraction(x0, y0, x1, y1, x);
    LerpAsFraction(x0, z0, x1, z1, x);
    Distribute(t, z1 - z0, y1 - y0);
    Fraction(t, (z1 - z0) - (y1 - y0));
  }

  lemma Distribute(t: real, u: real, v: real)
    ensures t * u - t * v == t * (u - v)
  {
  }

  // ---------------------------------------------------------------------------
  // The band

  /** Step 3 of `create_interactive_plot`: the grid from 0 to the later of the
      view's end and the table's last age, and both weight columns interpolated
      on it. */
  function BuildBand(table: seq<RefPoint>, endView: real): (b: Band)
    requires WellFormedTable(table)
    ensures |b.months| == |b.lower| == |b.upper| == GridPoints
    ensures b.months[0] == 0.0
    ensures b.months[GridPoints - 1] == Max(endView, MaxOf(Ages(table)))
  {
    var xp := Ages(table);
    var maxX := Max(endView, MaxOf(xp));
    var xs := Linspace(0.0, maxX, GridPoints);
    Band(xs, InterpAll(xs, xp, Lowers(table)), InterpAll(xs, xp, Uppers(table)))
  }

  /** At every grid point the lower bound is at most the upper bound, so the
      filled area between the two traces is never inverted. */
  lemma BandOrdered(table: seq<RefPoint>, endView: real, i: nat)
    requires WellFormedTable(table) && i < GridPoints
    ensures var b := BuildBand(table, endView);
            b.lower[i] <= b.upper[i]
  {
    var b := BuildBand(table, endView);
    InterpOrdered(b.months[i], Ages(table), Lowers(table), Uppers(table));
  }

  /** The grid reaches every calibration age. */
  lemma BandCoversTable(table: seq<RefPoint>, endView: real, k: nat)
    requires WellFormedTable(table) && k < |table|
    ensures table[k].age <= BuildBand(table, endView).months[GridPoints - 1]
  {
    assert Ages(table)[k] == table[k].age;
  }

  /** From the last calibration age on, the band is flat at the table's last row. */
  lemma BandAfterTable(table: seq<RefPoint>, endView: real, i: nat)
    requires WellFormedTable(table) && i < GridPoints
    ensures var b := BuildBand(table, endView);
            b.months[i] >= table[|table| - 1].age ==>
              b.lower[i] == table[|table| - 1].lower && b.upper[i] == table[|table| - 1].upper
  {
    var b := BuildBand(table, endView);
    var xp, lo, hi := Ages(table), Lowers(table), Uppers(table);
    var last := |table| - 1;
    assert b.lower[i] == Interp(b.months[i], xp, lo) && b.upper[i] == Interp(b.months[i], xp, hi);
    assert xp[last] == table[last].age && lo[last] == table[last].lower && hi[last] == table[last].upper;
  }

  /** Below the first calibration age the band is flat at the table's first row. */
  lemma BandBeforeTable(table: seq<RefPoint>, endView: real, i: nat)
    requires WellFormedTable(table) && i < GridPoints
    ensures var b := BuildBand(table, endView);
            b.months[i] <= table[0].age ==> b.lower[i] == table[0].lower && b.upper[i] == table[0].upper
  {
  }

  // ---------------------------------------------------------------------------
  // The two tables

  lemma MaleRefWellFormed()
    ensures WellFormedTable(MaleRef)
    ensures MaxOf(Ages(MaleRef)) == 10.0
  {
    TableFacts(MaleRef);
  }

  lemma FemaleRefWellFormed()
    ensures WellFormedTable(FemaleRef)
    ensures MaxOf(Ages(FemaleRef)) == 10.0
  {
    TableFacts(FemaleRef);
  }

  /** A table with the shared age column and rows whose bounds are ordered. */
  lemma TableFacts(t: seq<RefPoint>)
    requires |t| == 14
    requires t[0].age == 0.0 && t[1].age == 7.0 / 30.44 && t[2].age == 14.0 / 30.44
    requires t[3].age == 21.0 / 30.44
    requires forall i :: 4 <= i < 14 ==> t[i].age == (i - 3) as real
    requires forall i :: 0 <= i < 14 ==> t[i].lower <= t[i].upper
    ensures WellFormedTable(t) && MaxOf(Ages(t)) == 10.0
  {
    var xs := Ages(t);
    assert StrictlyIncreasing(xs);
    IncreasingMaxIsLast(xs);
  }

  /** In an increasing list the maximum is the last element. */
  lemma IncreasingMaxIsLast(xs: seq<real>)
    requires |xs| >= 1 && StrictlyIncreasing(xs)
    ensures MaxOf(xs) == xs[|xs| - 1]
  {
    if |xs| > 1 {
      assert forall i :: 0 <= i < |xs| ==> xs[i] <= xs[|xs| - 1] by {
        forall i | 0 <= i < |xs| ensures xs[i] <= xs[|xs| - 1] {
          Increasing(xs, i, |xs| - 1);
        }
      }
    }
  }
}
