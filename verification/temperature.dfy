/** The temperature part of the first exercise: the composite trapezoidal
    rule (`integrate`) and the filtered mean of daily readings
    (`get_avg_temp`). Both source copies of this module hold the same logic,
    so one definition models them both. Samples are `real`; IEEE rounding is
    not modelled. */
module Temperature {
  import opened Wrappers
  import opened Seqs

  // ---------------------------------------------------------------------
  // Sums of readings

  /** The exact sum of a vector (`np.sum`). */
  function Sum(s: seq<real>): real
  {
    if |s| == 0 then 0.0 else s[0] + Sum(s[1..])
  }

  lemma {:induction false} SumAppend(a: seq<real>, b: seq<real>)
    ensures Sum(a + b) == Sum(a) + Sum(b)
    decreases |a|
  {
    if |a| == 0 {
      assert a + b == b;
    } else {
      assert (a + b)[1..] == a[1..] + b;
      SumAppend(a[1..], b);
    }
  }

  /** The sum depends only on the multiset of summands, not on their order. */
  lemma {:induction false} SumPermutation(a: seq<real>, b: seq<real>)
    requires multiset(a) == multiset(b)
    ensures Sum(a) == Sum(b)
    decreases |a|
  {
    if |a| == 0 {
      assert |multiset(b)| == 0;
    } else {
      var i := PermutationHead(a, b);
      SumPermutation(a[1..], b[..i] + b[i + 1..]);
      SumAppend(b[..i], b[i + 1..]);
      SumAppend(b[..i] + [a[0]], b[i + 1..]);
      SumAppend(b[..i], [a[0]]);
    }
  }

  /** Every summand lies in [lo, hi], so the sum lies in [n * lo, n * hi]. */
  lemma {:induction false} SumBounds(s: seq<real>, lo: real, hi: real)
    requires forall i :: 0 <= i < |s| ==> lo <= s[i] <= hi
    ensures |s| as real * lo <= Sum(s) <= |s| as real * hi
    decreases |s|
  {
    if |s| > 0 {
      SumBounds(s[1..], lo, hi);
    }
  }

  // ---------------------------------------------------------------------
  // integrate(x, y)

  /** `x[1:] - x[:-1]`: the widths of the sample intervals. */
  function Steps(x: seq<real>): seq<real>
  {
    if |x| < 2 then [] else seq(|x| - 1, i requires 0 <= i < |x| - 1 => x[i + 1] - x[i])
  }

  /** `(y[:-1] + y[1:]) / 2`: the mean height over each interval. */
  function Means(y: seq<real>): seq<real>
  {
    if |y| < 2 then [] else seq(|y| - 1, i requires 0 <= i < |y| - 1 => (y[i] + y[i + 1]) / 2.0)
  }

  /** Element-wise product of two vectors of one length. */
  function Mul(a: seq<real>, b: seq<real>): seq<real>
    requires |a| == |b|
  {
    seq(|a|, i requires 0 <= i < |a| => a[i] * b[i])
  }

  /** Element-wise product under numpy's broadcasting rule for two vectors:
      equal lengths pair up, a length-1 operand is repeated, and any other
      pair of lengths is an error (`None`). */
  function BroadcastMul(a: seq<real>, b: seq<real>): Option<seq<real>>
  {
    if |a| == |b| then Some(Mul(a, b))
    else if |a| == 1 then Some(seq(|b|, i requires 0 <= i < |b| => a[0] * b[i]))
    else if |b| == 1 then Some(seq(|a|, i requires 0 <= i < |a| => a[i] * b[0]))
    else None
  }

  /** Reference definition of the composite trapezoidal rule: the area of
      the trapezoid over the first interval plus the rule over the rest. */
  function Trapezoid(x: seq<real>, y: seq<real>): real
    requires |x| == |y|
    decreases |x|
  {
    if |x| < 2 then 0.0
    else (x[1] - x[0]) * ((y[0] + y[1]) / 2.0) + Trapezoid(x[1..], y[1..])
  }

  /** The number of intervals between `n` samples (the length of
      `x[1:] - x[:-1]`). */
  function Intervals(n: nat): nat
  {
    if n < 2 then 0 else n - 1
  }

  /** `integrate(x, y)`: the sum of interval widths times mean heights.
      For samples of equal length this is the trapezoidal rule. The call
      fails exactly when the two interval counts differ and neither is 1,
      since numpy cannot broadcast them together. */
  function Integrate(x: seq<real>, y: seq<real>): (r: Option<real>)
    ensures |x| == |y| ==> r == Some(Trapezoid(x, y))
    ensures |x| < 2 && |y| < 2 ==> r == Some(0.0)
    ensures r.Some? && (|x| < 2 || |y| < 2) ==> r.value == 0.0
    ensures r.None? <==> Intervals(|x|) != Intervals(|y|) && Intervals(|x|) != 1 && Intervals(|y|) != 1
  {
    var products := BroadcastMul(Steps(x), Means(y));
    if products.None? then None
    else if |x| == |y| then TrapezoidIsPairSum(x, y); Some(Sum(products.value))
    else Some(Sum(products.value))
  }

  lemma StepsTail(x: seq<real>)
    requires |x| >= 2
    ensures Steps(x)[1..] == Steps(x[1..])
  {
    var d, d' := Steps(x)[1..], Steps(x[1..]);
    assert |d| == |d'|;
    forall i | 0 <= i < |d|
      ensures d[i] == d'[i]
    {
      assert d[i] == Steps(x)[i + 1];
    }
  }

  lemma MeansTail(y: seq<real>)
    requires |y| >= 2
    ensures Means(y)[1..] == Means(y[1..])
  {
    var h, h' := Means(y)[1..], Means(y[1..]);
    assert |h| == |h'|;
    forall i | 0 <= i < |h|
      ensures h[i] == h'[i]
    {
      assert h[i] == Means(y)[i + 1];
    }
  }

  lemma MulTail(a: seq<real>, b: seq<real>)
    requires |a| == |b| >= 1
    ensures Mul(a, b)[1..] == Mul(a[1..], b[1..])
  {
    var p, p' := Mul(a, b)[1..], Mul(a[1..], b[1..]);
    assert |p| == |p'|;
    forall i | 0 <= i < |p|
      ensures p[i] == p'[i]
    {
      assert p[i] == Mul(a, b)[i + 1];
    }
  }

  /** The adjacent-pair sum computed by `integrate` equals the recursive
      trapezoid definition. */
  lemma {:induction false} TrapezoidIsPairSum(x: seq<real>, y: seq<real>)
    requires |x| == |y|
    ensures Sum(Mul(Steps(x), Means(y))) == Trapezoid(x, y)
    decreases |x|
  {
    if |x| >= 2 {
      TrapezoidIsPairSum(x[1..], y[1..]);
      StepsTail(x);
      MeansTail(y);
      MulTail(Steps(x), Means(y));
      var p := Mul(Steps(x), Means(y));
      assert Sum(p) == p[0] + Sum(p[1..]);
    }
  }

  /** For a constant function the rule is exact: `c * (x_last - x_first)`. */
  lemma {:induction false} IntegrateConstant(x: seq<real>, c: real)
    requires |x| >= 1
    ensures Integrate(x, seq(|x|, _ => c)) == Some(c * (x[|x| - 1] - x[0]))
  {
    TrapezoidConstant(x, seq(|x|, _ => c), c);
  }

  lemma {:induction false} TrapezoidConstant(x: seq<real>, y: seq<real>, c: real)
    requires |x| == |y| >= 1
    requires forall i :: 0 <= i < |y| ==> y[i] == c
    ensures Trapezoid(x, y) == c * (x[|x| - 1] - x[0])
    decreases |x|
  {
    if |x| >= 2 {
      TrapezoidConstant(x[1..], y[1..], c);
      assert (x[1] - x[0]) * ((c + c) / 2.0) == c * (x[1] - x[0]);
    }
  }

  /** For the identity function the rule is exact too: the integral of `t`
      from `x_first` to `x_last`. */
  lemma {:induction false} TrapezoidLinearExact(x: seq<real>)
    requires |x| >= 1
    ensures Trapezoid(x, x) == (x[|x| - 1] * x[|x| - 1] - x[0] * x[0]) / 2.0
    decreases |x|
  {
    if |x| >= 2 {
      TrapezoidLinearExact(x[1..]);
      assert (x[1] - x[0]) * ((x[0] + x[1]) / 2.0) == (x[1] * x[1] - x[0] * x[0]) / 2.0;
    }
  }

  /** Scaling every summand scales the sum. */
  lemma {:induction false} SumScale(s: seq<real>, c: real)
    ensures Sum(seq(|s|, i requires 0 <= i < |s| => c * s[i])) == c * Sum(s)
    decreases |s|
  {
    if |s| > 0 {
      var t := seq(|s|, i requires 0 <= i < |s| => c * s[i]);
      var u := seq(|s| - 1, i requires 0 <= i < |s| - 1 => c * s[1..][i]);
      forall i | 0 <= i < |u|
        ensures t[1..][i] == u[i]
      {
      }
      assert t[1..] == u;
      SumScale(s[1..], c);
    }
  }

  /** Unfolding of `Steps`, `Means` and `Mul` one element at a time. */
  lemma StepsAt(x: seq<real>, i: nat)
    requires i + 1 < |x|
    ensures |Steps(x)| == |x| - 1 && Steps(x)[i] == x[i + 1] - x[i]
  {
  }

  lemma MeansAt(y: seq<real>, i: nat)
    requires i + 1 < |y|
    ensures |Means(y)| == |y| - 1 && Means(y)[i] == (y[i] + y[i + 1]) / 2.0
  {
  }

  /** Sample points `0, 1, ..., n - 1`. */
  function UnitGrid(n: nat): seq<real>
  {
    seq(n, i requires 0 <= i < n => i as real)
  }

  /** Unit spacing: every interval is 1 wide. */
  lemma {:induction false} UnitGridSteps(n: nat, i: nat)
    requires i + 1 < n
    ensures |Steps(UnitGrid(n))| == n - 1 && Steps(UnitGrid(n))[i] == 1.0
  {
    var g := UnitGrid(n);
    StepsAt(g, i);
    assert g[i + 1] == (i + 1) as real && g[i] == i as real;
  }

  /** The mean heights add up to the trapezoidal rule over unit spacing. */
  lemma {:induction false} SumMeansOnUnitGrid(y: seq<real>)
    ensures Sum(Means(y)) == Trapezoid(UnitGrid(|y|), y)
  {
    var g := UnitGrid(|y|);
    TrapezoidIsPairSum(g, y);
    if |y| >= 2 {
      var m := Means(y);
      var s := Steps(g);
      forall i | 0 <= i < |m|
        ensures Mul(s, m)[i] == m[i]
      {
        UnitGridSteps(|y|, i);
        assert s[i] == 1.0;
      }
      assert Mul(s, m) == m;
    }
  }

  /** `integrate` returns the sum of the broadcast products, whenever
      they exist. */
  lemma {:induction false} IntegrateIsProductSum(x: seq<real>, y: seq<real>)
    ensures BroadcastMul(Steps(x), Means(y)).Some? ==>
      Integrate(x, y) == Some(Sum(BroadcastMul(Steps(x), Means(y)).value))
  {
  }

  /** A single width against many heights scales each height. */
  lemma {:induction false} BroadcastWidth(w: real, m: seq<real>)
    requires |m| >= 1
    ensures BroadcastMul([w], m) == Some(seq(|m|, i requires 0 <= i < |m| => w * m[i]))
  {
    if |m| == 1 {
      var q := seq(|m|, i requires 0 <= i < |m| => w * m[i]);
      assert Mul([w], m)[0] == q[0];
      assert Mul([w], m) == q;
    }
  }

  /** Many widths against a single height scale each width. */
  lemma {:induction false} BroadcastHeight(d: seq<real>, h: real)
    requires |d| >= 1
    ensures BroadcastMul(d, [h]) == Some(seq(|d|, i requires 0 <= i < |d| => h * d[i]))
  {
    var q := seq(|d|, i requires 0 <= i < |d| => h * d[i]);
    if |d| == 1 {
      assert Mul(d, [h])[0] == q[0];
      assert Mul(d, [h]) == q;
    } else {
      var p := seq(|d|, i requires 0 <= i < |d| => d[i] * h);
      forall i | 0 <= i < |d|
        ensures p[i] == q[i]
      {
      }
      assert p == q;
    }
  }

  lemma {:induction false} IntegrateWidthTimesMeans(x: seq<real>, y: seq<real>)
    requires |x| == 2 && |y| >= 2
    ensures Integrate(x, y) == Some((x[1] - x[0]) * Sum(Means(y)))
  {
    var w := x[1] - x[0];
    var m := Means(y);
    StepsAt(x, 0);
    MeansAt(y, 0);
    assert Steps(x) == [w];
    var q := seq(|m|, i requires 0 <= i < |m| => w * m[i]);
    BroadcastWidth(w, m);
    IntegrateIsProductSum(x, y);
    assert Integrate(x, y) == Some(Sum(q));
    SumScale(m, w);
    assert Sum(q) == w * Sum(m);
    assert w * Sum(m) == (x[1] - x[0]) * Sum(Means(y));
  }

  /** Two sample points and more heights: the single interval width is
      broadcast, giving that width times the trapezoidal rule of `y` over
      unit spacing. */
  lemma {:induction false} IntegrateBroadcastWidth(x: seq<real>, y: seq<real>)
    requires |x| == 2 && |y| >= 2
    ensures Integrate(x, y) == Some((x[1] - x[0]) * Trapezoid(UnitGrid(|y|), y))
  {
    IntegrateWidthTimesMeans(x, y);
    SumMeansOnUnitGrid(y);
    assert (x[1] - x[0]) * Sum(Means(y)) == (x[1] - x[0]) * Trapezoid(UnitGrid(|y|), y);
  }

  /** More sample points and two heights: the single mean height is
      broadcast, giving that height times the whole width `x_last - x_first`. */
  lemma {:induction false} IntegrateBroadcastHeight(x: seq<real>, y: seq<real>)
    requires |x| >= 2 && |y| == 2
    ensures Integrate(x, y) == Some(((y[0] + y[1]) / 2.0) * (x[|x| - 1] - x[0]))
  {
    var h := (y[0] + y[1]) / 2.0;
    var d := Steps(x);
    var q := seq(|d|, i requires 0 <= i < |d| => h * d[i]);
    StepsAt(x, 0);
    MeansAt(y, 0);
    assert Means(y) == [h];
    BroadcastHeight(d, h);
    IntegrateIsProductSum(x, y);
    assert Integrate(x, y) == Some(Sum(q));
    SumScale(d, h);
    SumSteps(x);
    assert h * Sum(d) == ((y[0] + y[1]) / 2.0) * (x[|x| - 1] - x[0]);
  }

  /** The interval widths telescope to the whole width. */
  lemma {:induction false} SumSteps(x: seq<real>)
    requires |x| >= 1
    ensures Sum(Steps(x)) == x[|x| - 1] - x[0]
    decreases |x|
  {
    if |x| >= 2 {
      StepsAt(x, 0);
      StepsTail(x);
      SumSteps(x[1..]);
    }
  }

  /** `x` is "ordered from lowest to highest", as the doc comment requires. */
  predicate Ascending(x: seq<real>)
  {
    forall i, j :: 0 <= i < j < |x| ==> x[i] <= x[j]
  }

  /** Ascending sample points and a non-negative function give a
      non-negative integral. */
  lemma {:induction false} IntegrateNonNegative(x: seq<real>, y: seq<real>)
    requires |x| == |y|
    requires Ascending(x)
    requires forall i :: 0 <= i < |y| ==> y[i] >= 0.0
    ensures Integrate(x, y).Some? && Integrate(x, y).value >= 0.0
  {
    TrapezoidNonNegative(x, y);
  }

  lemma {:induction false} TrapezoidNonNegative(x: seq<real>, y: seq<real>)
    requires |x| == |y|
    requires Ascending(x)
    requires forall i :: 0 <= i < |y| ==> y[i] >= 0.0
    ensures Trapezoid(x, y) >= 0.0
    decreases |x|
  {
    if |x| >= 2 {
      TrapezoidNonNegative(x[1..], y[1..]);
      var w, h := x[1] - x[0], (y[0] + y[1]) / 2.0;
      assert w >= 0.0 && h >= 0.0;
      assert w * h >= 0.0;
    }
  }

  /** One ascending width broadcast over non-negative heights. */
  lemma {:induction false} BroadcastWidthNonNegative(x: seq<real>, y: seq<real>)
    requires |x| == 2 && |y| >= 2 && x[0] <= x[1]
    requires forall i :: 0 <= i < |y| ==> y[i] >= 0.0
    ensures Integrate(x, y).Some? && Integrate(x, y).value >= 0.0
  {
    var g := UnitGrid(|y|);
    assert Ascending(g);
    TrapezoidNonNegative(g, y);
    IntegrateBroadcastWidth(x, y);
    var w, t := x[1] - x[0], Trapezoid(g, y);
    assert w >= 0.0 && t >= 0.0;
    assert w * t >= 0.0;
  }

  /** One non-negative mean height broadcast over ascending widths. */
  lemma {:induction false} BroadcastHeightNonNegative(x: seq<real>, y: seq<real>)
    requires |x| >= 2 && |y| == 2 && x[0] <= x[|x| - 1]
    requires y[0] >= 0.0 && y[1] >= 0.0
    ensures Integrate(x, y).Some? && Integrate(x, y).value >= 0.0
  {
    IntegrateBroadcastHeight(x, y);
    var h, d := (y[0] + y[1]) / 2.0, x[|x| - 1] - x[0];
    assert h >= 0.0 && d >= 0.0;
    assert h * d >= 0.0;
  }

  /** Whatever the lengths, a result that exists is non-negative when the
      points ascend and the heights are non-negative: broadcasting one
      width or one mean height cannot make it negative. */
  lemma {:induction false} IntegrateNonNegativeAnyLength(x: seq<real>, y: seq<real>)
    requires Ascending(x)
    requires forall i :: 0 <= i < |y| ==> y[i] >= 0.0
    ensures Integrate(x, y).Some? ==> Integrate(x, y).value >= 0.0
  {
    if |x| == |y| {
      IntegrateNonNegative(x, y);
    } else if |x| < 2 || |y| < 2 {
    } else if |x| == 2 {
      BroadcastWidthNonNegative(x, y);
    } else if |y| == 2 {
      BroadcastHeightNonNegative(x, y);
    }
  }

  // ---------------------------------------------------------------------
  // get_avg_temp(data, year, month)

  /** One parsed table row: a year, a month and that month's daily readings. */
  datatype TempRecord = TempRecord(year: int, month: int, temp: seq<real>)

  /** Python truthiness of an optional integer argument: `None` and `0` are false. */
  predicate Truthy(o: Option<int>)
  {
    o.Some? && o.value != 0
  }

  /** The branch `get_avg_temp` takes for its `year` and `month` arguments. */
  datatype Selection = YearAndMonth(y: int, m: int) | MonthOnly(m: int) | YearOnly(y: int) | Everything

  /** The four-way dispatch: both truthy; `year is None` and `month`
      truthy; `year` truthy and `month is None`; otherwise everything.
      A zero argument is neither truthy nor `None`, so it reaches the last
      branch. */
  function Dispatch(year: Option<int>, month: Option<int>): Selection
  {
    if Truthy(year) && Truthy(month) then YearAndMonth(year.value, month.value)
    else if year.None? && Truthy(month) then MonthOnly(month.value)
    else if Truthy(year) && month.None? then YearOnly(year.value)
    else Everything
  }

  predicate Keeps(s: Selection, r: TempRecord)
  {
    match s
    case YearAndMonth(y, m) => r.year == y && r.month == m
    case MonthOnly(m) => r.month == m
    case YearOnly(y) => r.year == y
    case Everything => true
  }

  function Keeper(s: Selection): TempRecord -> bool
  {
    r => Keeps(s, r)
  }

  /** The records `get_avg_temp` averages over, in input order. */
  function SelectRecords(data: seq<TempRecord>, year: Option<int>, month: Option<int>): seq<TempRecord>
  {
    Filter(data, Keeper(Dispatch(year, month)))
  }

  /** Both filters set (and non-zero): exactly the records of that year and
      month, in input order. */
  lemma {:induction false} SelectBoth(data: seq<TempRecord>, y: int, m: int)
    requires y != 0 && m != 0
    ensures SelectRecords(data, Some(y), Some(m)) == Filter(data, (r: TempRecord) => r.year == y && r.month == m)
  {
    FilterCongruent(data, Keeper(YearAndMonth(y, m)), (r: TempRecord) => r.year == y && r.month == m);
  }

  /** Only a non-zero month set: exactly the records of that month, in input order. */
  lemma {:induction false} SelectMonthOnly(data: seq<TempRecord>, m: int)
    requires m != 0
    ensures SelectRecords(data, None, Some(m)) == Filter(data, (r: TempRecord) => r.month == m)
  {
    FilterCongruent(data, Keeper(MonthOnly(m)), (r: TempRecord) => r.month == m);
  }

  /** Only a non-zero year set: exactly the records of that year, in input order. */
  lemma {:induction false} SelectYearOnly(data: seq<TempRecord>, y: int)
    requires y != 0
    ensures SelectRecords(data, Some(y), None) == Filter(data, (r: TempRecord) => r.year == y)
  {
    FilterCongruent(data, Keeper(YearOnly(y)), (r: TempRecord) => r.year == y);
  }

  /** Neither set, or either one equal to 0: every record is used. */
  lemma {:induction false} SelectFallsThrough(data: seq<TempRecord>, year: Option<int>, month: Option<int>)
    requires (year.None? && month.None?) || year == Some(0) || month == Some(0)
    ensures SelectRecords(data, year, month) == data
    decreases |data|
  {
    if |data| > 0 {
      SelectFallsThrough(data[1..], year, month);
      assert data == [data[0]] + data[1..];
    }
  }

  /** The readings of the records in order (`np.concatenate` of their `temp`). */
  function Readings(records: seq<TempRecord>): seq<real>
  {
    if |records| == 0 then [] else records[0].temp + Readings(records[1..])
  }

  lemma {:induction false} ReadingsAppend(a: seq<TempRecord>, b: seq<TempRecord>)
    ensures Readings(a + b) == Readings(a) + Readings(b)
    decreases |a|
  {
    if |a| == 0 {
      assert a + b == b;
    } else {
      assert (a + b)[1..] == a[1..] + b;
      ReadingsAppend(a[1..], b);
    }
  }

  /** Reordering the records only reorders the readings. */
  lemma {:induction false} ReadingsPermutation(a: seq<TempRecord>, b: seq<TempRecord>)
    requires multiset(a) == multiset(b)
    ensures multiset(Readings(a)) == multiset(Readings(b))
    decreases |a|
  {
    if |a| == 0 {
      assert |multiset(b)| == 0;
    } else {
      var i := PermutationHead(a, b);
      ReadingsPermutation(a[1..], b[..i] + b[i + 1..]);
      ReadingsAppend(b[..i], b[i + 1..]);
      ReadingsAppend(b[..i] + [a[0]], b[i + 1..]);
      ReadingsAppend(b[..i], [a[0]]);
      assert Readings([a[0]]) == a[0].temp + [];
    }
  }

  /** Result of `sum / days`: a mean, Python's `ZeroDivisionError` (no
      record selected, so both accumulators are still the integer 0), or
      numpy's `nan` (records selected but none has a reading, so the sum
      is the float 0.0). */
  datatype Mean = Value(v: real) | ZeroDivision | NotANumber

  /** `get_avg_temp(data, year, month)` as a function of its inputs. */
  function AvgTemp(data: seq<TempRecord>, year: Option<int>, month: Option<int>): (m: Mean)
    ensures m.ZeroDivision? <==> |SelectRecords(data, year, month)| == 0
    ensures m.Value? <==> |Readings(SelectRecords(data, year, month))| > 0
  {
    var sel := SelectRecords(data, year, month);
    var readings := Readings(sel);
    if |sel| == 0 then ZeroDivision
    else if |readings| == 0 then NotANumber
    else Value(Sum(readings) / |readings| as real)
  }

  /** The accumulation loop of `get_avg_temp`: the running sum and count
      of readings, record by record. */
  method Accumulate(records: seq<TempRecord>) returns (total: real, days: nat)
    ensures total == Sum(Readings(records))
    ensures days == |Readings(records)|
  {
    total, days := 0.0, 0;
    var i := 0;
    while i < |records|
      invariant 0 <= i <= |records|
      invariant total == Sum(Readings(records[..i]))
      invariant days == |Readings(records[..i])|
    {
      ReadingsAppend(records[..i], [records[i]]);
      assert records[..i + 1] == records[..i] + [records[i]];
      assert Readings([records[i]]) == records[i].temp + [] == records[i].temp;
      SumAppend(Readings(records[..i]), records[i].temp);
      total := total + Sum(records[i].temp);
      days := days + |records[i].temp|;
      i := i + 1;
    }
    assert records[..i] == records;
  }

  /** `get_avg_temp`: select, accumulate, divide. The sum stays the integer
      0 until a record is seen, which decides between the two failures. */
  method GetAvgTemp(data: seq<TempRecord>, year: Option<int>, month: Option<int>) returns (m: Mean)
    ensures m == AvgTemp(data, year, month)
  {
    var filtered := SelectRecords(data, year, month);
    var total, days := Accumulate(filtered);
    if days == 0 {
      m := if |filtered| > 0 then NotANumber else ZeroDivision;
    } else {
      m := Value(total / days as real);
    }
  }

  lemma SelectionPermutation(data: seq<TempRecord>, data': seq<TempRecord>, keep: TempRecord -> bool)
    requires multiset(data) == multiset(data')
    ensures multiset(Filter(data, keep)) == multiset(Filter(data', keep))
  {
    FilterMultiset(data, keep);
    FilterMultiset(data', keep);
  }

  /** The result depends only on the multiset of records, not their order. */
  lemma AvgTempOrderIndependent(data: seq<TempRecord>, data': seq<TempRecord>, year: Option<int>, month: Option<int>)
    requires multiset(data) == multiset(data')
    ensures AvgTemp(data, year, month) == AvgTemp(data', year, month)
  {
    var sel, sel' := SelectRecords(data, year, month), SelectRecords(data', year, month);
    SelectionPermutation(data, data', Keeper(Dispatch(year, month)));
    assert |sel| == |multiset(sel)| == |sel'|;
    ReadingsPermutation(sel, sel');
    var rs, rs' := Readings(sel), Readings(sel');
    assert |rs| == |multiset(rs)| == |rs'|;
    SumPermutation(rs, rs');
  }

  /** The mean of readings in [lo, hi] lies in [lo, hi]. */
  lemma MeanOfBoundedReadings(rs: seq<real>, lo: real, hi: real)
    requires |rs| > 0
    requires forall i :: 0 <= i < |rs| ==> lo <= rs[i] <= hi
    ensures lo <= Sum(rs) / |rs| as real <= hi
  {
    SumBounds(rs, lo, hi);
    var n := |rs| as real;
    assert (Sum(rs) / n) * n == Sum(rs);
  }

  /** A mean lies between the smallest and the largest selected reading. */
  lemma AvgTempWithinBounds(data: seq<TempRecord>, year: Option<int>, month: Option<int>, lo: real, hi: real)
    requires forall i :: 0 <= i < |Readings(SelectRecords(data, year, month))| ==>
               lo <= Readings(SelectRecords(data, year, month))[i] <= hi
    ensures AvgTemp(data, year, month).Value? ==> lo <= AvgTemp(data, year, month).v <= hi
  {
    var rs := Readings(SelectRecords(data, year, month));
    if |rs| > 0 {
      MeanOfBoundedReadings(rs, lo, hi);
    }
  }
}
