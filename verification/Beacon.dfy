/**
 * Beacon detection: the coefficient of variation of connection intervals, compared by squares,
 * and the per-stream cooldown.
 */
module Beacon {
  import opened Options
  import opened Multiples

  const MIN_SAMPLES := 4
  const MAX_TIMESTAMPS := 20

  /** The last arrivals of one (pid, address) stream and the time it was last reported. */
  datatype Stream = Stream(timestamps: seq<real>, lastSignal: real)

  type StreamId = (int, string)

  /** Appends to a bounded deque: the oldest entry leaves when it is full. */
  function Pushed(ts: seq<real>, t: real): (r: seq<real>)
    ensures |ts| <= MAX_TIMESTAMPS ==> |r| <= MAX_TIMESTAMPS
    ensures r != [] && r[|r| - 1] == t
  {
    if |ts| < MAX_TIMESTAMPS then ts + [t] else ts[1..] + [t]
  }

  predicate Counts(dt: real) {
    0.1 <= dt <= 900.0
  }

  /** The intervals between neighbours that count: no clock skew, no huge gaps. */
  function Counted(ts: seq<real>): (r: seq<real>)
    ensures forall i :: 0 <= i < |r| ==> Counts(r[i])
  {
    if |ts| < 2 then []
    else
      var n := |ts| - 1;
      Counted(ts[..n]) + if Counts(ts[n] - ts[n - 1]) then [ts[n] - ts[n - 1]] else []
  }

  function Sum(xs: seq<real>): real {
    if xs == [] then 0.0 else Sum(xs[..|xs| - 1]) + xs[|xs| - 1]
  }

  function Squares(xs: seq<real>, m: real): (r: seq<real>)
    ensures |r| == |xs|
  {
    seq(|xs|, i requires 0 <= i < |xs| => (xs[i] - m) * (xs[i] - m))
  }

  /** Sum of squared deviations from `m`. */
  function Deviation(xs: seq<real>, m: real): real {
    Sum(Squares(xs, m))
  }

  function Mean(xs: seq<real>): real
    requires xs != []
  {
    Sum(xs) / |xs| as real
  }

  function Variance(xs: seq<real>): real
    requires xs != []
  {
    Deviation(xs, Mean(xs)) / |xs| as real
  }

  /** Enough samples, and enough of them counted, to speak of a period. */
  predicate Measurable(ts: seq<real>) {
    |ts| >= MIN_SAMPLES && |Counted(ts)| >= MIN_SAMPLES - 1
  }

  /** std / mean <= theta, without the square root; the mean of counted intervals is positive. */
  predicate LowVariation(xs: seq<real>, theta: real)
    requires xs != []
  {
    theta >= 0.0 && Variance(xs) <= (theta * Mean(xs)) * (theta * Mean(xs))
  }

  // ---------- What is measured ----------

  /** The interval that ends at arrival `i`, when it is between a tenth of a second and a quarter of an hour. */
  predicate CountsAt(ts: seq<real>, i: nat)
    requires 0 < i < |ts|
  {
    0.1 <= ts[i] - ts[i - 1] <= 900.0
  }

  /** Where an interval of that length ends that counts. */
  function EndsOf(ts: seq<real>, x: real): set<nat> {
    set i: nat | 0 < i < |ts| && CountsAt(ts, i) && ts[i] - ts[i - 1] == x
  }

  lemma EndsNext(ts: seq<real>, x: real)
    requires |ts| >= 2
    ensures var n := |ts| - 1;
            |EndsOf(ts, x)| == |EndsOf(ts[..n], x)| + if CountsAt(ts, n) && ts[n] - ts[n - 1] == x then 1 else 0
  {
    var n := |ts| - 1;
    var more: set<nat> := if CountsAt(ts, n) && ts[n] - ts[n - 1] == x then {n} else {};
    assert EndsOf(ts, x) == EndsOf(ts[..n], x) + more;
  }

  /** Exactly those intervals count, each as often as it occurs. */
  lemma {:induction false} CountedIs(ts: seq<real>, x: real)
    ensures multiset(Counted(ts))[x] == |EndsOf(ts, x)|
  {
    if |ts| < 2 {
      assert EndsOf(ts, x) == {};
    } else {
      var n := |ts| - 1;
      CountedIs(ts[..n], x);
      EndsNext(ts, x);
      AddOne(Counted(ts[..n]), ts[n] - ts[n - 1], x);
    }
  }

  lemma AddOne(xs: seq<real>, y: real, x: real)
    ensures multiset(xs + [y])[x] == multiset(xs)[x] + if x == y then 1 else 0
    ensures xs + [] == xs
  {
  }

  lemma Quotient(s: real, n: real, m: real)
    requires n > 0.0 && m * n == s
    ensures s / n == m
  {
  }

  lemma MeanIs(xs: seq<real>, mean: real)
    requires xs != [] && (forall i :: 0 <= i < |xs| ==> Counts(xs[i])) && mean * |xs| as real == Sum(xs)
    ensures Mean(xs) == mean > 0.0
  {
    Quotient(Sum(xs), |xs| as real, mean);
    MeanWithin(xs, 0.1, 900.0);
  }

  lemma VarianceIs(xs: seq<real>, mean: real, v: real)
    requires xs != [] && Mean(xs) == mean && v * |xs| as real == Sum(Squares(xs, mean))
    ensures Variance(xs) == v
  {
    Quotient(Sum(Squares(xs, mean)), |xs| as real, v);
  }

  lemma RatioIff(std: real, mean: real, theta: real)
    requires std >= 0.0 && mean > 0.0 && theta >= 0.0
    ensures std * std <= (theta * mean) * (theta * mean) <==> std / mean <= theta
  {
    NonNegative(theta, mean);
    SquareIff(std, theta * mean);
    DivideIff(std, mean, theta);
  }

  lemma DivideIff(v: real, n: real, bound: real)
    requires n > 0.0
    ensures v / n <= bound <==> v <= bound * n
  {
    DivideBy(v, n, bound);
    MeanTimesCount(v, n);
    if v / n <= bound {
      ScaleUp(v / n, bound, n);
    }
  }

  /**
   * The test is the one documented: with `mean` the mean of the intervals and `std` the square root
   * of their mean squared deviation from it, it passes exactly when std / mean is at most the threshold.
   */
  lemma LowVariationIff(xs: seq<real>, theta: real, mean: real, std: real)
    requires xs != [] && (forall i :: 0 <= i < |xs| ==> Counts(xs[i])) && theta >= 0.0
    requires mean * |xs| as real == Sum(xs)
    requires std >= 0.0 && (std * std) * |xs| as real == Sum(Squares(xs, mean))
    ensures mean > 0.0 && (LowVariation(xs, theta) <==> std / mean <= theta)
  {
    hide Counts, Mean, Squares, Sum;
    MeanIs(xs, mean);
    VarianceIs(xs, mean, std * std);
    RatioIff(std, mean, theta);
  }

  lemma SquareIff(u: real, v: real)
    requires u >= 0.0 && v >= 0.0
    ensures u * u <= v * v <==> u <= v
  {
    if u <= v {
      SquareLe(u, v);
    } else {
      SquareLt(v, u);
    }
  }

  lemma SquareLt(u: real, v: real)
    requires 0.0 <= u < v
    ensures u * u < v * v
  {
    var d, t := v - u, v + u;
    assert d * t > 0.0;
    assert d * t == v * v - u * u;
  }

  // ---------- How tight intervals bound the variation ----------

  predicate Within(xs: seq<real>, a: real, b: real) {
    forall i :: 0 <= i < |xs| ==> a <= xs[i] <= b
  }

  lemma {:induction false} SumBounds(xs: seq<real>, a: real, b: real)
    requires Within(xs, a, b)
    ensures a * |xs| as real <= Sum(xs) <= b * |xs| as real
  {
    if xs != [] {
      var n := |xs| - 1;
      SumBounds(xs[..n], a, b);
      assert a * |xs| as real == a * n as real + a;
      assert b * |xs| as real == b * n as real + b;
    }
  }

  lemma NonNegative(x: real, y: real)
    requires x >= 0.0 && y >= 0.0
    ensures x * y >= 0.0
  {
  }

  lemma ScaleUp(x: real, y: real, z: real)
    requires x <= y && z >= 0.0
    ensures x * z <= y * z
  {
    NonNegative(y - x, z);
    assert (y - x) * z == y * z - x * z;
  }

  lemma {:induction false} SumsLe(xs: seq<real>, ys: seq<real>, zs: seq<real>)
    requires |xs| == |ys| == |zs| && forall i :: 0 <= i < |xs| ==> xs[i] + ys[i] <= zs[i]
    ensures Sum(xs) + Sum(ys) <= Sum(zs)
  {
    if xs != [] {
      var n := |xs| - 1;
      SumsLe(xs[..n], ys[..n], zs[..n]);
    }
  }

  lemma {:induction false} SumAtMost(xs: seq<real>, k: real)
    requires forall i :: 0 <= i < |xs| ==> xs[i] <= k
    ensures Sum(xs) <= Times(|xs|, k)
  {
    if xs != [] {
      SumAtMost(xs[..|xs| - 1], k);
    }
  }

  function Scaled(xs: seq<real>, e: real): (r: seq<real>)
    ensures |r| == |xs|
  {
    seq(|xs|, i requires 0 <= i < |xs| => e * xs[i])
  }

  lemma {:induction false} SumScaled(xs: seq<real>, e: real, ys: seq<real>)
    requires |ys| == |xs| && forall i :: 0 <= i < |xs| ==> ys[i] == e * xs[i]
    ensures Sum(ys) == e * Sum(xs)
  {
    if xs != [] {
      var n := |xs| - 1;
      SumScaled(xs[..n], e, ys[..n]);
      Distribute(e, Sum(xs[..n]), xs[n]);
    }
  }

  /** The deviations from `m`, with their signs. */
  function Excess(xs: seq<real>, m: real): (r: seq<real>)
    ensures |r| == |xs|
  {
    seq(|xs|, i requires 0 <= i < |xs| => xs[i] - m)
  }

  lemma {:induction false} SumExcess(xs: seq<real>, m: real, ys: seq<real>)
    requires |ys| == |xs| && forall i :: 0 <= i < |xs| ==> ys[i] == xs[i] - m
    ensures Sum(ys) == Sum(xs) - Times(|xs|, m)
  {
    if xs != [] {
      var n := |xs| - 1;
      SumExcess(xs[..n], m, ys[..n]);
    }
  }

  /** Around the mean the signed deviations cancel out. */
  lemma ExcessAtMean(xs: seq<real>, e: real)
    requires xs != []
    ensures Sum(Scaled(Excess(xs, Mean(xs)), e)) == 0.0
  {
    var excess := Excess(xs, Mean(xs));
    SumExcess(xs, Mean(xs), excess);
    TimesIsProduct(|xs|, Mean(xs));
    MeanTimesCount(Sum(xs), |xs| as real);
    SumScaled(excess, e, Scaled(excess, e));
  }

  lemma ShiftOne(x: real, h: real, m: real, e: real)
    requires e == 2.0 * (m - h)
    ensures (x - m) * (x - m) + e * (x - m) <= (x - h) * (x - h)
  {
    Square(m - h);
    assert (x - h) * (x - h) == (x - m) * (x - m) + 2.0 * (m - h) * (x - m) + (m - h) * (m - h);
  }

  lemma Square(x: real)
    ensures x * x >= 0.0
  {
  }

  /** Of all points, the mean has the smallest squared deviations. */
  lemma MeanIsBest(xs: seq<real>, h: real)
    requires xs != []
    ensures Deviation(xs, Mean(xs)) <= Deviation(xs, h)
  {
    var m := Mean(xs);
    var e := 2.0 * (m - h);
    Shift(xs, h, m, e);
    ExcessAtMean(xs, e);
  }

  lemma Shift(xs: seq<real>, h: real, m: real, e: real)
    requires e == 2.0 * (m - h)
    ensures Sum(Squares(xs, m)) + Sum(Scaled(Excess(xs, m), e)) <= Sum(Squares(xs, h))
  {
    forall i | 0 <= i < |xs|
      ensures Squares(xs, m)[i] + Scaled(Excess(xs, m), e)[i] <= Squares(xs, h)[i]
    {
      ShiftAt(xs, h, m, e, i);
    }
    SumsLe(Squares(xs, m), Scaled(Excess(xs, m), e), Squares(xs, h));
  }

  lemma ShiftAt(xs: seq<real>, h: real, m: real, e: real, i: nat)
    requires e == 2.0 * (m - h) && i < |xs|
    ensures Squares(xs, m)[i] + Scaled(Excess(xs, m), e)[i] <= Squares(xs, h)[i]
  {
    ShiftOne(xs[i], h, m, e);
    assert Excess(xs, m)[i] == xs[i] - m;
  }

  /** The squared distance is at most that. */
  predicate Near(x: real, m: real, k: real) {
    (x - m) * (x - m) <= k
  }

  lemma OneDeviation(x: real, a: real, b: real)
    requires a <= x <= b
    ensures Near(x, (a + b) / 2.0, HalfRange(a, b))
  {
    var d := x - (a + b) / 2.0;
    if d >= 0.0 {
      SquareLe(d, (b - a) / 2.0);
    } else {
      SquareLe(-d, (b - a) / 2.0);
      assert (-d) * (-d) == d * d;
    }
  }

  /** The square of half the range. */
  function HalfRange(a: real, b: real): real {
    ((b - a) / 2.0) * ((b - a) / 2.0)
  }

  lemma DeviationAtMost(xs: seq<real>, m: real, k: real)
    requires forall i :: 0 <= i < |xs| ==> Near(xs[i], m, k)
    ensures Deviation(xs, m) <= Times(|xs|, k)
  {
    var squares := Squares(xs, m);
    forall i | 0 <= i < |squares| ensures squares[i] <= k {
      assert Near(xs[i], m, k);
    }
    SumAtMost(squares, k);
  }

  lemma DeviationFromMiddle(xs: seq<real>, a: real, b: real)
    requires Within(xs, a, b)
    ensures Deviation(xs, (a + b) / 2.0) <= Times(|xs|, HalfRange(a, b))
  {
    hide Near, HalfRange, Deviation, Times;
    var m := (a + b) / 2.0;
    forall i | 0 <= i < |xs| ensures Near(xs[i], m, HalfRange(a, b)) {
      OneDeviation(xs[i], a, b);
    }
    DeviationAtMost(xs, m, HalfRange(a, b));
  }

  lemma MeanWithin(xs: seq<real>, a: real, b: real)
    requires xs != [] && Within(xs, a, b)
    ensures a <= Mean(xs) <= b
  {
    SumBounds(xs, a, b);
    DivideBy(Sum(xs), |xs| as real, a);
    DivideBy(Sum(xs), |xs| as real, b);
  }

  lemma AtMostAverage(dev: real, n: nat, k: real)
    requires n > 0 && dev <= Times(n, k)
    ensures dev / n as real <= k
  {
    TimesIsProduct(n, k);
    DivideBy(dev, n as real, k);
  }

  /** Popoviciu's inequality: the variance of values between `a` and `b` is at most a quarter of the squared range. */
  lemma VarianceBound(xs: seq<real>, a: real, b: real)
    requires xs != [] && Within(xs, a, b)
    ensures Variance(xs) <= HalfRange(a, b)
  {
    MeanIsBest(xs, (a + b) / 2.0);
    DeviationFromMiddle(xs, a, b);
    AtMostAverage(Deviation(xs, Mean(xs)), |xs|, HalfRange(a, b));
  }

  lemma MeanTimesCount(s: real, n: real)
    requires n > 0.0
    ensures (s / n) * n == s
  {
  }

  lemma DivideBy(v: real, n: real, bound: real)
    requires n > 0.0
    ensures v <= bound * n ==> v / n <= bound
    ensures bound * n <= v ==> bound <= v / n
  {
    var q := v / n;
    assert q * n == v;
    if bound < q {
      StrictScale(bound, q, n);
    } else if q < bound {
      StrictScale(q, bound, n);
    }
  }

  lemma StrictScale(x: real, y: real, z: real)
    requires x < y && z > 0.0
    ensures x * z < y * z
  {
    assert (y - x) * z > 0.0;
    assert (y - x) * z == y * z - x * z;
  }

  lemma SquareLe(u: real, v: real)
    requires 0.0 <= u <= v
    ensures u * u <= v * v
  {
    ScaleUp(u, v, u);
    ScaleUp(u, v, v);
    assert u * v == v * u;
  }

  lemma RangeUnder(a: real, b: real, theta: real, m: real)
    requires 0.0 < a <= m && a <= b && theta >= 0.0 && b - a <= 2.0 * theta * a
    ensures HalfRange(a, b) <= (theta * m) * (theta * m)
  {
    ScaleUp(a, m, theta);
    assert a * theta == theta * a && m * theta == theta * m;
    SquareLe((b - a) / 2.0, theta * m);
  }

  /** Intervals spread by at most twice theta times their lower bound always look like a beacon. */
  lemma TightIntervalsVaryLittle(xs: seq<real>, a: real, b: real, theta: real)
    requires xs != [] && Within(xs, a, b) && a > 0.0 && theta >= 0.0
    requires b - a <= 2.0 * theta * a
    ensures LowVariation(xs, theta)
  {
    MeanWithin(xs, a, b);
    VarianceBound(xs, a, b);
    RangeUnder(a, b, theta, Mean(xs));
  }

  /** Neighbours are between `a` and `b` apart. */
  predicate Steady(ts: seq<real>, a: real, b: real) {
    forall i :: 0 < i < |ts| ==> a <= ts[i] - ts[i - 1] <= b
  }

  lemma {:induction false} SteadyIntervals(ts: seq<real>, a: real, b: real)
    requires Steady(ts, a, b) && Counts(a) && Counts(b)
    ensures |Counted(ts)| == (if ts == [] then 0 else |ts| - 1) && Within(Counted(ts), a, b)
  {
    if |ts| >= 2 {
      SteadyIntervals(ts[..|ts| - 1], a, b);
    }
  }

  /** Four or more arrivals at steady intervals always pass the test, so they are reported outside the cooldown. */
  lemma SteadyStreamIsPeriodic(ts: seq<real>, a: real, b: real, theta: real)
    requires |ts| >= MIN_SAMPLES && Steady(ts, a, b) && Counts(a) && Counts(b)
    requires theta >= 0.0 && b - a <= 2.0 * theta * a
    ensures Measurable(ts) && LowVariation(Counted(ts), theta)
  {
    SteadyIntervals(ts, a, b);
    TightIntervalsVaryLittle(Counted(ts), a, b, theta);
  }

  /** Equal intervals have no variation at all, so they are reported at every non-negative threshold. */
  lemma PerfectPeriod(xs: seq<real>, period: real, theta: real)
    requires xs != [] && Within(xs, period, period) && period > 0.0 && theta >= 0.0
    ensures Mean(xs) == period && Variance(xs) <= 0.0 && LowVariation(xs, theta)
  {
    MeanWithin(xs, period, period);
    VarianceBound(xs, period, period);
    NonNegative(2.0 * theta, period);
    TightIntervalsVaryLittle(xs, period, period, theta);
  }

  // ---------- A stream over a run of arrivals ----------

  const NEW := Stream([], 0.0)

  /** What one arrival makes of its stream, and whether it is reported. */
  function StreamStep(s: Stream, now: real, theta: real, cooldown: real): (Stream, bool) {
    var g := s.(timestamps := Pushed(s.timestamps, now));
    if now - g.lastSignal >= cooldown && Measurable(g.timestamps) && LowVariation(Counted(g.timestamps), theta)
    then (g.(lastSignal := now), true) else (g, false)
  }

  function RunStream(times: seq<real>, theta: real, cooldown: real): Stream {
    if times == [] then NEW
    else StreamStep(RunStream(times[..|times| - 1], theta, cooldown), times[|times| - 1], theta, cooldown).0
  }

  /** The `i`th arrival is reported. */
  predicate ReportsAt(times: seq<real>, theta: real, cooldown: real, i: nat)
    requires i < |times|
  {
    StreamStep(RunStream(times[..i], theta, cooldown), times[i], theta, cooldown).1
  }

  /** The last arrivals of a run, as many as the deque holds. */
  function Newest(times: seq<real>): seq<real> {
    if |times| <= MAX_TIMESTAMPS then times else times[|times| - MAX_TIMESTAMPS..]
  }

  /** The bounded deque always holds the newest arrivals. */
  lemma {:induction false} DequeIsNewest(times: seq<real>, theta: real, cooldown: real)
    ensures RunStream(times, theta, cooldown).timestamps == Newest(times)
  {
    hide RunStream, Newest, Pushed;
    if times == [] {
      NothingYet(theta, cooldown);
    } else {
      var before, t := times[..|times| - 1], times[|times| - 1];
      DequeIsNewest(before, theta, cooldown);
      assert before + [t] == times;
      StepPushes(before, t, theta, cooldown);
      PushedNewest(before, t);
    }
  }

  lemma NothingYet(theta: real, cooldown: real)
    ensures RunStream([], theta, cooldown).timestamps == Newest([]) == []
  {
  }

  lemma StepPushes(before: seq<real>, t: real, theta: real, cooldown: real)
    ensures RunStream(before + [t], theta, cooldown).timestamps == Pushed(RunStream(before, theta, cooldown).timestamps, t)
  {
    hide Measurable, LowVariation, Pushed;
    assert (before + [t])[..|before|] == before;
  }

  lemma PushedNewest(times: seq<real>, t: real)
    ensures Pushed(Newest(times), t) == Newest(times + [t])
  {
  }

  lemma SteadyNewest(times: seq<real>, a: real, b: real)
    requires Steady(times, a, b)
    ensures Steady(Newest(times), a, b)
  {
    var k := |times| - |Newest(times)|;
    forall i | 0 < i < |Newest(times)| ensures a <= Newest(times)[i] - Newest(times)[i - 1] <= b {
      assert Newest(times)[i] == times[k + i] && Newest(times)[i - 1] == times[k + i - 1];
    }
  }

  /** When a steady stream was last reported: from its fourth arrival on, whenever the cooldown allows. */
  function LastDue(times: seq<real>, cooldown: real): real {
    if times == [] then 0.0
    else
      var last, t := LastDue(times[..|times| - 1], cooldown), times[|times| - 1];
      if |times| >= MIN_SAMPLES && t - last >= cooldown then t else last
  }

  /**
   * A steady run of arrivals is reported at exactly its fourth arrival and the later ones that
   * lie outside the cooldown, however long it goes on.
   */
  lemma {:induction false} SteadyRunIsReported(times: seq<real>, a: real, b: real, theta: real, cooldown: real)
    requires Steady(times, a, b) && Counts(a) && Counts(b) && theta >= 0.0 && b - a <= 2.0 * theta * a
    ensures RunStream(times, theta, cooldown).lastSignal == LastDue(times, cooldown)
    ensures times != [] ==>
              var n := |times| - 1;
              ReportsAt(times, theta, cooldown, n) <==> n >= 3 && times[n] - LastDue(times[..n], cooldown) >= cooldown
  {
    if times != [] {
      var n := |times| - 1;
      SteadyRunIsReported(times[..n], a, b, theta, cooldown);
      SteadyArrival(times, a, b, theta, cooldown);
    }
  }

  /** What is tested at the last arrival. */
  lemma TestedAt(times: seq<real>, theta: real, cooldown: real)
    requires times != []
    ensures var n := |times| - 1;
            ReportsAt(times, theta, cooldown, n) <==>
              && times[n] - RunStream(times[..n], theta, cooldown).lastSignal >= cooldown
              && Measurable(Newest(times)) && LowVariation(Counted(Newest(times)), theta)
  {
    var n := |times| - 1;
    DequeIsNewest(times[..n], theta, cooldown);
    PushedNewest(times[..n], times[n]);
    assert times[..n] + [times[n]] == times;
  }

  /** Which arrivals of a run are reported. */
  function Reports(times: seq<real>, theta: real, cooldown: real): (r: seq<bool>)
    ensures |r| == |times|
  {
    seq(|times|, i requires 0 <= i < |times| => ReportsAt(times, theta, cooldown, i))
  }

  /** The last report so far: that of a reported arrival with none reported after it, or the epoch. */
  predicate LastReported(times: seq<real>, reports: seq<bool>, last: real)
    requires |times| == |reports|
  {
    || (last == 0.0 && forall i :: 0 <= i < |times| ==> !reports[i])
    || exists i :: 0 <= i < |times| && NewestReport(reports, i) && times[i] == last
  }

  predicate NewestReport(reports: seq<bool>, i: nat)
    requires i < |reports|
  {
    reports[i] && forall j :: i < j < |reports| ==> !reports[j]
  }

  lemma LastReportedNext(times: seq<real>, reports: seq<bool>, last: real)
    requires |times| == |reports| > 0
    requires LastReported(times[..|times| - 1], reports[..|times| - 1], last)
    ensures var n := |times| - 1; LastReported(times, reports, if reports[n] then times[n] else last)
  {
    var n := |times| - 1;
    if reports[n] {
      assert NewestReport(reports, n);
    } else if i :| 0 <= i < n && NewestReport(reports[..n], i) && times[..n][i] == last {
      forall j | i < j < |reports| ensures !reports[j] {
        assert j < n ==> reports[j] == reports[..n][j];
      }
      assert NewestReport(reports, i);
    } else {
      forall j | 0 <= j < n ensures !reports[j] {
        assert reports[j] == reports[..n][j];
      }
    }
  }

  lemma ReportsInFront(times: seq<real>, theta: real, cooldown: real, i: nat)
    requires i + 1 < |times|
    ensures ReportsAt(times[..|times| - 1], theta, cooldown, i) == ReportsAt(times, theta, cooldown, i)
  {
    assert times[..|times| - 1][..i] == times[..i];
  }

  lemma ReportsNext(times: seq<real>, theta: real, cooldown: real)
    requires times != []
    ensures var n := |times| - 1;
            && Reports(times, theta, cooldown)[..n] == Reports(times[..n], theta, cooldown)
            && RunStream(times, theta, cooldown).lastSignal ==
               if Reports(times, theta, cooldown)[n] then times[n] else RunStream(times[..n], theta, cooldown).lastSignal
  {
    var n := |times| - 1;
    forall i | 0 <= i < n ensures Reports(times[..n], theta, cooldown)[i] == Reports(times, theta, cooldown)[i] {
      ReportsInFront(times, theta, cooldown, i);
    }
  }

  lemma {:induction false} LastSignalIs(times: seq<real>, theta: real, cooldown: real)
    ensures LastReported(times, Reports(times, theta, cooldown), RunStream(times, theta, cooldown).lastSignal)
  {
    if times != [] {
      var n := |times| - 1;
      LastSignalIs(times[..n], theta, cooldown);
      ReportsNext(times, theta, cooldown);
      LastReportedNext(times, Reports(times, theta, cooldown), RunStream(times[..n], theta, cooldown).lastSignal);
    }
  }

  /**
   * The law of a stream, over any run of arrivals: the newest is reported exactly when it is at
   * least the fourth, three or more of the last intervals count, they are regular enough, and the
   * last report is a cooldown ago.
   */
  lemma ReportedIff(times: seq<real>, theta: real, cooldown: real, mean: real, std: real)
    requires times != [] && theta >= 0.0
    requires var xs := Counted(if |times| <= 20 then times else times[|times| - 20..]);
             xs != [] ==> mean * |xs| as real == Sum(xs) && std >= 0.0 && (std * std) * |xs| as real == Sum(Squares(xs, mean))
    ensures var n := |times| - 1;
            var xs := Counted(if |times| <= 20 then times else times[|times| - 20..]);
            ReportsAt(times, theta, cooldown, n) <==>
              && n >= 3 && |xs| >= 3
              && std <= theta * mean
              && times[n] - RunStream(times[..n], theta, cooldown).lastSignal >= cooldown
  {
    TestedAt(times, theta, cooldown);
    var xs := Counted(Newest(times));
    if xs != [] {
      LowVariationIff(xs, theta, mean, std);
      DivideIff(std, mean, theta);
    }
  }

  /** An instance: four arrivals 1, 1 and 10 seconds apart are not regular enough for the default threshold. */
  lemma IrregularIsNot(cooldown: real)
    ensures !ReportsAt([100.0, 101.0, 102.0, 112.0], 0.2, cooldown, 3)
  {
    TestedAt([100.0, 101.0, 102.0, 112.0], 0.2, cooldown);
    CountedFour(100.0, 101.0, 102.0, 112.0);
    Scattered();
  }

  lemma CountedFour(a: real, b: real, c: real, d: real)
    requires Counts(b - a) && Counts(c - b) && Counts(d - c)
    ensures Counted([a, b, c, d]) == [b - a, c - b, d - c]
  {
    assert [a, b, c, d][..3] == [a, b, c] && [a, b, c][..2] == [a, b] && [a, b][..1] == [a];
    assert Counted([a, b]) == Counted([a]) + [b - a] == [b - a];
    assert Counted([a, b, c]) == [b - a] + [c - b] == [b - a, c - b];
    assert Counted([a, b, c, d]) == [b - a, c - b] + [d - c];
  }

  lemma Three(x: real, y: real, z: real)
    ensures Sum([x, y, z]) == x + y + z
  {
    assert [x, y, z][..2] == [x, y] && [x, y][..1] == [x] && [x][..0] == [];
    assert Sum([x]) == x && Sum([x, y]) == x + y;
  }

  lemma Scattered()
    ensures !LowVariation([1.0, 1.0, 10.0], 0.2)
  {
    var xs := [1.0, 1.0, 10.0];
    Three(1.0, 1.0, 10.0);
    assert Mean(xs) == 4.0;
    assert Squares(xs, 4.0) == [9.0, 9.0, 36.0];
    Three(9.0, 9.0, 36.0);
    assert Variance(xs) == 18.0;
  }

  /** What the test says at the last arrival of a steady run. */
  lemma SteadyArrival(times: seq<real>, a: real, b: real, theta: real, cooldown: real)
    requires times != [] && Steady(times, a, b) && Counts(a) && Counts(b) && theta >= 0.0 && b - a <= 2.0 * theta * a
    ensures var n := |times| - 1;
            ReportsAt(times, theta, cooldown, n) <==>
              n >= 3 && times[n] - RunStream(times[..n], theta, cooldown).lastSignal >= cooldown
  {
    TestedAt(times, theta, cooldown);
    SteadyNewest(times, a, b);
    if |times| >= MIN_SAMPLES {
      SteadyStreamIsPeriodic(Newest(times), a, b, theta);
    }
  }

  // ---------- Reports over a run ----------

  datatype Entry = Reported(id: StreamId, time: real) | Forgotten(pid: int)

  /** When a stream was last reported, since its process was last forgotten. */
  function LastReport(log: seq<Entry>, id: StreamId): Option<real> {
    if log == [] then None
    else
      match log[|log| - 1]
      case Reported(i, t) => if i == id then Some(t) else LastReport(log[..|log| - 1], id)
      case Forgotten(p) => if p == id.0 then None else LastReport(log[..|log| - 1], id)
  }

  predicate Spaced(log: seq<Entry>, cooldown: real) {
    log == [] ||
    var before, last := log[..|log| - 1], log[|log| - 1];
    && Spaced(before, cooldown)
    && (last.Reported? ==>
          match LastReport(before, last.id)
          case None => true
          case Some(t) => last.time - t >= cooldown)
  }

  lemma {:induction false} SpacedPrefix(log: seq<Entry>, cooldown: real, n: nat)
    requires Spaced(log, cooldown) && n <= |log|
    ensures Spaced(log[..n], cooldown)
  {
    if n == |log| {
      assert log[..n] == log;
    } else {
      SpacedPrefix(log[..|log| - 1], cooldown, n);
      assert log[..|log| - 1][..n] == log[..n];
    }
  }

  lemma {:induction false} LastReportAfter(log: seq<Entry>, cooldown: real, i: nat, j: nat)
    requires Spaced(log, cooldown) && cooldown >= 0.0 && i < j <= |log| && log[i].Reported?
    requires forall k :: i < k < j && log[k].Forgotten? ==> log[k].pid != log[i].id.0
    ensures var r := LastReport(log[..j], log[i].id); r.Some? && r.value >= log[i].time
  {
    assert log[..j][..j - 1] == log[..j - 1];
    SpacedPrefix(log, cooldown, j);
    if j > i + 1 {
      LastReportAfter(log, cooldown, i, j - 1);
    }
  }

  /** Two reports of one stream are at least the cooldown apart unless its process was forgotten between them. */
  lemma ReportsAreSpaced(log: seq<Entry>, cooldown: real, i: nat, j: nat)
    requires Spaced(log, cooldown) && cooldown >= 0.0 && i < j < |log|
    requires log[i].Reported? && log[j].Reported? && log[i].id == log[j].id
    requires forall k :: i < k < j && log[k].Forgotten? ==> log[k].pid != log[i].id.0
    ensures log[j].time - log[i].time >= cooldown
  {
    LastReportAfter(log, cooldown, i, j);
    SpacedPrefix(log, cooldown, j + 1);
    assert log[..j + 1][..j] == log[..j];
  }

  predicate Bounded(streams: map<StreamId, Stream>) {
    forall id :: id in streams ==> |streams[id].timestamps| <= MAX_TIMESTAMPS
  }

  /** A stream remembers when it was last reported. */
  ghost predicate Remembered(streams: map<StreamId, Stream>, log: seq<Entry>) {
    forall id {:trigger LastReport(log, id)} ::
      LastReport(log, id).Some? ==> id in streams && streams[id].lastSignal == LastReport(log, id).value
  }

  lemma ReportedNext(log: seq<Entry>, id: StreamId, now: real, other: StreamId)
    ensures LastReport(log + [Reported(id, now)], other) == if other == id then Some(now) else LastReport(log, other)
  {
    assert (log + [Reported(id, now)])[..|log|] == log;
  }

  /** Storing a stream that has just grown keeps the invariants, with its report if there is one. */
  lemma Stored(streams: map<StreamId, Stream>, log: seq<Entry>, id: StreamId, stream: Stream, now: real, cooldown: real)
    requires Spaced(log, cooldown) && Bounded(streams) && Remembered(streams, log)
    requires |stream.timestamps| <= MAX_TIMESTAMPS
    requires stream.lastSignal == if id in streams then streams[id].lastSignal else 0.0
    ensures Bounded(streams[id := stream]) && Remembered(streams[id := stream], log)
    ensures now - stream.lastSignal >= cooldown ==>
              var log' := log + [Reported(id, now)];
              Spaced(log', cooldown) && Remembered(streams[id := stream.(lastSignal := now)], log')
  {
    var log' := log + [Reported(id, now)];
    assert log'[..|log|] == log;
    forall other ensures LastReport(log', other) == if other == id then Some(now) else LastReport(log, other) {
      ReportedNext(log, id, now, other);
    }
    assert LastReport(log, id).Some? ==> stream.lastSignal == LastReport(log, id).value;
  }

  /** So does dropping a process's streams. */
  lemma Dropped(streams: map<StreamId, Stream>, log: seq<Entry>, pid: int, cooldown: real)
    requires Spaced(log, cooldown) && Bounded(streams) && Remembered(streams, log)
    ensures var kept := map id | id in streams && id.0 != pid :: streams[id];
            var log' := log + [Forgotten(pid)];
            Bounded(kept) && Spaced(log', cooldown) && Remembered(kept, log')
  {
    var log' := log + [Forgotten(pid)];
    assert log'[..|log|] == log;
    forall id ensures LastReport(log', id) == if id.0 == pid then None else LastReport(log, id) {
      ForgottenNext(log, pid, id);
    }
  }

  lemma ForgottenNext(log: seq<Entry>, pid: int, id: StreamId)
    ensures LastReport(log + [Forgotten(pid)], id) == if id.0 == pid then None else LastReport(log, id)
  {
    assert (log + [Forgotten(pid)])[..|log|] == log;
  }

  class C2BeaconDetector {
    const cvThreshold: real
    const cooldown: real
    var streams: map<StreamId, Stream>
    ghost var log: seq<Entry>

    ghost predicate Valid()
      reads this
    {
      Spaced(log, cooldown) && Bounded(streams) && Remembered(streams, log)
    }

    constructor (cvThreshold: real, cooldown: real)
      ensures Valid() && this.cvThreshold == cvThreshold && this.cooldown == cooldown && streams == map[] && log == []
    {
      this.cvThreshold, this.cooldown := cvThreshold, cooldown;
      streams, log := map[], [];
    }

    /** The stream of a connection before it arrives. */
    ghost function Known(id: StreamId): Stream
      reads this
    {
      if id in streams then streams[id] else NEW
    }

    /** The test of one stream: what calculate_jitter measures against the threshold. */
    method Periodic(ts: seq<real>) returns (b: bool)
      ensures b <==> Measurable(ts) && LowVariation(Counted(ts), cvThreshold)
    {
      if |ts| < MIN_SAMPLES {
        return false;
      }
      var valid := Counted(ts);
      if |valid| < MIN_SAMPLES - 1 {
        return false;
      }
      var mean := Sum(valid) / |valid| as real;
      SumBounds(valid, 0.1, 900.0);
      DivideBy(Sum(valid), |valid| as real, 0.1);
      if mean <= 0.0 {
        return false;
      }
      var variance := Deviation(valid, mean) / |valid| as real;
      return cvThreshold >= 0.0 && variance <= (cvThreshold * mean) * (cvThreshold * mean);
    }

    /** One arrival is one step of its stream, unless it has no process or a local address; reports are logged. */
    method ProcessConnection(isConnection: bool, pid: int, remoteIp: string, now: real) returns (signal: bool)
      requires Valid()
      modifies this
      ensures Valid()
      ensures !isConnection || pid == 0 || remoteIp in ["", "127.0.0.1", "::1", "0.0.0.0"] ==>
                !signal && streams == old(streams) && log == old(log)
      ensures isConnection && pid != 0 && remoteIp !in ["", "127.0.0.1", "::1", "0.0.0.0"] ==>
                var id := (pid, remoteIp);
                && (Known(id), signal) == StreamStep(old(Known(id)), now, cvThreshold, cooldown)
                && streams == old(streams)[id := Known(id)]
                && log == if signal then old(log) + [Reported(id, now)] else old(log)
    {
      if !isConnection || pid == 0 {
        return false;
      }
      if remoteIp in ["", "127.0.0.1", "::1", "0.0.0.0"] {
        return false;
      }
      var id := (pid, remoteIp);
      var stream := NEW;
      if id in streams {
        stream := streams[id];
      }
      stream := stream.(timestamps := Pushed(stream.timestamps, now));
      signal := false;
      if now - stream.lastSignal >= cooldown {
        signal := Periodic(stream.timestamps);
      }
      Keep(id, stream, now, signal);
    }

    /** Stores a stream that has just grown, and the report if there is one. */
    method Keep(id: StreamId, stream: Stream, now: real, signal: bool)
      requires Valid() && |stream.timestamps| <= MAX_TIMESTAMPS && stream.lastSignal == Known(id).lastSignal
      requires signal ==> now - stream.lastSignal >= cooldown
      modifies this
      ensures Valid()
      ensures streams == old(streams)[id := if signal then stream.(lastSignal := now) else stream]
      ensures log == if signal then old(log) + [Reported(id, now)] else old(log)
    {
      Stored(streams, log, id, stream, now, cooldown);
      if signal {
        streams := streams[id := stream.(lastSignal := now)];
        log := log + [Reported(id, now)];
      } else {
        streams := streams[id := stream];
      }
    }

    /** Forgets a process: all its streams go, other processes' streams stay. */
    method ResetPid(pid: int)
      requires Valid()
      modifies this
      ensures Valid() && log == old(log) + [Forgotten(pid)]
      ensures streams == map id | id in old(streams) && id.0 != pid :: old(streams)[id]
    {
      Dropped(streams, log, pid, cooldown);
      streams := map id | id in streams && id.0 != pid :: streams[id];
      log := log + [Forgotten(pid)];
    }
  }
}
