/**
  Running mean and variance (csrc/core/running-stat.h), with merging and subtracting of snapshots
  (core/runningstat/snapshot.go).  Floating point numbers are real numbers, and NaN is `None`.
 */
module RunningStat {
  import opened Common

  // ------------------------------------------------------------------ the mathematics

  function Sum(xs: seq<real>): (r: real) {
    if xs == [] then 0.0 else Sum(xs[..|xs| - 1]) + xs[|xs| - 1]
  }

  function SumSquares(xs: seq<real>): (r: real) {
    if xs == [] then 0.0 else SumSquares(xs[..|xs| - 1]) + xs[|xs| - 1] * xs[|xs| - 1]
  }

  /** The sum of the squared deviations from a centre. */
  function Deviation(xs: seq<real>, c: real): (r: real) {
    if xs == [] then 0.0 else Deviation(xs[..|xs| - 1], c) + (xs[|xs| - 1] - c) * (xs[|xs| - 1] - c)
  }

  function Ratio(x: real, y: real): (r: real)
    requires y != 0.0
  {
    x / y
  }

  lemma RatioTimes(x: real, y: real)
    requires y != 0.0
    ensures y * Ratio(x, y) == x
  {
  }

  lemma RatioIs(x: real, y: real, r: real)
    requires y != 0.0 && y * r == x
    ensures r == Ratio(x, y)
  {
  }

  /** The arithmetic mean; zero of nothing. */
  function Mean(xs: seq<real>): (r: real) {
    if xs == [] then 0.0 else Ratio(Sum(xs), |xs| as real)
  }

  lemma DeviationStep(d: real, q: real, s: real, n: real, c: real, x: real)
    requires d == q - 2.0 * c * s + n * (c * c)
    ensures d + (x - c) * (x - c) == q + x * x - 2.0 * c * (s + x) + (n + 1.0) * (c * c)
  {
    assert (x - c) * (x - c) == x * x - 2.0 * c * x + c * c;
    assert 2.0 * c * (s + x) == 2.0 * c * s + 2.0 * c * x;
  }

  lemma SumsUnfold(xs: seq<real>, c: real)
    requires xs != []
    ensures var front, x := xs[..|xs| - 1], xs[|xs| - 1];
      && Sum(xs) == Sum(front) + x && SumSquares(xs) == SumSquares(front) + x * x
      && Deviation(xs, c) == Deviation(front, c) + (x - c) * (x - c) && (|xs| as real) == (|front| as real) + 1.0
  {
  }

  lemma SumsNone(c: real)
    ensures Sum([]) == 0.0 && SumSquares([]) == 0.0 && Deviation([], c) == 0.0
  {
  }

  lemma {:induction false} DeviationSums(xs: seq<real>, c: real)
    ensures Deviation(xs, c) == SumSquares(xs) - 2.0 * c * Sum(xs) + (|xs| as real) * (c * c)
  {
    hide Sum, SumSquares, Deviation;
    if xs == [] {
      SumsNone(c);
    } else {
      SumsUnfold(xs, c);
      var front := xs[..|xs| - 1];
      DeviationSums(front, c);
      DeviationStep(Deviation(front, c), SumSquares(front), Sum(front), |front| as real, c, xs[|xs| - 1]);
    }
  }

  lemma {:induction false} SumSplit(xs: seq<real>, ys: seq<real>)
    ensures Sum(xs + ys) == Sum(xs) + Sum(ys) && SumSquares(xs + ys) == SumSquares(xs) + SumSquares(ys)
    decreases |ys|
  {
    if ys == [] {
      assert xs + ys == xs;
    } else {
      SumSplit(xs, ys[..|ys| - 1]);
      var all := xs + ys;
      assert all[..|all| - 1] == xs + ys[..|ys| - 1];
    }
  }

  /** Count, first and second moment, in terms of sums. */
  ghost predicate Moments(n: nat, m1: real, m2: real, sum: real, squares: real) {
    && (n as real) * m1 == sum && m2 == squares - (n as real) * (m1 * m1)
    && (n == 0 ==> m1 == 0.0 && m2 == 0.0)
  }

  lemma MeanAlgebra(n: real, m1: real, m2: real, sum: real, q: real, m: real)
    requires n > 0.0 && n * m == sum
    ensures (n * m1 == sum && m2 == q - n * (m1 * m1)) <==> m1 == m && m2 == q - 2.0 * m * sum + n * (m * m)
  {
    hide Ratio;
    if n * m1 == sum {
      RatioIs(sum, n, m1);
      RatioIs(sum, n, m);
    }
    assert 2.0 * m * (n * m) == 2.0 * (n * (m * m));
  }

  lemma MeanTimes(xs: seq<real>)
    requires xs != []
    ensures (|xs| as real) * Mean(xs) == Sum(xs)
  {
    RatioTimes(Sum(xs), |xs| as real);
  }

  /** The moments of samples are their mean and the sum of the squared deviations from it. */
  lemma MomentsMean(xs: seq<real>, m1: real, m2: real)
    ensures Moments(|xs|, m1, m2, Sum(xs), SumSquares(xs)) <==> m1 == Mean(xs) && m2 == Deviation(xs, Mean(xs))
  {
    hide Sum, SumSquares, Deviation, Mean;
    if xs == [] {
      MomentsNone(m1, m2);
    } else {
      MeanTimes(xs);
      DeviationSums(xs, Mean(xs));
      MeanAlgebra(|xs| as real, m1, m2, Sum(xs), SumSquares(xs), Mean(xs));
    }
  }

  lemma MomentsNone(m1: real, m2: real)
    ensures Moments(0, m1, m2, Sum([]), SumSquares([])) <==> m1 == Mean([]) && m2 == Deviation([], Mean([]))
  {
  }

  // ------------------------------------------------------------------ one sample

  /** The update for a sample. */
  function Update(n: nat, m1: real, m2: real, x: real): (r: (nat, real, real)) {
    var n' := n + 1;
    var delta := x - m1;
    var deltaN := Ratio(delta, n' as real);
    (n', m1 + deltaN, m2 + delta * deltaN * (n as real))
  }

  lemma UpdateMoments(n: nat, m1: real, m2: real, sum: real, squares: real, x: real)
    requires Moments(n, m1, m2, sum, squares)
    ensures var u := Update(n, m1, m2, x); Moments(u.0, u.1, u.2, sum + x, squares + x * x)
  {
    hide Ratio;
    var k, e := n as real, Ratio(x - m1, (n + 1) as real);
    RatioTimes(x - m1, (n + 1) as real);
    UpdateSum(k, m1, sum, x, e);
    UpdateSquares(k, m1, m2, squares, x, e);
    UpdateIs(n, m1, m2, x, k, e);
  }

  lemma UpdateIs(n: nat, m1: real, m2: real, x: real, k: real, e: real)
    requires k == n as real && e == Ratio(x - m1, (n + 1) as real)
    ensures var u := Update(n, m1, m2, x); u.0 == n + 1 && u.1 == m1 + e && u.2 == m2 + (x - m1) * e * k && (u.0 as real) == k + 1.0
  {
    hide Ratio;
  }

  lemma UpdateSum(k: real, m1: real, sum: real, x: real, e: real)
    requires k * m1 == sum && (k + 1.0) * e == x - m1
    ensures (k + 1.0) * (m1 + e) == sum + x
  {
    assert (k + 1.0) * (m1 + e) == (k + 1.0) * m1 + (k + 1.0) * e;
    assert (k + 1.0) * m1 == k * m1 + m1;
  }

  lemma UpdateSquares(k: real, m1: real, m2: real, squares: real, x: real, e: real)
    requires m2 == squares - k * (m1 * m1) && (k + 1.0) * e == x - m1
    ensures m2 + (x - m1) * e * k == squares + x * x - (k + 1.0) * ((m1 + e) * (m1 + e))
  {
    var d := x - m1;
    assert (m1 + e) * (m1 + e) == m1 * m1 + 2.0 * (m1 * e) + e * e;
    assert (k + 1.0) * (2.0 * (m1 * e)) == 2.0 * (m1 * d) by { Swap(k + 1.0, m1, e); }
    assert (k + 1.0) * (e * e) == d * e;
    assert d * d == (k + 1.0) * e * d;
    assert x * x == (m1 + d) * (m1 + d) == m1 * m1 + 2.0 * (m1 * d) + d * d;
    assert d * e * k == k * e * d;
  }

  lemma Swap(a: real, b: real, c: real)
    ensures a * (2.0 * (b * c)) == 2.0 * (b * (a * c))
  {
  }

  // ------------------------------------------------------------------ samples and their extremes

  /** The inputs that are taken as samples: every `period`-th one. */
  function Taken(inputs: seq<real>, period: nat): (xs: seq<real>)
    requires period > 0
    ensures |xs| <= |inputs|
  {
    if inputs == [] then
      []
    else
      var front := Taken(inputs[..|inputs| - 1], period);
      if |inputs| % period == 0 then front + [inputs[|inputs| - 1]] else front
  }

  lemma {:induction false} TakenCount(inputs: seq<real>, period: nat)
    requires period > 0
    ensures |Taken(inputs, period)| == |inputs| / period
    decreases |inputs|
  {
    if inputs != [] {
      TakenCount(inputs[..|inputs| - 1], period);
      CountUp(|inputs| - 1, period);
    } else {
      assert 0 / period == 0;
    }
  }

  lemma CountUp(n: nat, period: nat)
    requires period > 0
    ensures (n + 1) / period == n / period + if (n + 1) % period == 0 then 1 else 0
  {
    var q, r := n / period, n % period;
    assert n == period * q + r;
    if r + 1 == period {
      assert n + 1 == period * (q + 1);
      Quotient(n + 1, period, q + 1, 0);
    } else {
      Quotient(n + 1, period, q, r + 1);
    }
  }

  lemma Quotient(n: nat, d: nat, q: nat, r: nat)
    requires n == d * q + r && r < d
    ensures n / d == q && n % d == r
  {
    var q', r' := n / d, n % d;
    assert n == d * q' + r';
    if q' < q { Product(d, q' + 1, q); }
    if q < q' { Product(d, q + 1, q'); }
  }

  lemma Product(d: nat, a: nat, b: nat)
    requires a <= b
    ensures d * a <= d * b
  {
  }

  /** The largest of some numbers and a starting value. */
  function Highest(start: real, xs: seq<real>): (r: real) {
    if xs == [] then start
    else
      var h := Highest(start, xs[..|xs| - 1]);
      if h > xs[|xs| - 1] then h else xs[|xs| - 1]
  }

  /** The smallest of some numbers and a starting value. */
  function Lowest(start: real, xs: seq<real>): (r: real) {
    if xs == [] then start
    else
      var l := Lowest(start, xs[..|xs| - 1]);
      if l < xs[|xs| - 1] then l else xs[|xs| - 1]
  }

  lemma {:induction false} HighestBounds(start: real, xs: seq<real>)
    ensures start <= Highest(start, xs) && forall i | 0 <= i < |xs| :: xs[i] <= Highest(start, xs)
    ensures Highest(start, xs) == start || Highest(start, xs) in xs
  {
    if xs != [] {
      HighestBounds(start, xs[..|xs| - 1]);
      assert forall i | 0 <= i < |xs| - 1 :: xs[i] == xs[..|xs| - 1][i];
    }
  }

  /** The source starts the maximum at the smallest positive number, so it is right exactly if a sample reaches that. */
  lemma MaximumExactly(start: real, xs: seq<real>)
    ensures Highest(start, xs) in xs <==> exists i :: 0 <= i < |xs| && xs[i] >= start
  {
    HighestBounds(start, xs);
  }

  /** Samples that do not reach the starting value: the reported maximum is not one of them. */
  lemma MaximumWrong(dblMin: real)
    requires dblMin > 0.0
    ensures Highest(dblMin, [0.0]) == dblMin && Highest(dblMin, [0.0]) !in [0.0]
  {
    MaximumExactly(dblMin, [0.0]);
    HighestBounds(dblMin, [0.0]);
  }

  lemma {:induction false} ExtremesJoin(lo: real, hi: real, xs: seq<real>, ys: seq<real>)
    ensures Highest(lo, xs + ys) == if Highest(lo, xs) > Highest(lo, ys) then Highest(lo, xs) else Highest(lo, ys)
    ensures Lowest(hi, xs + ys) == if Lowest(hi, xs) < Lowest(hi, ys) then Lowest(hi, xs) else Lowest(hi, ys)
    decreases |ys|
  {
    if ys == [] {
      assert xs + ys == xs;
      HighestBounds(lo, xs);
      LowestBounds(hi, xs);
    } else {
      var all := xs + ys;
      assert all[..|all| - 1] == xs + ys[..|ys| - 1] && all[|all| - 1] == ys[|ys| - 1];
      ExtremesJoin(lo, hi, xs, ys[..|ys| - 1]);
    }
  }

  lemma {:induction false} LowestBounds(start: real, xs: seq<real>)
    ensures Lowest(start, xs) <= start && forall i | 0 <= i < |xs| :: Lowest(start, xs) <= xs[i]
    ensures Lowest(start, xs) == start || Lowest(start, xs) in xs
  {
    if xs != [] {
      LowestBounds(start, xs[..|xs| - 1]);
      assert forall i | 0 <= i < |xs| - 1 :: xs[i] == xs[..|xs| - 1][i];
    }
  }

  // ------------------------------------------------------------------ snapshots

  /** Count of inputs and of samples, extremes if they are known, and moments. */
  datatype Snapshot = Snapshot(i: nat, n: nat, min: Option<real>, max: Option<real>, m1: real, m2: real)

  /** The limits of floating point numbers, where the extremes start: the smallest positive and the largest. */
  datatype Limits = Limits(dblMin: real, dblMax: real)

  /** The extremes of the given samples, as far as they are known. */
  ghost predicate Extremes(s: Snapshot, lim: Limits, xs: seq<real>) {
    && (s.min.Some? ==> s.min.value == Lowest(lim.dblMax, xs))
    && (s.max.Some? ==> s.max.value == Highest(lim.dblMin, xs))
  }

  /** A snapshot of the given samples. */
  ghost predicate Of(s: Snapshot, lim: Limits, xs: seq<real>) {
    && s.n == |xs| <= s.i && Moments(s.n, s.m1, s.m2, Sum(xs), SumSquares(xs))
    && (s.i > 0 ==> Extremes(s, lim, xs))
  }

  /** A snapshot that was read after the given inputs, one in every `period` of which is a sample. */
  ghost predicate ReadAfter(s: Snapshot, lim: Limits, inputs: seq<real>, period: nat) {
    period > 0 && Of(s, lim, Taken(inputs, period)) && s.i == |inputs|
  }

  function Lower(a: Option<real>, b: Option<real>): (r: Option<real>) {
    if a.None? || b.None? then None else Some(if a.value < b.value then a.value else b.value)
  }

  function Higher(a: Option<real>, b: Option<real>): (r: Option<real>) {
    if a.None? || b.None? then None else Some(if a.value > b.value then a.value else b.value)
  }

  /** The deviation between two groups of samples. */
  function Between(p: real, q: real, a: real, b: real, c: real): (r: real)
    requires c != 0.0
  {
    var delta := q - p;
    Ratio(delta * delta * a * b, c)
  }

  /** The sum of the samples. */
  function Total(s: Snapshot): (r: real) {
    (s.n as real) * s.m1
  }

  /** Combine two snapshots; `None` where the source divides zero by zero. */
  function Add(s: Snapshot, o: Snapshot): (r: Option<Snapshot>) {
    if s.i == 0 then
      Some(o)
    else if o.i == 0 then
      Some(s)
    else if s.n + o.n == 0 then
      None
    else
      var n := s.n + o.n;
      Some(Snapshot(s.i + o.i, n, Lower(s.min, o.min), Higher(s.max, o.max),
                    Ratio(Total(s) + Total(o), n as real),
                    s.m2 + o.m2 + Between(s.m1, o.m1, s.n as real, o.n as real, n as real)))
  }

  /** Take a snapshot out of another one; `None` where the source divides by zero or a count wraps. */
  function Sub(s: Snapshot, o: Snapshot): (r: Option<Snapshot>) {
    if s.n <= o.n || s.i < o.i then
      None
    else
      var n := s.n - o.n;
      var m1 := Ratio(Total(s) - Total(o), n as real);
      Some(Snapshot(s.i - o.i, n, None, None, m1, s.m2 - o.m2 - Between(m1, o.m1, o.n as real, n as real, s.n as real)))
  }

  /** The algebra of merging, cleared of divisions. */
  lemma MergeAlgebra(a: real, b: real, c: real, p: real, q: real, m: real)
    requires c == a + b && c > 0.0 && c * m == a * p + b * q
    ensures a * (p * p) + b * (q * q) - c * (m * m) == Between(p, q, a, b, c)
  {
    var left, right := a * (p * p) + b * (q * q) - c * (m * m), (q - p) * (q - p) * a * b;
    assert c * (c * (m * m)) == (c * m) * (c * m);
    MergeSquares(a, b, p, q);
    assert c * left == c * (a * (p * p) + b * (q * q)) - (c * m) * (c * m);
    assert c * left == right;
    RatioIs(right, c, left);
  }

  lemma MergeSquares(a: real, b: real, p: real, q: real)
    ensures (a + b) * (a * (p * p) + b * (q * q)) - (a * p + b * q) * (a * p + b * q) == (q - p) * (q - p) * a * b
  {
    assert (a * p + b * q) * (a * p + b * q) == a * a * (p * p) + 2.0 * (a * b * (p * q)) + b * b * (q * q);
    assert (a + b) * (a * (p * p) + b * (q * q)) == a * a * (p * p) + a * b * (q * q) + a * b * (p * p) + b * b * (q * q);
    assert (q - p) * (q - p) == q * q - 2.0 * (p * q) + p * p;
    assert (q - p) * (q - p) * a * b == a * b * (q * q) - 2.0 * (a * b * (p * q)) + a * b * (p * p);
  }

  /** Adding snapshots gives a snapshot of all the samples, whose extremes are known if both are. */
  lemma AddJoins(s: Snapshot, o: Snapshot, lim: Limits, xs: seq<real>, ys: seq<real>)
    requires Of(s, lim, xs) && Of(o, lim, ys) && Add(s, o).Some?
    ensures Of(Add(s, o).value, lim, xs + ys) && Add(s, o).value.i == s.i + o.i
    ensures s.min.Some? && o.min.Some? ==> Add(s, o).value.min.Some?
    ensures s.max.Some? && o.max.Some? ==> Add(s, o).value.max.Some?
  {
    SumSplit(xs, ys);
    if s.i == 0 {
      assert xs == [] && xs + ys == ys;
    } else if o.i == 0 {
      assert ys == [] && xs + ys == xs;
    } else {
      hide Sum, SumSquares, Lowest, Highest;
      AddMoments(s, o, Sum(xs), SumSquares(xs), Sum(ys), SumSquares(ys));
      ExtremesJoin(lim.dblMin, lim.dblMax, xs, ys);
    }
  }

  lemma AddMoments(s: Snapshot, o: Snapshot, x: real, xx: real, y: real, yy: real)
    requires s.i > 0 && o.i > 0 && s.n + o.n > 0 && Moments(s.n, s.m1, s.m2, x, xx) && Moments(o.n, o.m1, o.m2, y, yy)
    ensures var r := Add(s, o).value; Moments(r.n, r.m1, r.m2, x + y, xx + yy)
  {
    hide Ratio, Between, Total;
    var t := Add(s, o).value;
    var a, b, c := s.n as real, o.n as real, t.n as real;
    TotalIs(s, x);
    TotalIs(o, y);
    RatioTimes(Total(s) + Total(o), c);
    MergeAlgebra(a, b, c, s.m1, o.m1, t.m1);
  }

  lemma TotalIs(s: Snapshot, x: real)
    requires (s.n as real) * s.m1 == x
    ensures Total(s) == x
  {
  }

  /** Snapshots cannot be added exactly if both were read after some inputs, but fewer than a sampling period. */
  lemma AddFailsExactly(s: Snapshot, o: Snapshot, lim: Limits, a: seq<real>, b: seq<real>, p: nat, q: nat)
    requires ReadAfter(s, lim, a, p) && ReadAfter(o, lim, b, q)
    ensures Add(s, o).None? <==> 0 < |a| < p && 0 < |b| < q
  {
    hide Moments;
    TakenCount(a, p);
    TakenCount(b, q);
    NoSample(|a|, p);
    NoSample(|b|, q);
  }

  lemma NoSample(n: nat, period: nat)
    requires period > 0
    ensures n / period == 0 <==> n < period
  {
    if n < period { Quotient(n, period, 0, n); }
    if n / period == 0 { assert n == period * (n / period) + n % period; }
  }

  lemma BetweenFlip(p: real, q: real, a: real, b: real, c: real)
    requires c != 0.0
    ensures Between(p, q, a, b, c) == Between(q, p, a, b, c) && (a == 0.0 ==> Between(p, q, a, b, c) == 0.0)
  {
    var d, e := q - p, p - q;
    assert d * d == e * e;
    hide Ratio;
    if a == 0.0 {
      assert d * d * a == 0.0;
      assert d * d * a * b == 0.0;
      RatioIs(0.0, c, 0.0);
    }
  }

  /** Subtracting the first of two snapshots from their sum gives back the second, up to the extremes. */
  lemma SubUndoesAdd(s: Snapshot, o: Snapshot)
    requires s.n <= s.i && o.n <= o.i && o.n > 0 && (s.n == 0 ==> s.m1 == 0.0 && s.m2 == 0.0)
    ensures Add(s, o).Some? && Sub(Add(s, o).value, s) == Some(o.(min := None, max := None))
  {
    hide Between, Ratio, Total;
    var t := Add(s, o).value;
    var a, b, c := s.n as real, o.n as real, t.n as real;
    TotalAdds(s, o);
    TotalIs(o, b * o.m1);
    RatioIs(Total(o), b, o.m1);
    BetweenFlip(s.m1, o.m1, a, b, c);
    assert t.n - s.n == o.n && Total(t) - Total(s) == Total(o);
    assert t.m2 == s.m2 + o.m2 + Between(s.m1, o.m1, a, b, c);
  }

  lemma TotalAdds(s: Snapshot, o: Snapshot)
    requires s.n <= s.i && o.n <= o.i && o.n > 0 && (s.n == 0 ==> s.m1 == 0.0 && s.m2 == 0.0)
    ensures Total(Add(s, o).value) == Total(s) + Total(o)
  {
    hide Between, Ratio;
    if s.i > 0 {
      RatioTimes(Total(s) + Total(o), (s.n + o.n) as real);
    }
  }

  /** Subtracting an earlier snapshot leaves a snapshot of the later samples. */
  lemma SubLeaves(s: Snapshot, o: Snapshot, lim: Limits, xs: seq<real>, ys: seq<real>)
    requires Of(o, lim, xs) && Of(s, lim, xs + ys) && ys != [] && s.i >= o.i + |ys|
    ensures Sub(s, o).Some? && Of(Sub(s, o).value, lim, ys)
  {
    SumSplit(xs, ys);
    hide Lowest, Highest, Sum, SumSquares, Between, Ratio, Total;
    var c, a, b := s.n as real, o.n as real, (s.n - o.n) as real;
    var r := Sub(s, o).value;
    TotalIs(s, Sum(xs + ys));
    TotalIs(o, Sum(xs));
    RatioTimes(Total(s) - Total(o), b);
    MergeAlgebra(a, b, c, o.m1, r.m1, s.m1);
    BetweenFlip(o.m1, r.m1, a, b, c);
  }

  // ------------------------------------------------------------------ in place

  class RunningStat {
    var i: nat
    /** The limits of floating point numbers: the largest, and the smallest positive one. */
    const dblMax: real
    const dblMin: real
    var min: real
    var max: real
    /** One more than the mask of the source, a power of two. */
    const period: nat
    var n: nat
    var m1: real
    var m2: real
    ghost var inputs: seq<real>

    constructor (period: nat, dblMax: real, dblMin: real)
      requires period > 0
      ensures Valid() && inputs == [] && this.period == period && this.dblMax == dblMax && this.dblMin == dblMin
    {
      this.period, this.dblMax, this.dblMin := period, dblMax, dblMin;
      min, max := dblMax, dblMin;
      i, n, m1, m2, inputs := 0, 0, 0.0, 0.0, [];
    }

    /** The statistics are the exact mean and sum of squared deviations of the samples. */
    ghost predicate Valid()
      reads this
    {
      && period > 0 && i == |inputs| && n == |Taken(inputs, period)|
      && min == Lowest(dblMax, Taken(inputs, period)) && max == Highest(dblMin, Taken(inputs, period))
      && m1 == Mean(Taken(inputs, period)) && m2 == Deviation(Taken(inputs, period), Mean(Taken(inputs, period)))
    }

    method UpdateM(x: real)
      modifies this`n, this`m1, this`m2
      ensures var u := Update(old(n), old(m1), old(m2), x); n == u.0 && m1 == u.1 && m2 == u.2
    {
      var n1 := n;
      n := n + 1;
      var delta := x - m1;
      var deltaN := Ratio(delta, n as real);
      m1 := m1 + deltaN;
      m2 := m2 + delta * deltaN * (n1 as real);
    }

    /** Add an input; it becomes a sample if it is its turn. */
    method Push(x: real)
      requires Valid()
      modifies this
      ensures Valid() && inputs == old(inputs) + [x]
    {
      hide Mean, Deviation;
      ghost var xs := Taken(inputs, period);
      inputs := inputs + [x];
      assert inputs[..|inputs| - 1] == old(inputs);
      i := i + 1;
      if i % period != 0 {
        return;
      }
      assert Taken(inputs, period)[..|xs|] == xs;
      min := if min < x then min else x;
      max := if max > x then max else x;
      UpdateM(x);
      UpdateSamples(xs, old(n), old(m1), old(m2), x);
    }

    method Read() returns (s: Snapshot)
      requires Valid()
      ensures ReadAfter(s, Limits(dblMin, dblMax), inputs, period) && s.min.Some? && s.max.Some?
    {
      s := Snapshot(i, n, Some(min), Some(max), m1, m2);
      MomentsMean(Taken(inputs, period), m1, m2);
    }
  }

  /** The update keeps the statistics exact. */
  lemma UpdateSamples(xs: seq<real>, n: nat, m1: real, m2: real, x: real)
    requires n == |xs| && m1 == Mean(xs) && m2 == Deviation(xs, Mean(xs))
    ensures var (n', m1', m2') := Update(n, m1, m2, x); var ys := xs + [x];
      n' == |ys| && m1' == Mean(ys) && m2' == Deviation(ys, Mean(ys))
  {
    var ys := xs + [x];
    assert ys[..|ys| - 1] == xs;
    assert Sum(ys) == Sum(xs) + x && SumSquares(ys) == SumSquares(xs) + x * x;
    hide Sum, SumSquares, Mean, Deviation, Update;
    MomentsMean(xs, m1, m2);
    UpdateMoments(n, m1, m2, Sum(xs), SumSquares(xs), x);
    var (n', m1', m2') := Update(n, m1, m2, x);
    MomentsMean(ys, m1', m2');
    UpdateCount(n, m1, m2, x);
  }

  lemma UpdateCount(n: nat, m1: real, m2: real, x: real)
    ensures Update(n, m1, m2, x).0 == n + 1
  {
  }
}
