/** The four running statistics, and what the closing report computes from them. */
module Statistics {
  import opened Seqs

  /** stats_min_time, stats_max_time, stats_total_time and stats_total_sq_time. */
  datatype Stats = Stats(min: real, max: real, total: real, totalSq: real)

  const NO_STATS := Stats(-1.0, -1.0, 0.0, 0.0)

  /** One call of update_stats. A negative minimum stands for "no sample yet". */
  function Update(st: Stats, sample: real): Stats {
    Stats(if st.min < 0.0 || sample < st.min then sample else st.min,
          if sample > st.max then sample else st.max,
          st.total + sample,
          st.totalSq + sample * sample)
  }

  /** The statistics after a whole run of samples. */
  function Collect(xs: seq<real>): Stats {
    if xs == [] then NO_STATS else Update(Collect(Init(xs)), Last(xs))
  }

  lemma CollectGrows(xs: seq<real>, x: real)
    ensures Collect(xs + [x]) == Update(Collect(xs), x)
  {
    Extended(xs, x);
  }

  // ----- what the statistics are for

  function Sq(x: real): real {
    x * x
  }

  function Sum(xs: seq<real>): real {
    if xs == [] then 0.0 else Sum(Init(xs)) + Last(xs)
  }

  function SumSq(xs: seq<real>): real {
    if xs == [] then 0.0 else SumSq(Init(xs)) + Sq(Last(xs))
  }

  ghost predicate IsMin(m: real, xs: seq<real>) {
    m in xs && forall x :: x in xs ==> m <= x
  }

  ghost predicate IsMax(m: real, xs: seq<real>) {
    m in xs && forall x :: x in xs ==> x <= m
  }

  lemma {:induction false} CollectTotals(xs: seq<real>)
    ensures Collect(xs).total == Sum(xs) && Collect(xs).totalSq == SumSq(xs)
  {
    if xs != [] { CollectTotals(Init(xs)); }
  }

  lemma {:induction false} MaxBounds(xs: seq<real>)
    ensures Collect(xs).max >= -1.0 && forall i :: 0 <= i < |xs| ==> xs[i] <= Collect(xs).max
    ensures Collect(xs).max == -1.0 || Collect(xs).max in xs
  {
    if xs != [] {
      MaxBounds(Init(xs));
      assert forall i :: 0 <= i < |xs| - 1 ==> xs[i] == Init(xs)[i];
    }
  }

  /** The maximum is right iff some sample reaches the initial value -1; otherwise that value is reported. */
  lemma MaxRightIff(xs: seq<real>)
    requires xs != []
    ensures IsMax(Collect(xs).max, xs) <==> exists x :: x in xs && x >= -1.0
    ensures !IsMax(Collect(xs).max, xs) ==> Collect(xs).max == -1.0
  {
    hide Collect;
    MaxBounds(xs);
    assert IsMax(Collect(xs).max, xs) <==> Collect(xs).max in xs;
  }

  /** Where the samples after the last negative one begin: the sentinel drops everything before. */
  function AfterNegative(xs: seq<real>): (k: nat)
    ensures k <= |xs|
  {
    if xs == [] || Last(xs) < 0.0 then |xs| else AfterNegative(Init(xs))
  }

  lemma {:induction false} AfterNegativeMeaning(xs: seq<real>)
    ensures var k := AfterNegative(xs);
            (k > 0 ==> xs[k - 1] < 0.0) && forall i :: k <= i < |xs| ==> xs[i] >= 0.0
  {
    if xs != [] { AfterNegativeMeaning(Init(xs)); }
  }

  /** What the streaming minimum holds: the last sample if it is negative, else the least sample since
      the last negative one. */
  lemma {:induction false} MinHolds(xs: seq<real>)
    requires xs != []
    ensures if Last(xs) < 0.0 then Collect(xs).min == Last(xs)
            else IsMin(Collect(xs).min, xs[AfterNegative(xs)..])
  {
    var init, last, k := Init(xs), Last(xs), AfterNegative(xs);
    if init == [] {
      assert last >= 0.0 ==> xs[k..] == [last];
    } else {
      MinHolds(init);
      if last >= 0.0 {
        AfterNegativeMeaning(xs);
        var tail := init[k..];
        assert xs[k..] == tail + [last];
        if tail != [] { assert tail[|tail| - 1] == Last(init); }
        MinExtended(tail, last, Collect(init).min);
      }
    }
  }

  lemma MinExtended(tail: seq<real>, last: real, m: real)
    requires last >= 0.0
    requires if tail == [] then m < 0.0 else IsMin(m, tail) && m >= 0.0
    ensures IsMin(if m < 0.0 || last < m then last else m, tail + [last])
  {
    assert Last(tail + [last]) == last;
    Members(tail + [last]);
    Extended(tail, last);
  }

  /** The minimum is right iff no sample is negative, or the last one is negative and least. */
  lemma MinRightIff(xs: seq<real>)
    requires xs != []
    ensures IsMin(Collect(xs).min, xs)
       <==> (forall x :: x in xs ==> x >= 0.0) || (Last(xs) < 0.0 && IsMin(Last(xs), xs))
  {
    MinHolds(xs);
    AfterNegativeMeaning(xs);
    var k := AfterNegative(xs);
    assert forall i :: 0 <= i < |xs| ==> xs[i] in xs;
    if forall x :: x in xs ==> x >= 0.0 {
      assert xs[k..] == xs;
    } else if Last(xs) >= 0.0 {
      var x :| x in xs && x < 0.0;
      assert Collect(xs).min in xs[k..];
    }
  }

  // ----- average and variance

  function Average(st: Stats, n: nat): real
    requires n > 0
  {
    st.total / n as real
  }

  /** What the report passes to sqrt: mean square less squared mean. */
  function Radicand(st: Stats, n: nat): real
    requires n > 0
  {
    st.totalSq / n as real - Average(st, n) * Average(st, n)
  }

  /** The four statistics are what their names say of these samples. */
  ghost predicate Describes(st: Stats, xs: seq<real>) {
    IsMin(st.min, xs) && IsMax(st.max, xs) && st.total == Sum(xs) && st.totalSq == SumSq(xs)
  }

  /** When the streamed statistics describe their samples, exactly. A clock that never steps back gives
      samples without negatives, which is enough. */
  lemma {:induction false} CollectDescribesIff(xs: seq<real>)
    requires xs != []
    ensures Describes(Collect(xs), xs)
       <==> && ((forall x :: x in xs ==> x >= 0.0) || (Last(xs) < 0.0 && IsMin(Last(xs), xs)))
            && (exists x :: x in xs && x >= -1.0)
  {
    CollectTotals(xs);
    MinRightIff(xs);
    MaxRightIff(xs);
  }

  /** The sum of squared distances from a. */
  function Spread(xs: seq<real>, a: real): real {
    if xs == [] then 0.0 else Spread(Init(xs), a) + Sq(Last(xs) - a)
  }

  /** Spread, by sums. */
  function Expansion(sum: real, sq: real, n: real, a: real): real {
    sq - 2.0 * a * sum + n * Sq(a)
  }

  lemma {:induction false} SpreadExpanded(xs: seq<real>, a: real)
    ensures Spread(xs, a) == Expansion(Sum(xs), SumSq(xs), |xs| as real, a)
  {
    if xs == [] {
      ExpandNone(a);
    } else {
      hide Sq, Expansion;
      SpreadExpanded(Init(xs), a);
      ExpandOneMore(Sum(Init(xs)), SumSq(Init(xs)), |Init(xs)| as real, a, Last(xs));
    }
  }

  lemma ExpandNone(a: real)
    ensures Expansion(0.0, 0.0, 0.0, a) == 0.0
  {
  }

  lemma ExpandOneMore(sum: real, sq: real, n: real, a: real, x: real)
    ensures Expansion(sum, sq, n, a) + Sq(x - a) == Expansion(sum + x, sq + Sq(x), n + 1.0, a)
  {
  }

  lemma {:induction false} SpreadSign(xs: seq<real>, a: real)
    ensures Spread(xs, a) >= 0.0
    ensures Spread(xs, a) == 0.0 <==> forall x :: x in xs ==> x == a
  {
    hide Sq;
    if xs != [] {
      Members(xs);
      SpreadSign(Init(xs), a);
      SquareSign(Last(xs) - a);
    }
  }

  lemma SquareSign(d: real)
    ensures Sq(d) >= 0.0
    ensures Sq(d) == 0.0 <==> d == 0.0
  {
    hide Sq;
    if d == 0.0 {
      SquareOfZero();
    } else {
      PositiveSquare(if d > 0.0 then d else -d);
      SquareOfNegation(d);
    }
  }

  lemma SquareOfZero()
    ensures Sq(0.0) == 0.0
  {
  }

  lemma PositiveSquare(d: real)
    requires d > 0.0
    ensures Sq(d) > 0.0
  {
    calc {
      Sq(d);
    ==
      d * d;
    >  { MulPositive(d, d); }
      0.0;
    }
  }

  lemma SquareOfNegation(d: real)
    ensures Sq(d) == Sq(-d)
  {
  }

  lemma MulPositive(p: real, q: real)
    requires p > 0.0 && q > 0.0
    ensures p * q > 0.0
  {
  }

  /** The sum of (hi - x)(x - lo), by sums. It is what keeps the variance below (hi - a)(a - lo). */
  function RangeGap(sum: real, sq: real, n: real, lo: real, hi: real): real {
    (lo + hi) * sum - sq - n * (lo * hi)
  }

  predicate BetweenMultiples(sum: real, n: real, lo: real, hi: real) {
    n * lo <= sum <= n * hi
  }

  lemma {:induction false} RangeProduct(xs: seq<real>, lo: real, hi: real)
    requires forall x :: x in xs ==> lo <= x <= hi
    ensures RangeGap(Sum(xs), SumSq(xs), |xs| as real, lo, hi) >= 0.0
    ensures BetweenMultiples(Sum(xs), |xs| as real, lo, hi)
  {
    if xs == [] {
      assert RangeGap(0.0, 0.0, 0.0, lo, hi) == 0.0;
    } else {
      hide Sq, RangeGap, BetweenMultiples;
      Members(xs);
      RangeProduct(Init(xs), lo, hi);
      RangeOneMore(Sum(Init(xs)), SumSq(Init(xs)), |Init(xs)| as real, lo, hi, Last(xs));
    }
  }

  lemma RangeOneMore(sum: real, sq: real, n: real, lo: real, hi: real, x: real)
    requires lo <= x <= hi
    requires RangeGap(sum, sq, n, lo, hi) >= 0.0 && BetweenMultiples(sum, n, lo, hi)
    ensures RangeGap(sum + x, sq + Sq(x), n + 1.0, lo, hi) >= 0.0
    ensures BetweenMultiples(sum + x, n + 1.0, lo, hi)
  {
    hide RangeGap, BetweenMultiples, Sq, Inside;
    GapOneMore(sum, sq, n, lo, hi, x);
    InsideSign(lo, hi, x);
    BoundsOneMore(sum, n, lo, hi, x);
  }

  function Inside(lo: real, hi: real, x: real): real {
    (hi - x) * (x - lo)
  }

  lemma InsideSign(lo: real, hi: real, x: real)
    requires lo <= x <= hi
    ensures Inside(lo, hi, x) >= 0.0
  {
    hide Inside;
    InsideIs(lo, hi, x, hi - x, x - lo);
    ProductSign(hi - x, x - lo);
  }

  lemma InsideIs(lo: real, hi: real, x: real, p: real, q: real)
    requires p == hi - x && q == x - lo
    ensures Inside(lo, hi, x) == p * q
  {
  }

  lemma ProductSign(p: real, q: real)
    requires p >= 0.0 && q >= 0.0
    ensures p * q >= 0.0
  {
  }

  lemma GapOneMore(sum: real, sq: real, n: real, lo: real, hi: real, x: real)
    ensures RangeGap(sum + x, sq + Sq(x), n + 1.0, lo, hi) == RangeGap(sum, sq, n, lo, hi) + Inside(lo, hi, x)
  {
  }

  lemma BoundsOneMore(sum: real, n: real, lo: real, hi: real, x: real)
    requires lo <= x <= hi && BetweenMultiples(sum, n, lo, hi)
    ensures BetweenMultiples(sum + x, n + 1.0, lo, hi)
  {
  }

  /** Statistics soundness for every nonempty run of samples: the average is the mean, and min <= avg <= max; the
      radicand is the variance, lies in [0, (max - avg)(avg - min)] and is 0 only for equal samples. */
  lemma {:induction false} ReportSound(xs: seq<real>, st: Stats)
    requires xs != [] && Describes(st, xs)
    ensures var a := Average(st, |xs|);
            && a * |xs| as real == Sum(xs) && st.min <= a <= st.max
            && Radicand(st, |xs|) * |xs| as real == Spread(xs, a)
            && 0.0 <= Radicand(st, |xs|) <= (st.max - a) * (a - st.min)
            && (Radicand(st, |xs|) == 0.0 <==> forall x, y :: x in xs && y in xs ==> x == y)
  {
    hide Sq, Expansion, RangeGap, BetweenMultiples, Spread, Sum, SumSq;
    var a, n := Average(st, |xs|), |xs| as real;
    SpreadExpanded(xs, a);
    SpreadSign(xs, a);
    DivideBack(st.total, n, a);
    RadicandBySpread(st, |xs|, Spread(xs, a));
    RangeProduct(xs, st.min, st.max);
    RadicandByRange(st, |xs|);
    assert (forall x :: x in xs ==> x == a) <==> forall x, y :: x in xs && y in xs ==> x == y;
  }

  lemma DivideBack(t: real, k: real, q: real)
    requires k > 0.0 && q == t / k
    ensures t == k * q
  {
  }

  lemma RadicandBySpread(st: Stats, n: nat, spread: real)
    requires n > 0 && spread == Expansion(st.total, st.totalSq, n as real, Average(st, n))
    requires spread >= 0.0
    ensures Radicand(st, n) * n as real == spread
    ensures Radicand(st, n) >= 0.0 && (Radicand(st, n) == 0.0 <==> spread == 0.0)
  {
    hide Expansion;
    var a, m, k := Average(st, n), st.totalSq / n as real, n as real;
    DivideBack(st.total, k, a);
    DivideBack(st.totalSq, k, m);
    ScaledRadicand(st.total, st.totalSq, k, m, a, Radicand(st, n));
    Unscale(k, Radicand(st, n));
  }

  lemma ScaledRadicand(sum: real, sq: real, k: real, m: real, a: real, rad: real)
    requires sum == k * a && sq == k * m && rad == m - a * a
    ensures Expansion(sum, sq, k, a) == k * rad
  {
    assert 2.0 * a * (k * a) == 2.0 * (k * (a * a));
  }

  lemma RadicandByRange(st: Stats, n: nat)
    requires n > 0 && BetweenMultiples(st.total, n as real, st.min, st.max)
    requires RangeGap(st.total, st.totalSq, n as real, st.min, st.max) >= 0.0
    ensures var a := Average(st, n);
            st.min <= a <= st.max && Radicand(st, n) <= Inside(st.min, st.max, a)
  {
    hide RangeGap, BetweenMultiples, Inside;
    var a, m, k := Average(st, n), st.totalSq / n as real, n as real;
    var slack := Inside(st.min, st.max, a) - Radicand(st, n);
    DivideBack(st.total, k, a);
    DivideBack(st.totalSq, k, m);
    ScaledGap(st.total, st.totalSq, k, m, a, st.min, st.max, slack);
    ScaledBounds(st.total, k, a, st.min, st.max);
    Unscale(k, slack);
  }

  lemma ScaledGap(sum: real, sq: real, k: real, m: real, a: real, lo: real, hi: real, slack: real)
    requires sum == k * a && sq == k * m && slack == Inside(lo, hi, a) - (m - a * a)
    ensures RangeGap(sum, sq, k, lo, hi) == k * slack
  {
    assert Inside(lo, hi, a) == (lo + hi) * a - a * a - lo * hi;
    assert (lo + hi) * (k * a) == k * ((lo + hi) * a);
  }

  lemma ScaledBounds(sum: real, k: real, a: real, lo: real, hi: real)
    requires k > 0.0 && sum == k * a && BetweenMultiples(sum, k, lo, hi)
    ensures lo <= a <= hi
  {
    Unscale(k, a - lo);
    Unscale(k, hi - a);
  }

  /** Dividing by a positive number keeps the sign. */
  lemma Unscale(n: real, d: real)
    requires n > 0.0 && n * d >= 0.0
    ensures d >= 0.0 && (d == 0.0 <==> n * d == 0.0)
  {
    if d < 0.0 {
      MulPositive(n, -d);
    } else if d > 0.0 {
      MulPositive(n, d);
    }
  }

  /** Samples that differ by less than two seconds have a radicand below one. */
  lemma NarrowSpread(lo: real, a: real, hi: real)
    requires lo <= a <= hi && hi - lo < 2.0
    ensures (hi - a) * (a - lo) < 1.0
  {
    var s, d := hi - lo, hi - a - (a - lo);
    SquareSign(d);
    assert 4.0 * ((hi - a) * (a - lo)) == s * s - d * d;
    assert s * s <= 2.0 * s;
  }
}
