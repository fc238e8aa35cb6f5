/** The numbers that arping prints: its own square root, durations in readable units, the closing statistics. */
module Report {
  import opened Clock
  import opened Statistics

  // ----- sqrt

  const INT_MAX := 0x7fff_ffff

  /** What the C function delivers: a value, the unassigned variable `ans`, or undefined int arithmetic. */
  datatype Root = Root(value: real) | Unassigned | OutOfRange

  function Square(n: int): int {
    n * n
  }

  /** The integer square root, by counting up. */
  function FloorRoot(n: nat): (r: nat)
    ensures Square(r) <= n < Square(r + 1)
  {
    if n == 0 then 0
    else
      var r := FloorRoot(n - 1);
      if Square(r + 1) <= n then r + 1 else r
  }

  /** For every real x: the floor of the root for 0 and from 1 up, nothing for anything else below 1. */
  function SqrtOf(x: real): Root {
    if x == 0.0 || 1.0 <= x < INT_MAX as real then Root(FloorRoot(x.Floor) as real)
    else if -(INT_MAX as real) - 2.0 < x < 1.0 then Unassigned
    else OutOfRange
  }

  /** What comes out, for every real: 0 for 0; from 1 up to where an int overflows, the integer whose square and
      the next one enclose the argument; no value for anything else. */
  lemma SqrtMeans(x: real) returns (v: int)
    ensures x == 0.0 ==> SqrtOf(x) == Root(0.0)
    ensures 1.0 <= x < 2147483647.0 ==>
              SqrtOf(x) == Root(v as real) && v >= 1 && (v * v) as real <= x < ((v + 1) * (v + 1)) as real
    ensures -2147483649.0 < x < 1.0 && x != 0.0 ==> SqrtOf(x) == Unassigned
    ensures x <= -2147483649.0 || x >= 2147483647.0 ==> SqrtOf(x) == OutOfRange
  {
    v := 0;
    if 1.0 <= x < INT_MAX as real {
      v := FloorRoot(x.Floor);
      assert Square(v) == v * v && Square(v + 1) == (v + 1) * (v + 1);
    }
  }

  lemma SquareMonotone(p: nat, q: nat)
    ensures p <= q ==> Square(p) <= Square(q)
    ensures p < q ==> Square(p) < Square(q)
  {
  }

  lemma FloorRootIs(x: real, r: nat)
    requires Square(r) as real <= x < Square(r + 1) as real
    ensures FloorRoot(x.Floor) == r
  {
    hide Square;
    SquareAbove(r);
    var s := FloorRoot(x.Floor);
    SquareMonotone(s + 1, r);
    SquareMonotone(r + 1, s);
  }

  /** The midpoints that are reached from below stay small, so that start + end never overflows. */
  lemma SmallRoot(m: nat)
    ensures Square(m) < INT_MAX ==> m <= 46340
  {
  }

  lemma SquareAbove(n: nat)
    ensures n <= Square(n) && Square(0) == 0 && Square(1) == 1
  {
  }

  /** The function that hides the one of libm. int end = x truncates; start + end must not overflow. */
  method Sqrt(x: real) returns (r: Root)
    ensures r == SqrtOf(x)
  {
    hide Square, FloorRoot;
    SquareAbove(2);
    if x == 0.0 || x == 1.0 {
      assert Square(2) > 1;
      FloorRootIs(x, x.Floor);
      return Root(x);
    }
    if x >= INT_MAX as real + 1.0 || x <= -(INT_MAX as real) - 2.0 {
      return OutOfRange;
    }
    var start, end := 1, if x >= 0.0 then x.Floor else -(-x).Floor;
    r := Unassigned;
    if x > 0.0 { SquareAbove(end + 1); }
    while start <= end
      invariant x < 1.0 ==> start == 1 && end <= 0
      invariant x >= 1.0 ==> 1 <= start <= end + 1 && x < Square(end + 1) as real
      invariant x < INT_MAX as real ==> start + end <= INT_MAX
      invariant x >= INT_MAX as real ==> start == 1 && end == INT_MAX
      invariant if start == 1 then r == Unassigned
                else start > 1 && r == Root((start - 1) as real) && Square(start - 1) as real < x
      decreases end - start
    {
      if start + end > INT_MAX {
        return OutOfRange;
      }
      var mid := (start + end) / 2;
      if Square(mid) as real == x {
        SquareMonotone(mid, mid + 1);
        FloorRootIs(x, mid);
        return Root(mid as real);
      }
      if Square(mid) as real < x {
        SmallRoot(mid);
        start := mid + 1;
        r := Root(mid as real);
      } else {
        end := mid - 1;
      }
    }
    if start > 1 {
      FloorRootIs(x, start - 1);
    }
  }

  // ----- the standard deviation of the closing report

  lemma ZeroRoot()
    ensures SqrtOf(0.0) == Root(0.0)
  {
  }

  /** Round trips that differ, but by less than two seconds, always print an unassigned deviation. */
  lemma DeviationUnassigned(xs: seq<real>, st: Stats)
    requires xs != [] && Describes(st, xs) && st.max - st.min < 2.0
    ensures SqrtOf(Radicand(st, |xs|)) == if forall x, y :: x in xs && y in xs ==> x == y then Root(0.0) else Unassigned
  {
    hide Radicand, FloorRoot;
    var a, rad := Average(st, |xs|), Radicand(st, |xs|);
    ReportSound(xs, st);
    ZeroRoot();
    NarrowSpread(st.min, a, st.max);
    assert rad < 1.0;
  }

  // ----- ts2str

  function Pow10(n: nat): real {
    if n == 0 then 1.0 else 10.0 * Pow10(n - 1)
  }

  datatype Suffix = Nsec | Usec | Msec | Sec | SecE(e: nat)

  /** A printed duration, before the mantissa is rounded. */
  datatype Text = Text(mantissa: real, suffix: Suffix)

  /** The nanoseconds that a printed duration stands for. */
  function Denotes(t: Text): real {
    match t.suffix
    case Nsec => t.mantissa
    case Usec => Scaled(t.mantissa, 3)
    case Msec => Scaled(t.mantissa, 6)
    case Sec => Scaled(t.mantissa, 9)
    case SecE(e) => Scaled(t.mantissa, e + 9)
  }

  predicate Readable(t: Text) {
    match t.suffix
    case Nsec => t.mantissa <= 1000.0
    case Usec => 1.0 < t.mantissa <= 1000.0
    case Msec => 1.0 < t.mantissa <= 1000.0
    case Sec => 1.0 < t.mantissa <= 1000000.0
    case SecE(e) => 1.0 < t.mantissa <= 1000.0 && e >= 6 && e % 3 == 0
  }

  lemma Pow10By3(n: nat)
    ensures Pow10(n + 3) == 1000.0 * Pow10(n)
  {
    assert Pow10(n + 3) == 10.0 * Pow10(n + 2);
  }

  /** The value of a mantissa at a power of ten. */
  function Scaled(f: real, exp: nat): real {
    f * Pow10(exp)
  }

  /** What the units are: powers of a thousand nanoseconds, and an exponent of ten counts seconds. */
  lemma UnitsMean(f: real, e: nat)
    ensures Denotes(Text(f, Nsec)) == f && Denotes(Text(f, Usec)) == 1000.0 * f
    ensures Denotes(Text(f, Msec)) == 1000000.0 * f && Denotes(Text(f, Sec)) == 1000000000.0 * f
    ensures Denotes(Text(f, SecE(0))) == Denotes(Text(f, Sec))
    ensures Denotes(Text(f, SecE(e + 1))) == Denotes(Text(10.0 * f, SecE(e)))
  {
    Pow10By3(0);
    Pow10By3(3);
    Pow10By3(6);
    var p := Pow10(e + 9);
    assert Pow10(e + 10) == 10.0 * p;
    assert f * (10.0 * p) == (10.0 * f) * p;
  }

  lemma ScaledBy0(f: real)
    ensures Scaled(f, 0) == f
  {
  }

  lemma ScaledBy3(f: real, exp: nat)
    ensures Scaled(f / 1000.0, exp + 3) == Scaled(f, exp)
  {
    Pow10By3(exp);
    var p, g := Pow10(exp), f / 1000.0;
    assert g * (1000.0 * p) == (1000.0 * g) * p;
  }

  /** Scaling a duration changes its unit and not its value, in all six arms of the switch. */
  method Ts2Str(tv: Timespec, tv2: Timespec) returns (t: Text)
    ensures Denotes(t) == (Total(tv2) - Total(tv)) as real
    ensures Readable(t)
  {
    hide Scaled, Seconds, Total;
    SecondsIsTotal(tv);
    SecondsIsTotal(tv2);
    var f := (Seconds(tv2) - Seconds(tv)) * 1000000000.0;
    var exp: nat := 0;
    ghost var whole := f;
    ScaledBy0(f);
    while f > 1000.0
      invariant Scaled(f, exp) == whole
      invariant exp % 3 == 0 && (exp > 0 ==> f > 1.0)
      decreases if f > 1000.0 then f.Floor else 0
    {
      ScaledBy3(f, exp);
      exp := exp + 3;
      f := f / 1000.0;
    }
    match exp
    case 0 =>
      ScaledBy0(f);
      t := Text(f, Nsec);
    case 3 => t := Text(f, Usec);
    case 6 => t := Text(f, Msec);
    case 9 => t := Text(f, Sec);
    case 12 =>
      ScaledBy3(f * 1000.0, 9);
      t := Text(f * 1000.0, Sec);
    case _ => t := Text(f, SecE(exp - 9));
  }
}
