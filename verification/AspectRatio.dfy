/** Rational approximation by continued fractions, and the aspect ratio built from it
    (PopcornTime/Extensions/UIScreen+AspectRatio.swift).

    `CGFloat` is modelled by `real` and `Int` by `int`; `StepFits` and
    `CombineFits` state that nothing leaves 64 bits. */
module AspectRatio {
  import opened Euclid

  const EPS: real := 0.000000001
  const INT64_MAX: int := 0x7fff_ffff_ffff_ffff
  // No denominator the loop can produce is larger than this.
  const MAX_DENOMINATOR: int := 1_000_031_622

  // ---------- Products and order ----------

  lemma MulLe(a: real, b: real, c: real)
    requires a <= b && c >= 0.0
    ensures a * c <= b * c
  {}

  lemma MulLt(a: real, b: real, c: real)
    requires a < b && c > 0.0
    ensures a * c < b * c
  {}

  lemma MulLeCancel(a: real, b: real, c: real)
    requires c > 0.0 && a * c <= b * c
    ensures a <= b
  {}

  lemma IntMulLe(a: int, b: int, c: int)
    requires a <= b && c >= 0
    ensures a * c <= b * c
  {}

  lemma PositiveFactor(a: int, b: int)
    requires b > 0 && a * b > 0
    ensures a > 0
  {}

  lemma CancelFactor(k: int, a: int, b: int)
    requires k >= 1 && k * a == k * b
    ensures a == b
  {}

  lemma SmallSquare(k: int)
    requires k * k < 1_000_000_000
    ensures k <= 31622
  {}

  lemma UnitDivisor(d: int, m: int)
    requires d >= 1 && (d * m == 1 || d * m == -1)
    ensures d == 1
  {}

  // ---------- The continued fraction loop ----------

  /** The loop's state between two tests of its guard; `f` is `x - a`. */
  datatype Step = Step(f: real, h1: int, k1: int, h: int, k: int)

  function Determinant(s: Step): int {
    s.h * s.k1 - s.h1 * s.k
  }

  predicate UnitDeterminant(s: Step) {
    Determinant(s) == 1 || Determinant(s) == -1
  }

  /** The denominator of the input once it is written over the two convergents. */
  function FullDenominator(s: Step): real {
    s.k as real + s.f * s.k1 as real
  }

  function FullNumerator(s: Step): real {
    s.h as real + s.f * s.h1 as real
  }

  /** What every iteration keeps: neighbouring convergents with unit determinant, and the
      input written exactly in terms of the two convergents and the remaining fraction. */
  ghost predicate Invariant(x0: real, s: Step) {
    && 0.0 <= s.f < 1.0
    && 0 <= s.k1 <= s.k && 1 <= s.k
    && UnitDeterminant(s)
    && x0 * FullDenominator(s) == FullNumerator(s)
  }

  function Tolerance(k: int): real {
    EPS * k as real * k as real
  }

  /** The fraction `h / k` is a good enough approximation of `x`. */
  predicate Approximates(h: int, k: int, x: real) {
    k >= 1 && -EPS <= x - h as real / k as real <= EPS
  }

  /** The loop's guard. */
  predicate Continues(s: Step) {
    s.f > Tolerance(s.k)
  }

  /** One pass of the loop body. */
  function Advance(s: Step): Step
    requires s.f != 0.0
  {
    var x := 1.0 / s.f;
    var a := x.Floor;
    Step(x - a as real, s.h, s.k, s.h1 + a * s.h, s.k1 + a * s.k)
  }

  lemma UnitDeterminantIsCoprime(s: Step)
    requires UnitDeterminant(s)
    ensures Coprime(s.h, s.k)
  {
    forall d | d >= 1 && Divides(d, s.h) && Divides(d, s.k)
      ensures d == 1
    {
      DividesCombination(d, s.h, s.k, s.k1, -s.h1);
      var m :| s.k1 * s.h + -s.h1 * s.k == d * m;
      assert s.k1 * s.h + -s.h1 * s.k == Determinant(s);
      UnitDivisor(d, m);
    }
  }

  lemma RescaleByReciprocal(x0: real, f: real, x: real, h: real, h1: real, k: real, k1: real)
    requires f * x == 1.0
    requires x0 * (k + f * k1) == h + f * h1
    ensures x0 * (k1 + x * k) == h1 + x * h
  {}

  lemma ReciprocalFloor(f: real)
    requires 0.0 < f < 1.0
    ensures f * (1.0 / f) == 1.0 && 1.0 / f > 1.0
    ensures (1.0 / f).Floor >= 1
  {}

  lemma RegroupReal(k1: int, a: int, k: int, x: real)
    ensures (k1 + a * k) as real + (x - a as real) * k as real == k1 as real + x * k as real
  {}

  lemma DeterminantFlips(h: int, k: int, h1: int, k1: int, a: int)
    ensures (h1 + a * h) * k - h * (k1 + a * k) == -(h * k1 - h1 * k)
  {}

  lemma AdvanceKeepsInput(x0: real, s: Step)
    requires Invariant(x0, s) && s.f > 0.0
    ensures x0 * FullDenominator(Advance(s)) == FullNumerator(Advance(s))
  {
    var x := 1.0 / s.f;
    ReciprocalFloor(s.f);
    RescaleByReciprocal(x0, s.f, x, s.h as real, s.h1 as real, s.k as real, s.k1 as real);
    RegroupReal(s.k1, x.Floor, s.k, x);
    RegroupReal(s.h1, x.Floor, s.h, x);
  }

  /** An iteration keeps the invariant, and the denominator grows strictly from the second one on. */
  lemma AdvanceKeepsInvariant(x0: real, s: Step)
    requires Invariant(x0, s) && s.f > 0.0
    ensures Invariant(x0, Advance(s))
    ensures Advance(s).k1 == s.k
    ensures s.k1 > 0 ==> Advance(s).k > s.k
  {
    var a := (1.0 / s.f).Floor;
    ReciprocalFloor(s.f);
    IntMulLe(1, a, s.k);
    AdvanceKeepsInput(x0, s);
    DeterminantFlips(s.h, s.k, s.h1, s.k1, a);
  }

  lemma ToleranceIsSquare(k: int)
    ensures Tolerance(k) == EPS * (k * k) as real
    ensures k >= 1 ==> Tolerance(k) > 0.0
  {
    var kr := k as real;
    assert EPS * kr * kr == EPS * (kr * kr);
    if k >= 1 {
      MulLe(1.0, kr, kr);
    }
  }

  /** The guard bounds the denominator, which with its strict growth ends the loop. */
  lemma GuardBoundsDenominator(s: Step)
    requires s.f < 1.0 && s.k >= 1 && Continues(s)
    ensures s.f > 0.0 && s.k <= 31622
  {
    ToleranceIsSquare(s.k);
    SmallSquare(s.k);
  }

  /** For inputs in the unit interval both convergents stay between 0 and 1. */
  predicate InUnit(s: Step) {
    && 0 <= s.h <= s.k
    && ((s.h1 == 1 && s.k1 == 0 && s.k == 1 && (s.h == 0 || s.f == 0.0)) || 0 <= s.h1 <= s.k1)
  }

  predicate Fits64(n: int) {
    -INT64_MAX - 1 <= n <= INT64_MAX
  }

  /** The next quotient times the squared denominator is below 1 / EPS. */
  lemma QuotientBound(f: real, a: int, k: int)
    requires 0.0 < f < 1.0 && k >= 1 && f > Tolerance(k) && a == (1.0 / f).Floor
    ensures 1 <= a && 0 <= a * k < 1_000_000_000
  {}

  /** One iteration from a state in the unit interval stays there, stays below
      `MAX_DENOMINATOR`, and computes nothing that leaves 64 bits. */
  lemma StepFits(x0: real, s: Step)
    requires Invariant(x0, s) && InUnit(s) && Continues(s)
    ensures s.f > 0.0 && InUnit(Advance(s)) && Advance(s).k <= MAX_DENOMINATOR
    ensures var a := (1.0 / s.f).Floor;
            Fits64(a) && Fits64(a * s.h) && Fits64(a * s.k) && Fits64(Advance(s).h) && Fits64(Advance(s).k)
  {
    GuardBoundsDenominator(s);
    var a := (1.0 / s.f).Floor;
    QuotientBound(s.f, a, s.k);
    IntMulLe(1, s.k, a);
    IntMulLe(s.h, s.k, a);
    IntMulLe(0, s.h, a);
  }

  /** The loop can leave in state `s`. */
  ghost predicate StopsIn(x0: real, s: Step) {
    Invariant(x0, s) && !Continues(s)
  }

  /** `(k * x0 - h)` times the full denominator is the remaining fraction up to sign. */
  lemma Defect(x0: real, s: Step)
    requires Invariant(x0, s)
    ensures var d := s.k as real * x0 - s.h as real;
            d * FullDenominator(s) == s.f || d * FullDenominator(s) == -s.f
  {}

  lemma AbsProductBound(d: real, den: real, k: real, f: real)
    requires 0.0 < k <= den && 0.0 <= f
    requires d * den == f || d * den == -f
    ensures -f <= d * k <= f
  {}

  /** `k * x0 - h` is at most `f / k` in size, and `f` is within the tolerance. */
  ghost predicate Tight(x0: real, f: real, h: int, k: int) {
    1 <= k && f < 1.0 && -f <= (k as real * x0 - h as real) * k as real <= f && f <= Tolerance(k)
  }

  lemma StoppedIsTight(x0: real, s: Step)
    requires StopsIn(x0, s)
    ensures Tight(x0, s.f, s.h, s.k)
  {
    Defect(x0, s);
    MulLe(0.0, s.f, s.k1 as real);
    AbsProductBound(s.k as real * x0 - s.h as real, FullDenominator(s), s.k as real, s.f);
  }

  /** Leaving the loop means being within `EPS` of the input. */
  lemma StoppedIsClose(x0: real, s: Step)
    requires StopsIn(x0, s)
    ensures Approximates(s.h, s.k, x0)
  {
    StoppedIsTight(x0, s);
    CloseByDefect(x0, s.f, s.h, s.k);
  }

  lemma CloseByDefect(x0: real, f: real, h: int, k: int)
    requires Tight(x0, f, h, k)
    ensures Approximates(h, k, x0)
  {
    ScaleDown(x0, h as real, k as real, f);
  }

  lemma ScaleDown(x0: real, h: real, k: real, f: real)
    requires k >= 1.0
    requires -f <= (k * x0 - h) * k <= f && f <= EPS * k * k
    ensures -EPS <= x0 - h / k <= EPS
  {
    var e := x0 - h / k;
    assert EPS * k * k == EPS * (k * k);
    assert (k * x0 - h) == e * k by { assert (h / k) * k == h; }
    assert (e * k) * k == e * (k * k);
    MulLe(1.0, k, k);
    MulLeCancel(e, EPS, k * k);
    MulLeCancel(-EPS, e, k * k);
  }

  /** A fraction with a small denominator is recovered exactly, not just approximated. */
  lemma StoppedIsExact(x0: real, s: Step, p: int, q: int)
    requires StopsIn(x0, s)
    requires 1 <= q <= 31622 && Coprime(p, q) && x0 * q as real == p as real
    ensures s.h == p && s.k == q
  {
    NoGap(x0, s, p, q);
    SameReducedFraction(s, p, q);
  }

  lemma NoGap(x0: real, s: Step, p: int, q: int)
    requires StopsIn(x0, s) && 1 <= q <= 31622 && x0 * q as real == p as real
    ensures s.k * p == s.h * q
  {
    StoppedIsTight(x0, s);
    NoGapBetween(x0, s.f, s.h, s.k, p, q);
  }

  lemma NoGapBetween(x0: real, f: real, h: int, k: int, p: int, q: int)
    requires Tight(x0, f, h, k) && 1 <= q <= 31622 && x0 * q as real == p as real
    ensures k * p == h * q
  {
    CrossDifference(x0, h, k, p, q);
    GapBound(k as real * x0 - h as real, f, k, q, k * p - h * q);
  }

  lemma CrossDifference(x0: real, h: int, k: int, p: int, q: int)
    requires x0 * q as real == p as real
    ensures (k * p - h * q) as real == (k as real * x0 - h as real) * q as real
  {}

  /** Two distinct fractions with denominators `k` and `q` are at least 1 / (k * q) apart,
      which is more than the loop tolerates when `q` is small. */
  lemma GapBound(d: real, f: real, k: int, q: int, n: int)
    requires 1 <= k && 1 <= q <= 31622 && f < 1.0
    requires n as real == d * q as real
    requires -f <= d * k as real <= f
    requires f <= Tolerance(k)
    ensures n == 0
  {
    if n >= 0 {
      ScaledGap(d, f, n as real, k as real, q as real);
      GapInIntegers(n, k, q);
    } else {
      ScaledGap(-d, f, (-n) as real, k as real, q as real);
      GapInIntegers(-n, k, q);
    }
  }

  lemma ScaledGap(d: real, f: real, m: real, k: real, q: real)
    requires m == d * q && d * k <= f < 1.0 && q > 0.0 && f <= EPS * k * k
    ensures m * k < q && m * k <= EPS * ((k * k) * q)
  {
    assert m * k == (d * k) * q;
    MulLe(d * k, f, q);
    MulLt(f, 1.0, q);
    MulLe(f, EPS * k * k, q);
    assert (EPS * k * k) * q == EPS * ((k * k) * q);
  }

  lemma GapInIntegers(m: int, k: int, q: int)
    requires 0 <= m && 1 <= k && 1 <= q <= 31622
    requires m as real * k as real < q as real
    requires m as real * k as real <= EPS * ((k as real * k as real) * q as real)
    ensures m == 0
  {}

  lemma SameReducedFraction(s: Step, p: int, q: int)
    requires UnitDeterminant(s) && s.k >= 1 && q >= 1 && s.k * p == s.h * q && Coprime(p, q)
    ensures s.h == p && s.k == q
  {
    var m := Determinant(s) * (p * s.k1 - s.h1 * q);
    MultipleOfDenominator(s, p, q);
    PositiveFactor(m, s.k);
    assert s.k * p == s.k * (s.h * m) by { assert s.h * (s.k * m) == s.k * (s.h * m); }
    CancelFactor(s.k, p, s.h * m);
    assert p == m * s.h && q == m * s.k;
    assert Divides(m, p) && Divides(m, q);
  }

  lemma MultipleOfDenominator(s: Step, p: int, q: int)
    requires UnitDeterminant(s) && s.k * p == s.h * q
    ensures q == s.k * (Determinant(s) * (p * s.k1 - s.h1 * q))
  {}

  /** All an iteration guarantees. */
  lemma Iterate(x0: real, s: Step)
    requires Invariant(x0, s) && Continues(s)
    ensures s.f > 0.0 && s.k <= 31622
    ensures Invariant(x0, Advance(s)) && Advance(s).k1 == s.k >= 1
    ensures s.k1 > 0 ==> Advance(s).k > s.k
    ensures InUnit(s) ==> InUnit(Advance(s)) && Advance(s).k <= MAX_DENOMINATOR
  {
    GuardBoundsDenominator(s);
    AdvanceKeepsInvariant(x0, s);
    if InUnit(s) {
      StepFits(x0, s);
    }
  }

  /** `h / k` is the only fraction with a small denominator that equals `x`, if there is one. */
  ghost predicate ExactWhenSmall(h: int, k: int, x: real) {
    forall p, q :: 1 <= q <= 31622 && Coprime(p, q) && x * q as real == p as real ==> h == p && k == q
  }

  lemma Finish(x0: real, s: Step)
    requires StopsIn(x0, s)
    ensures Approximates(s.h, s.k, x0) && Coprime(s.h, s.k) && ExactWhenSmall(s.h, s.k, x0)
  {
    UnitDeterminantIsCoprime(s);
    StoppedIsClose(x0, s);
    forall p, q | 1 <= q <= 31622 && Coprime(p, q) && x0 * q as real == p as real
      ensures s.h == p && s.k == q
    {
      StoppedIsExact(x0, s, p, q);
    }
  }

  /** The continued fraction loop. For every real input it ends with a fraction in lowest
      terms within `EPS`; every fraction with denominator up to 31622 comes back exactly;
      and for inputs in the unit interval the result stays small. */
  method RationalApproximation(x0: real) returns (h: int, k: int)
    ensures Approximates(h, k, x0) && Coprime(h, k)
    ensures ExactWhenSmall(h, k, x0)
    ensures 0.0 < x0 <= 1.0 ==> 0 <= h <= k <= MAX_DENOMINATOR
  {
    var x := x0;
    var a := x.Floor;
    var h1, k1;
    h1, k1, h, k := 1, 0, a, 1;
    while x - a as real > EPS * k as real * k as real
      invariant Invariant(x0, Step(x - a as real, h1, k1, h, k))
      invariant 0.0 < x0 <= 1.0 ==> InUnit(Step(x - a as real, h1, k1, h, k)) && k <= MAX_DENOMINATOR
      decreases k1 == 0, 31623 - k
    {
      ghost var s := Step(x - a as real, h1, k1, h, k);
      Iterate(x0, s);
      x := 1.0 / (x - a as real);
      a := x.Floor;
      h1, k1, h, k := h, k, h1 + a * h, k1 + a * k;
      assert Step(x - a as real, h1, k1, h, k) == Advance(s);
    }
    Finish(x0, Step(x - a as real, h1, k1, h, k));
  }

  // ---------- The aspect ratio of a size ----------

  lemma CoprimeToOne(n: int)
    ensures Coprime(1, n) && Coprime(n, 1)
  {}

  lemma UnitIsItsOwnFraction(h: int, k: int)
    requires ExactWhenSmall(h, k, 1.0)
    ensures h == 1 && k == 1
  {
    CoprimeToOne(1);
    assert 1.0 * 1 as real == 1 as real;
  }

  lemma GcdOfCoprime(m: int, n: int)
    requires m >= 1 && n >= 0 && Coprime(m, n)
    ensures Gcd(m, n) == 1 && Gcd(n, m) == 1
  {
    GcdDividesBoth(m, n);
    EuclidNonNegative(Max(m, n), Min(m, n));
  }

  /** Brings two fractions to their common denominator and divides the numerators by their
      greatest common divisor. */
  function Combine(h0: int, k0: int, h1: int, k1: int): (int, int)
    requires k0 >= 1 && k1 >= 1
    requires GcdAll(Numerators(h0, k0, h1, k1)) != 0
  {
    var n := Numerators(h0, k0, h1, k1);
    var g := GcdAll(n);
    (n[0] / g, n[1] / g)
  }

  function Numerators(h0: int, k0: int, h1: int, k1: int): (n: seq<int>)
    requires k0 >= 1 && k1 >= 1
    ensures |n| == 2
  {
    var commonDenominator := LcmAll([k0, k1]);
    [h0 * commonDenominator / k0, h1 * commonDenominator / k1]
  }

  lemma GcdPair(m: int, n: int)
    requires m >= 0
    ensures GcdAll([m, n]) == Gcd(m, n)
  {
    assert Gcd(0, m) == m;
    calc {
      GcdFold(0, [m, n]);
      { assert [m, n][1..] == [n]; }
      GcdFold(Gcd(0, m), [n]);
      GcdFold(Gcd(m, n), []);
    }
  }

  lemma LcmWithOne(k: int)
    requires k >= 1
    ensures Lcm(1, k) == k && Lcm(k, 1) == k
  {}

  lemma LcmPair(m: int, n: int)
    requires m >= 1 && n >= 1
    ensures LcmAll([m, n]) == Lcm(m, n)
  {
    LcmWithOne(m);
    LcmNonzero(m, n);
    calc {
      LcmFold(1, [m, n]);
      { assert [m, n][1..] == [n]; }
      LcmFold(Lcm(1, m), [n]);
      LcmFold(Lcm(m, n), []);
    }
  }

  /** What the vector steps make of a reduced fraction paired with 1/1: every division is exact. */
  lemma CombineWithUnit(h: int, k: int)
    requires k >= 1 && h >= 0 && Coprime(h, k)
    ensures Numerators(1, 1, h, k) == [k, h] && Numerators(h, k, 1, 1) == [h, k]
    ensures GcdAll([k, h]) == 1 && GcdAll([h, k]) == 1
    ensures Combine(1, 1, h, k) == (k, h) && Combine(h, k, 1, 1) == (h, k)
  {
    LcmPair(1, k);
    LcmPair(k, 1);
    LcmWithOne(k);
    ExactDivision(h * k, k, h);
    assert Coprime(k, h);
    GcdOfCoprime(k, h);
    GcdPair(k, h);
    GcdPair(h, k);
  }

  lemma RatioInUnit(small: real, large: real)
    requires 0.0 < small <= large
    ensures 0.0 < small / large <= 1.0
  {}

  /** `p : q` is the reduced ratio of a size. */
  ghost predicate ReducedRatio(p: int, q: int, width: real, height: real) {
    1 <= p && 1 <= q && Coprime(p, q) && width * q as real == height * p as real
  }

  lemma ExactRatio(small: real, large: real, h: int, k: int, p: int, q: int)
    requires 0.0 < small <= large && ExactWhenSmall(h, k, small / large)
    requires q <= 31622 && ReducedRatio(p, q, small, large)
    ensures h == p && k == q
  {}

  /** The pair printed for a size: in lowest terms, small, with a smaller : larger ratio within
      `EPS` of the true one, and exact whenever the true ratio has both terms up to 31622. */
  ghost predicate IsAspectRatio(a: int, b: int, width: real, height: real)
    requires width > 0.0 && height > 0.0
  {
    && Coprime(a, b)
    && 0 <= a <= MAX_DENOMINATOR && 0 <= b <= MAX_DENOMINATOR
    && (width >= height ==> Approximates(b, a, height / width))
    && (height >= width ==> Approximates(a, b, width / height))
    && forall p, q :: ReducedRatio(p, q, width, height) && p <= 31622 && q <= 31622 ==> a == p && b == q
  }

  lemma Landscape(width: real, height: real, h: int, k: int)
    requires 0.0 < height <= width && 0 <= h <= k <= MAX_DENOMINATOR
    requires Coprime(h, k) && Approximates(h, k, height / width) && ExactWhenSmall(h, k, height / width)
    ensures IsAspectRatio(k, h, width, height)
  {
    if width == height {
      UnitIsItsOwnFraction(h, k);
    }
    forall p, q | ReducedRatio(p, q, width, height) && p <= 31622 && q <= 31622
      ensures k == p && h == q
    {
      assert ReducedRatio(q, p, height, width);
      ExactRatio(height, width, h, k, q, p);
    }
  }

  lemma Portrait(width: real, height: real, h: int, k: int)
    requires 0.0 < width < height && 0 <= h <= k <= MAX_DENOMINATOR
    requires Coprime(h, k) && Approximates(h, k, width / height) && ExactWhenSmall(h, k, width / height)
    ensures IsAspectRatio(h, k, width, height)
  {
    forall p, q | ReducedRatio(p, q, width, height) && p <= 31622 && q <= 31622
      ensures h == p && k == q
    {
      ExactRatio(width, height, h, k, p, q);
    }
  }

  /** What `RationalApproximation` promises for a ratio in the unit interval. */
  ghost predicate IsFraction(h: int, k: int, x: real) {
    && Approximates(h, k, x) && Coprime(h, k) && ExactWhenSmall(h, k, x)
    && 0 <= h <= k <= MAX_DENOMINATOR
  }

  lemma WideCombines(width: real, height: real, h0: int, k0: int, h1: int, k1: int)
    requires 0.0 < height <= width && IsFraction(h0, k0, 1.0) && IsFraction(h1, k1, height / width)
    ensures GcdAll(Numerators(h0, k0, h1, k1)) != 0
    ensures var (a, b) := Combine(h0, k0, h1, k1); IsAspectRatio(a, b, width, height)
  {
    UnitIsItsOwnFraction(h0, k0);
    CombineWithUnit(h1, k1);
    Landscape(width, height, h1, k1);
  }

  lemma TallCombines(width: real, height: real, h0: int, k0: int, h1: int, k1: int)
    requires 0.0 < width < height && IsFraction(h0, k0, width / height) && IsFraction(h1, k1, 1.0)
    ensures GcdAll(Numerators(h0, k0, h1, k1)) != 0
    ensures var (a, b) := Combine(h0, k0, h1, k1); IsAspectRatio(a, b, width, height)
  {
    UnitIsItsOwnFraction(h1, k1);
    CombineWithUnit(h0, k0);
    Portrait(width, height, h0, k0);
  }

  method VlcAspectRatio(width: real, height: real) returns (a: int, b: int)
    requires width > 0.0 && height > 0.0
    ensures IsAspectRatio(a, b, width, height)
  {
    var maximum := if width >= height then width else height;
    RatioInUnit(width, maximum);
    RatioInUnit(height, maximum);
    assert maximum / maximum == 1.0;
    var h0, k0 := RationalApproximation(width / maximum);
    var h1, k1 := RationalApproximation(height / maximum);
    assert IsFraction(h0, k0, width / maximum) && IsFraction(h1, k1, height / maximum);
    if width >= height {
      WideCombines(width, height, h0, k0, h1, k1);
    } else {
      TallCombines(width, height, h0, k0, h1, k1);
    }
    var ratio := Combine(h0, k0, h1, k1);
    a, b := ratio.0, ratio.1;
  }

  /** With one fraction equal to 1/1, as in `VlcAspectRatio`, the products that the vector
      steps form stay in 64 bits. */
  lemma CombineFits(h: int, k: int)
    requires 0 <= h <= k && 1 <= k <= MAX_DENOMINATOR && Coprime(h, k)
    ensures var l := LcmAll([1, k]);
            forall n :: n in [1 * k, h * l, 1 * l] ==> Fits64(n)
  {
    LcmPair(1, k);
    LcmWithOne(k);
    IntMulLe(h, k, k);
    IntMulLe(0, h, k);
    IntMulLe(k, MAX_DENOMINATOR, k);
    IntMulLe(k, MAX_DENOMINATOR, MAX_DENOMINATOR);
  }
}
