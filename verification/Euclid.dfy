/** The greatest common divisor and least common multiple used by the aspect ratio
    (PopcornTime/Extensions/UIScreen+AspectRatio.swift), for all integers. */
module Euclid {

  ghost predicate Divides(d: int, n: int) {
    exists m :: n == d * m
  }

  ghost predicate Coprime(a: int, b: int) {
    forall d :: d >= 1 && Divides(d, a) && Divides(d, b) ==> d == 1
  }

  lemma DividesCombination(d: int, a: int, b: int, u: int, v: int)
    requires Divides(d, a) && Divides(d, b)
    ensures Divides(d, u * a + v * b)
  {
    var i :| a == d * i;
    var j :| b == d * j;
    assert u * a + v * b == d * (u * i + v * j);
  }

  lemma DividesSelf(n: int)
    ensures Divides(n, n) && Divides(n, 0)
  {
    assert n == n * 1 && 0 == n * 0;
  }

  function Abs(n: int): nat {
    if n >= 0 then n else -n
  }

  /** Swift's `%`: the remainder has the sign of the dividend. */
  function Rem(a: int, b: int): int
    requires b != 0
  {
    if a >= 0 then a % b else -((-a) % b)
  }

  lemma RemIdentity(a: int, b: int) returns (q: int)
    requires b != 0
    ensures a == q * b + Rem(a, b) && Abs(Rem(a, b)) < Abs(b)
  {
    q := if a >= 0 then a / b else -((-a) / b);
    assert Abs(a) == b * (Abs(a) / b) + Abs(a) % b;
  }

  function Euclid(b: int, r: int): int
    decreases Abs(r)
  {
    if r == 0 then b else var s := Rem(b, r); Euclid(r, s)
  }

  function Max(m: int, n: int): int { if m >= n then m else n }

  function Min(m: int, n: int): int { if m >= n then n else m }

  function Gcd(m: int, n: int): int {
    Euclid(Max(m, n), Min(m, n))
  }

  /** The loop, on any two integers. */
  method GcdLoop(m: int, n: int) returns (b: int)
    ensures b == Gcd(m, n)
  {
    var a := 0;
    b := Max(m, n);
    var r := Min(m, n);
    while r != 0
      invariant Euclid(b, r) == Gcd(m, n)
      decreases Abs(r)
    {
      a := b;
      b := r;
      r := Rem(a, b);
    }
  }

  lemma DivisorsOfRemainder(b: int, r: int, q: int, s: int, d: int)
    requires b == q * r + s
    ensures Divides(d, b) && Divides(d, r) <==> Divides(d, r) && Divides(d, s)
  {
    if Divides(d, b) && Divides(d, r) {
      DividesCombination(d, b, r, 1, -q);
    }
    if Divides(d, r) && Divides(d, s) {
      DividesCombination(d, r, s, q, 1);
    }
  }

  lemma {:induction false} EuclidDivisors(b: int, r: int, d: int)
    ensures Divides(d, b) && Divides(d, r) <==> Divides(d, Euclid(b, r))
    decreases Abs(r)
  {
    if r == 0 {
      DividesSelf(d);
    } else {
      var q := RemIdentity(b, r);
      EuclidDivisors(r, Rem(b, r), d);
      DivisorsOfRemainder(b, r, q, Rem(b, r), d);
    }
  }

  /** The common divisors of two integers are exactly the divisors of their `Gcd`. */
  lemma GcdIsGreatest(m: int, n: int, d: int)
    ensures Divides(d, m) && Divides(d, n) <==> Divides(d, Gcd(m, n))
  {
    EuclidDivisors(Max(m, n), Min(m, n), d);
  }

  lemma GcdDividesBoth(m: int, n: int)
    ensures Divides(Gcd(m, n), m) && Divides(Gcd(m, n), n)
    ensures Gcd(m, n) == 0 ==> m == 0 && n == 0
  {
    DividesSelf(Gcd(m, n));
    GcdIsGreatest(m, n, Gcd(m, n));
  }

  lemma {:induction false} EuclidNonNegative(b: int, r: int)
    requires b >= 0 && r >= 0
    ensures Euclid(b, r) >= 0
    decreases Abs(r)
  {
    if r != 0 {
      var q := RemIdentity(b, r);
      EuclidNonNegative(r, Rem(b, r));
    }
  }

  lemma CombinationOfRemainder(b: int, r: int, q: int, s: int, i: int, j: int)
    requires b == q * r + s
    ensures j * b + (i - j * q) * r == i * r + j * s
  {}

  /** Bezout's identity, which makes the greatest common divisor an integer combination. */
  lemma {:induction false} Bezout(b: int, r: int) returns (u: int, v: int)
    ensures u * b + v * r == Euclid(b, r)
    decreases Abs(r)
  {
    if r == 0 {
      u, v := 1, 0;
    } else {
      var q := RemIdentity(b, r);
      var i, j := Bezout(r, Rem(b, r));
      u, v := j, i - j * q;
      CombinationOfRemainder(b, r, q, Rem(b, r), i, j);
    }
  }

  // ---------- Least common multiple ----------

  /** The division is exact, so its rounding does not matter. */
  function Lcm(m: int, n: int): int
    requires m != 0 || n != 0
  {
    GcdDividesBoth(m, n);
    m * n / Gcd(m, n)
  }

  lemma ExactDivision(a: int, g: int, q: int)
    requires g != 0 && a == g * q
    ensures a / g == q
  {
    assert a == g * (a / g) + a % g;
    assert g * (q - a / g) == a % g;
    SmallMultiple(g, q - a / g);
  }

  lemma SmallMultiple(g: int, t: int)
    requires 0 <= g * t < Abs(g)
    ensures t == 0
  {}

  lemma CrossFactors(m: int, n: int, g: int, x: int, y: int)
    requires m == g * x && n == g * y
    ensures m * n == g * (m * y) && m * y == n * x
  {}

  lemma LcmFactors(m: int, n: int) returns (x: int, y: int)
    requires m != 0 || n != 0
    ensures m == Gcd(m, n) * x && n == Gcd(m, n) * y
    ensures Lcm(m, n) == m * y == n * x
  {
    GcdDividesBoth(m, n);
    x :| m == Gcd(m, n) * x;
    y :| n == Gcd(m, n) * y;
    CrossFactors(m, n, Gcd(m, n), x, y);
    ExactDivision(m * n, Gcd(m, n), m * y);
  }

  /** The common multiples of two integers are exactly the multiples of their `Lcm`. */
  lemma LcmIsLeast(m: int, n: int, c: int)
    requires m != 0 || n != 0
    ensures Divides(m, c) && Divides(n, c) <==> Divides(Lcm(m, n), c)
  {
    GcdDividesBoth(m, n);
    var x, y := LcmFactors(m, n);
    var u, v := GcdCombination(m, n);
    MultiplesOfLcm(m, n, c, u, v, x, y, Gcd(m, n), Lcm(m, n));
  }

  lemma GcdCombination(m: int, n: int) returns (u: int, v: int)
    ensures u * m + v * n == Gcd(m, n)
  {
    var i, j := Bezout(Max(m, n), Min(m, n));
    u, v := if m >= n then i else j, if m >= n then j else i;
  }

  lemma MultiplesOfLcm(m: int, n: int, c: int, u: int, v: int, x: int, y: int, g: int, l: int)
    requires u * m + v * n == g != 0 && m == g * x && n == g * y && l == m * y == n * x
    ensures Divides(m, c) && Divides(n, c) <==> Divides(l, c)
  {
    if Divides(l, c) {
      var t :| c == l * t;
      assert (m * y) * t == m * (y * t);
      assert (n * x) * t == n * (x * t);
    }
    if Divides(m, c) && Divides(n, c) {
      var s :| c == m * s;
      var t :| c == n * t;
      CommonMultiple(c, s, t, u, v, x, y, g);
      assert x * y * g == l by { assert (g * x) * y == x * y * g; }
      assert c == l * (u * t + v * s);
    }
  }

  lemma CommonMultiple(c: int, s: int, t: int, u: int, v: int, x: int, y: int, g: int)
    requires c == (g * x) * s == (g * y) * t && u * (g * x) + v * (g * y) == g != 0
    ensures c == (x * y * g) * (u * t + v * s)
  {}

  // ---------- Vectors ----------

  function GcdFold(acc: int, v: seq<int>): int
    decreases |v|
  {
    if v == [] then acc else GcdFold(Gcd(acc, v[0]), v[1..])
  }

  function GcdAll(v: seq<int>): int {
    GcdFold(0, v)
  }

  lemma {:induction false} GcdFoldDivisors(acc: int, v: seq<int>, d: int)
    ensures Divides(d, GcdFold(acc, v)) <==> Divides(d, acc) && forall i :: 0 <= i < |v| ==> Divides(d, v[i])
    decreases |v|
  {
    if v != [] {
      GcdFoldDivisors(Gcd(acc, v[0]), v[1..], d);
      GcdIsGreatest(acc, v[0], d);
      assert forall i :: 0 < i < |v| ==> v[i] == v[1..][i - 1];
    }
  }

  /** The divisors of a vector's `GcdAll` are exactly the common divisors of its elements. */
  lemma GcdAllIsGreatest(v: seq<int>, d: int)
    ensures Divides(d, GcdAll(v)) <==> forall i :: 0 <= i < |v| ==> Divides(d, v[i])
  {
    DividesSelf(d);
    GcdFoldDivisors(0, v, d);
  }

  lemma LcmNonzero(m: int, n: int)
    requires m != 0 && n != 0
    ensures Lcm(m, n) != 0
  {
    var x, y := LcmFactors(m, n);
  }

  function LcmFold(acc: int, v: seq<int>): int
    requires acc != 0 && forall i :: 0 <= i < |v| ==> v[i] != 0
    decreases |v|
  {
    if v == [] then acc else LcmNonzero(acc, v[0]); LcmFold(Lcm(acc, v[0]), v[1..])
  }

  function LcmAll(v: seq<int>): int
    requires forall i :: 0 <= i < |v| ==> v[i] != 0
  {
    LcmFold(1, v)
  }

  lemma {:induction false} LcmFoldMultiples(acc: int, v: seq<int>, c: int)
    requires acc != 0 && forall i :: 0 <= i < |v| ==> v[i] != 0
    ensures Divides(LcmFold(acc, v), c) <==> Divides(acc, c) && forall i :: 0 <= i < |v| ==> Divides(v[i], c)
    decreases |v|
  {
    if v != [] {
      LcmNonzero(acc, v[0]);
      LcmFoldMultiples(Lcm(acc, v[0]), v[1..], c);
      LcmIsLeast(acc, v[0], c);
      assert forall i :: 0 < i < |v| ==> v[i] == v[1..][i - 1];
    }
  }

  /** The multiples of a vector's `LcmAll` are exactly the common multiples of its elements. */
  lemma LcmAllIsLeast(v: seq<int>, c: int)
    requires forall i :: 0 <= i < |v| ==> v[i] != 0
    ensures Divides(LcmAll(v), c) <==> forall i :: 0 <= i < |v| ==> Divides(v[i], c)
  {
    assert c == 1 * c;
    LcmFoldMultiples(1, v, c);
  }
}
