/** Fixnum arithmetic without overflow (src/number.c, src/r7rs.c).  Fixnums are
    the integers from -max - 1 to max; a result is None when the program signals
    overflow, division by zero or a negative exponent. */
module Fixnums {
  import opened Forms

  function Min(max: nat): int { -1 - max }

  predicate InRange(max: nat, n: int) { Min(max) <= n <= max }

  /** Division and remainder of C truncate toward zero. */
  function CDiv(a: int, b: int): int
    requires b != 0
  {
    if a >= 0 then (if b > 0 then a / b else -(a / -b))
    else (if b > 0 then -(-a / b) else -a / -b)
  }

  function CMod(a: int, b: int): int
    requires b != 0
  {
    a - b * CDiv(a, b)
  }

  /** Truncated division: the remainder is smaller than the divisor and has the
      sign of the dividend. */
  lemma CDivIs(a: int, b: int)
    requires b != 0
    ensures a == b * CDiv(a, b) + CMod(a, b)
    ensures -Abs(b) < CMod(a, b) < Abs(b) && (a >= 0 ==> CMod(a, b) >= 0) && (a <= 0 ==> CMod(a, b) <= 0)
  {
  }

  function Abs(n: int): (r: int)
    ensures r >= 0
  { if n >= 0 then n else -n }

  /** scm_int_multiply: its test is exact. */
  function IntMultiply(max: nat, n1: int, n2: int): (r: Option<int>)
    requires InRange(max, n1) && InRange(max, n2)
    ensures r == if InRange(max, n1 * n2) then Some(n1 * n2) else None
  {
    MultiplyTest(max, n1, n2);
    if if n1 > 0 then (if n2 > 0 then n1 > CDiv(max, n2) else n2 < CDiv(Min(max), n1))
       else (if n2 > 0 then n1 < CDiv(Min(max), n2) else n2 < 0 && n1 < CDiv(max, n2))
    then None else Some(n1 * n2)
  }

  lemma MultiplyTest(max: nat, n1: int, n2: int)
    ensures n1 > 0 && n2 > 0 ==> (n1 > CDiv(max, n2) <==> n1 * n2 > max)
    ensures n1 > 0 && n2 < 0 ==> (n2 < CDiv(Min(max), n1) <==> n1 * n2 < Min(max))
    ensures n1 < 0 && n2 > 0 ==> (n1 < CDiv(Min(max), n2) <==> n1 * n2 < Min(max))
    ensures n1 < 0 && n2 < 0 ==> (n1 < CDiv(max, n2) <==> n1 * n2 > max)
    ensures (n1 > 0 && n2 > 0) || (n1 < 0 && n2 < 0) ==> n1 * n2 > 0
    ensures (n1 > 0 && n2 < 0) || (n1 < 0 && n2 > 0) ==> n1 * n2 < 0
    ensures n1 == 0 || n2 == 0 ==> n1 * n2 == 0
  {
    if n1 > 0 && n2 > 0 { TestSame(max, n1, n2); }
    if n1 > 0 && n2 < 0 { TestOther(max, -n2, n1); Negated(n1, n2); }
    if n1 < 0 && n2 > 0 { TestOther(max, -n1, n2); Negated(n2, n1); }
    if n1 < 0 && n2 < 0 { TestSame(max, -n1, -n2); BothNegated(n1, n2); }
  }

  /** The factors of one sign, given by their magnitudes. */
  lemma TestSame(max: nat, a: nat, b: nat)
    requires a > 0 && b > 0
    ensures CDiv(max, b) == max / b && CDiv(max, 0 - b) == 0 - max / b
    ensures a > max / b <==> a * b > max
    ensures a * b > 0
  {
    Above(max, a, b);
  }

  /** And of different signs. */
  lemma TestOther(max: nat, a: nat, b: nat)
    requires a > 0 && b > 0
    ensures CDiv(Min(max), b) == 0 - (max + 1) / b
    ensures a > (max + 1) / b <==> a * b > max + 1
    ensures a * b > 0
  {
    Above(max + 1, a, b);
  }

  lemma Negated(a: int, b: int)
    ensures -b * a == -(a * b) && a * b == b * a
  {
  }

  lemma BothNegated(a: int, b: int)
    ensures -a * -b == a * b
  {
  }

  lemma Above(m: nat, a: nat, b: nat)
    requires a > 0 && b > 0
    ensures a > m / b <==> a * b > m
    ensures a * b > 0
  {
    var q, r := m / b, m % b;
    assert m == b * q + r;
    if a > q {
      assert a * b >= (q + 1) * b == q * b + b;
    } else {
      assert a * b <= q * b;
    }
  }

  /** scm_int_quotient and scm_int_remainder. */
  function IntQuotient(max: nat, n1: int, n2: int): (r: Option<int>)
    requires InRange(max, n1) && InRange(max, n2)
    ensures r.None? <==> n2 == 0 || !InRange(max, CDiv(n1, n2))
    ensures r.Some? ==> r.value == CDiv(n1, n2) && InRange(max, r.value)
  {
    if n2 == 0 then None
    else
      QuotientRange(max, n1, n2);
      if n1 == Min(max) && n2 == -1 then None else Some(CDiv(n1, n2))
  }

  lemma QuotientRange(max: nat, n1: int, n2: int)
    requires InRange(max, n1) && n2 != 0
    ensures InRange(max, CDiv(n1, n2)) <==> !(n1 == Min(max) && n2 == -1)
  {
    var a, b := Abs(n1), Abs(n2);
    DivSmaller(a, b);
    assert Abs(CDiv(n1, n2)) == a / b;
  }

  lemma DivSmaller(a: nat, b: nat)
    requires b > 0
    ensures 0 <= a / b <= a && (b > 1 && a > 0 ==> a / b < a) && (b == 1 ==> a / b == a)
  {
    var q := a / b;
    assert a == b * q + a % b;
    if b > 1 && q > 0 { assert b * q >= 2 * q; }
    if q > 0 { assert b * q >= q; }
  }

  function IntRemainder(n1: int, n2: int): (r: Option<int>)
    ensures r == if n2 == 0 then None else Some(CMod(n1, n2))
  {
    if n2 == 0 then None
    else if n2 == -1 then assert CDiv(n1, -1) == -n1; Some(0)
    else Some(CMod(n1, n2))
  }

  /** scm_int_modulo: the remainder with the sign of the divisor. */
  function IntModulo(n1: int, n2: int): (r: Option<int>)
    ensures r.None? <==> n2 == 0
    ensures r.Some? ==> -Abs(n2) < r.value < Abs(n2) && (n2 > 0 ==> r.value >= 0) && (n2 < 0 ==> r.value <= 0)
    ensures r.Some? ==> exists q :: n1 == n2 * q + r.value
  {
    if n2 == 0 then None
    else
      CDivIs(n1, n2);
      var rem := IntRemainder(n1, n2).value;
      assert n1 == n2 * CDiv(n1, n2) + rem && n1 == n2 * (CDiv(n1, n2) - 1) + (rem + n2);
      if rem != 0 && ((rem < 0) != (n2 < 0)) then Some(rem + n2) else Some(rem)
  }

  /* ---- expt ---- */

  function Pow(b: int, e: nat): int {
    if e == 0 then 1 else b * Pow(b, e - 1)
  }

  lemma {:induction false} PowDouble(b: int, e: nat)
    ensures Pow(b, 2 * e) == Pow(b * b, e)
  {
    if e > 0 {
      PowDouble(b, e - 1);
      assert Pow(b, 2 * e) == b * Pow(b, 2 * e - 1) == b * (b * Pow(b, 2 * e - 2));
      assert b * (b * Pow(b, 2 * e - 2)) == (b * b) * Pow(b * b, e - 1);
    }
  }

  /** Powers of positive numbers do not shrink a product. */
  lemma {:induction false} PowPositive(b: int, e: nat)
    requires b > 0
    ensures Pow(b, e) >= 1 && (e > 0 ==> Pow(b, e) >= b)
  {
    if e > 0 {
      PowPositive(b, e - 1);
      assert b * Pow(b, e - 1) >= b * 1;
    }
  }

  lemma Grows(a: int, p: int)
    requires p >= 1
    ensures a > 0 ==> a * p >= a
    ensures a < 0 ==> a * p <= a
  {
  }

  lemma SquarePositive(b: int)
    requires b != 0
    ensures b * b > 0 && (Abs(b) >= 2 ==> b * b >= 4)
  {
    if b > 0 { assert b * b >= b; } else { assert -b * -b == b * b; assert -b * -b >= -b; }
    if b >= 2 { assert b * b >= 2 * b; }
    if b <= -2 { assert -b * -b >= 2 * -b; }
  }

  /** One turn of the loop: an odd exponent takes a factor out, the rest is a square. */
  lemma PowHalf(b: int, e: nat)
    ensures Pow(b, e) == if e % 2 == 1 then b * Pow(b * b, e / 2) else Pow(b * b, e / 2)
  {
    PowDouble(b, e / 2);
    if e % 2 == 1 {
      assert e == 2 * (e / 2) + 1;
      assert Pow(b, e) == b * Pow(b, e - 1);
    } else {
      assert e == 2 * (e / 2);
    }
  }

  lemma Associate(x: int, y: int, z: int)
    ensures x * (y * z) == (x * y) * z
  {
  }

  /** A partial product out of range means that the power is. */
  lemma ProductOut(max: nat, result: int, b: int, e: nat)
    requires !InRange(max, result * b) && e % 2 == 1
    ensures !InRange(max, result * Pow(b, e))
  {
    hide Pow;
    var p := Pow(b * b, e / 2);
    PowHalf(b, e);
    Associate(result, b, p);
    assert b != 0;
    SquarePositive(b);
    PowPositive(b * b, e / 2);
    Grows(result * b, p);
  }

  lemma TimesAtLeast(a: int, b: int, p: int)
    requires a >= b && p >= 0
    ensures a * p >= b * p
  {
  }

  /** So does a square out of range, while the exponent left is not 0. */
  lemma SquareOut(max: nat, result: int, b: int, e: nat)
    requires max >= 1 && b * b > max && e > 0 && (result == 1 || Abs(result) >= 2)
    ensures !InRange(max, result * Pow(b * b, e))
  {
    hide Pow;
    PowPositive(b * b, e);
    var p := Pow(b * b, e);
    AbsTimes(result, p);
    TimesAtLeast(Abs(result), if result == 1 then 1 else 2, p);
    if result == 1 { assert result * p == p; }
  }

  lemma PowZero(result: int, b: int)
    ensures result * Pow(b, 0) == result
  {
  }

  /** What is kept about the magnitudes: small bases stay small, others do not
      shrink. */
  predicate Sizes(base0: int, base: int, result: int) {
    if Abs(base0) <= 1 then Abs(base) <= 1 else Abs(base) >= 2 && (result == 1 || Abs(result) >= 2)
  }

  /** The integer part of scm_p_expt: overflow exactly when the power is out of
      range. */
  method Expt(max: nat, base0: int, expo0: int) returns (r: Option<int>)
    requires max >= 1 && InRange(max, base0) && InRange(max, expo0)
    ensures r == if expo0 >= 0 && InRange(max, Pow(base0, expo0)) then Some(Pow(base0, expo0)) else None
  {
    hide Pow, IntMultiply;
    if expo0 < 0 { return None; }
    var base, expo: nat, result := base0, expo0, 1;
    assert result * Pow(base, expo) == Pow(base0, expo0);
    while expo > 0
      invariant InRange(max, base) && InRange(max, result) && result * Pow(base, expo) == Pow(base0, expo0)
      invariant Sizes(base0, base, result)
      decreases expo
    {
      PowHalf(base, expo);
      Associate(result, base, Pow(base * base, expo / 2));
      if expo % 2 == 1 {
        var product := IntMultiply(max, result, base);
        if product.None? {
          ProductOut(max, result, base, expo);
          return None;
        }
        FactorsGrow(result, base);
        result := product.value;
      }
      expo := expo / 2;
      assert result * Pow(base * base, expo) == Pow(base0, expo0);
      if expo > 0 {
        var square := IntMultiply(max, base, base);
        SquareSmall(base);
        if square.None? {
          SquareOut(max, result, base, expo);
          return None;
        }
        base := square.value;
      } else {
        PowZero(result, base * base);
        PowZero(result, base);
      }
    }
    PowZero(result, base);
    r := Some(result);
  }

  lemma FactorsGrow(result: int, base: int)
    ensures Abs(base) >= 2 && (result == 1 || Abs(result) >= 2) ==> Abs(result * base) >= 2
  {
    if Abs(base) >= 2 && Abs(result) >= 2 {
      AbsTimes(result, base);
      TimesAtLeast(Abs(result), 2, Abs(base));
    }
  }

  lemma AbsTimes(a: int, b: int)
    ensures Abs(a * b) == Abs(a) * Abs(b)
  {
    if a >= 0 && b >= 0 { assert a * b >= 0; }
    if a < 0 && b < 0 { assert a * b == -a * -b; assert -a * -b >= 0; }
    if a >= 0 && b < 0 { assert a * b == -(a * -b); assert a * -b >= 0; }
    if a < 0 && b >= 0 { assert a * b == -(-a * b); assert -a * b >= 0; }
  }

  lemma SquareSmall(b: int)
    ensures Abs(b) <= 1 ==> 0 <= b * b <= 1
    ensures Abs(b) >= 2 ==> b * b >= 4
  {
    if Abs(b) >= 2 { SquarePositive(b); }
  }

  /* ---- gcd and lcm ---- */

  ghost predicate Divides(d: int, n: int) { exists q: int :: n == d * q }

  /** g is x * u + y * v for some u and v, so every common divisor divides it. */
  ghost predicate Combination(g: int, x: int, y: int) { exists u: int, v: int :: g == x * u + y * v }

  ghost predicate IsGcd(g: int, x: int, y: int) {
    g >= 0 && Divides(g, x) && Divides(g, y) && Combination(g, x, y)
  }

  /** It is the greatest, and the only one. */
  lemma GcdGreatest(g: int, x: int, y: int, d: int)
    requires IsGcd(g, x, y) && Divides(d, x) && Divides(d, y)
    ensures Divides(d, g)
  {
    var u: int, v: int :| g == x * u + y * v;
    var a: int :| x == d * a;
    var b: int :| y == d * b;
    assert (d * a) * u + (d * b) * v == d * (a * u + b * v);
  }

  lemma GcdUnique(g: int, g': int, x: int, y: int)
    requires IsGcd(g, x, y) && IsGcd(g', x, y)
    ensures g == g'
  {
    GcdGreatest(g, x, y, g');
    GcdGreatest(g', x, y, g);
    DividesBoth(g, g');
  }

  lemma DividesBoth(a: int, b: int)
    requires a >= 0 && b >= 0 && Divides(a, b) && Divides(b, a)
    ensures a == b
  {
    var p: int :| b == a * p;
    var q: int :| a == b * q;
    if a > 0 && b > 0 {
      PositiveFactor(a, p);
      PositiveFactor(b, q);
    }
  }

  lemma PositiveFactor(a: int, p: int)
    requires a > 0 && a * p > 0
    ensures p >= 1 && a * p >= a
  {
    TimesAtLeast(p, 1, if p >= 1 then a else 0);
  }

  /** A step of the algorithm of Euclid. */
  lemma GcdStep(g: int, x: int, y: int)
    requires x != 0 && IsGcd(g, CMod(y, x), x)
    ensures IsGcd(g, x, y)
  {
    hide CDiv, CMod;
    var q, m := CDiv(y, x), CMod(y, x);
    CDivIs(y, x);
    var a: int :| m == g * a;
    var b: int :| x == g * b;
    FactorOut(g, b, q, a);
    assert y == g * (b * q + a);
    var u: int, v: int :| g == m * u + x * v;
    assert m == y - x * q;
    Regroup(x, y, q, u, v);
    assert g == x * (v - q * u) + y * u;
  }

  lemma FactorOut(g: int, b: int, q: int, a: int)
    ensures (g * b) * q + g * a == g * (b * q + a)
  {
  }

  lemma Regroup(x: int, y: int, q: int, u: int, v: int)
    ensures (y - x * q) * u + x * v == x * (v - q * u) + y * u
  {
    assert (y - x * q) * u == y * u - (x * q) * u;
    assert x * (v - q * u) == x * v - x * (q * u);
    assert (x * q) * u == x * (q * u);
  }

  lemma GcdZero(y: int)
    ensures IsGcd(Abs(y), 0, y)
  {
    assert 0 == Abs(y) * 0;
    if y >= 0 {
      assert y == Abs(y) * 1 && Abs(y) == 0 * 0 + y * 1;
    } else {
      assert y == Abs(y) * -1 && Abs(y) == 0 * 0 + y * -1;
    }
  }

  /** gcd: the greatest common divisor, or overflow when that is max + 1. */
  method Gcd(max: nat, x0: int, y0: int) returns (r: Option<int>)
    requires InRange(max, x0) && InRange(max, y0)
    ensures r.Some? ==> IsGcd(r.value, x0, y0) && InRange(max, r.value)
    ensures r.None? ==> IsGcd(max + 1, x0, y0)
  {
    var x, y := x0, y0;
    while x != 0
      invariant InRange(max, x) && InRange(max, y)
      invariant forall g :: IsGcd(g, x, y) ==> IsGcd(g, x0, y0)
      decreases Abs(x)
    {
      var tmp := x;
      CDivIs(y, x);
      var rem := IntRemainder(y, x);
      forall g | IsGcd(g, rem.value, tmp) ensures IsGcd(g, x0, y0) { GcdStep(g, x, y); }
      x, y := rem.value, tmp;
    }
    GcdZero(y);
    if y == Min(max) { return None; }
    return Some(if y >= 0 then y else -y);
  }

  ghost predicate IsLcm(l: int, x: int, y: int) {
    l >= 0 && Divides(x, l) && Divides(y, l) && forall m :: Divides(x, m) && Divides(y, m) ==> Divides(l, m)
  }

  /** x * (y / g), up to the sign, is the least common multiple. */
  lemma LcmIs(x: int, y: int, g: int, k: int)
    requires x != 0 && y != 0 && IsGcd(g, x, y) && y == g * k
    ensures IsLcm(Abs(x * k), x, y)
  {
    var l := x * k;
    var j: int :| x == g * j;
    var u: int, v: int :| g == x * u + y * v;
    Coprime(g, j, k, u, v);
    assert y * j == l by { Times3(g, j, k); }
    forall m | Divides(x, m) && Divides(y, m) ensures Divides(l, m) {
      var a: int :| m == x * a;
      var b: int :| m == y * b;
      Euclid(g, j, k, u, v, a, b);
      assert m == l * (b * u + a * v);
    }
    LcmSign(l, x, y, k, j);
  }

  lemma Times3(g: int, j: int, k: int)
    ensures (g * j) * k == (g * k) * j
  {
    assert (g * j) * k == g * (j * k) && (g * k) * j == g * (k * j);
  }

  lemma Coprime(g: int, j: int, k: int, u: int, v: int)
    requires g != 0 && g == (g * j) * u + (g * k) * v
    ensures 1 == j * u + k * v
  {
    assert (g * j) * u == g * (j * u) && (g * k) * v == g * (k * v);
    assert g * 1 == g * (j * u + k * v);
    Cancel(g, 1, j * u + k * v);
  }

  /** A common multiple of g * j and g * k, for coprime j and k. */
  lemma Euclid(g: int, j: int, k: int, u: int, v: int, a: int, b: int)
    requires g != 0 && 1 == j * u + k * v && (g * j) * a == (g * k) * b
    ensures (g * j) * a == ((g * j) * k) * (b * u + a * v)
  {
    assert g * (j * a) == g * (k * b);
    Cancel(g, j * a, k * b);
    var w := b * u + a * v;
    assert (j * a) * u == (k * b) * u == k * (b * u);
    assert a * (j * u + k * v) == (j * a) * u + k * (a * v);
    assert a == k * w;
    assert (g * j) * (k * w) == ((g * j) * k) * w;
  }

  lemma Cancel(g: int, a: int, b: int)
    requires g != 0 && g * a == g * b
    ensures a == b
  {
  }

  lemma LcmSign(l: int, x: int, y: int, k: int, j: int)
    requires l == x * k == y * j && forall m :: Divides(x, m) && Divides(y, m) ==> Divides(l, m)
    ensures IsLcm(Abs(l), x, y)
  {
    if l >= 0 {
      assert Divides(x, l) && Divides(y, l);
    } else {
      assert -l == x * -k == y * -j;
      assert Divides(x, -l) && Divides(y, -l);
      forall m | Divides(x, m) && Divides(y, m) ensures Divides(-l, m) {
        assert Divides(l, m);
        var q: int :| m == l * q;
        assert m == -l * -q;
      }
    }
  }

  lemma LcmZero(x: int, y: int)
    requires x == 0 || y == 0
    ensures IsLcm(0, x, y)
  {
    assert 0 == x * 0 && 0 == y * 0;
    forall m | Divides(x, m) && Divides(y, m) ensures Divides(0, m) {
      var a: int :| m == x * a;
      var b: int :| m == y * b;
      assert m == 0 * 0;
    }
  }

  /** The integer part of scm_p_lcm for two numbers: the least common multiple, or
      overflow when it is out of range. */
  method Lcm(max: nat, left: int, right: int) returns (r: Option<int>)
    requires InRange(max, left) && InRange(max, right)
    ensures r.Some? ==> IsLcm(r.value, left, right) && InRange(max, r.value)
    ensures r.None? ==> exists l :: IsLcm(l, left, right) && l > max
  {
    hide IsGcd, IsLcm;
    var result;
    if left == 0 || right == 0 {
      LcmZero(left, right);
      result := 0;
    } else {
      var g := Gcd(max, left, right);
      if g.None? {
        LcmOfExtremes(max, left, right);
        return None;
      }
      ExactQuotient(max, g.value, left, right);
      var k := CDiv(right, g.value);
      LcmIs(left, right, g.value, k);
      var product := IntMultiply(max, left, k);
      if product.None? {
        assert IsLcm(Abs(left * k), left, right) && Abs(left * k) > max;
        return None;
      }
      result := product.value;
    }
    if result == Min(max) {
      assert IsLcm(max + 1, left, right);
      return None;
    }
    if result < 0 { result := -result; }
    return Some(result);
  }

  /** y / g is exact. */
  lemma ExactQuotient(max: nat, g: int, x: int, y: int)
    requires IsGcd(g, x, y) && y != 0 && InRange(max, y)
    ensures g > 0 && y == g * CDiv(y, g) && InRange(max, CDiv(y, g))
  {
    var k: int :| y == g * k;
    assert g != 0;
    ExactDiv(g, k);
    DivSmaller(Abs(y), g);
  }

  lemma ExactDiv(g: int, k: int)
    requires g > 0
    ensures CDiv(g * k, g) == k && Abs(CDiv(g * k, g)) == Abs(g * k) / g
  {
    if k >= 0 {
      TimesAtLeast(k, 0, g);
      MulDiv(g, k);
    } else {
      TimesAtLeast(-k, 1, g);
      MulDiv(g, -k);
      assert g * k == -(g * -k);
    }
  }

  lemma MulDiv(g: nat, k: nat)
    requires g > 0
    ensures g * k >= 0 && (g * k) / g == k
  {
    TimesAtLeast(k, 0, g);
    var q := (g * k) / g;
    assert g * k == g * q + (g * k) % g;
    if q > k { TimesAtLeast(q, k + 1, g); }
    if q < k { TimesAtLeast(k, q + 1, g); }
  }

  /** Both are the least fixnum. */
  lemma LcmOfExtremes(max: nat, x: int, y: int)
    requires IsGcd(max + 1, x, y) && x != 0 && y != 0 && InRange(max, x) && InRange(max, y)
    ensures IsLcm(max + 1, x, y)
  {
    OnlyMultiple(max, x);
    OnlyMultiple(max, y);
    if y == max + 1 { LcmIs(x, y, max + 1, 1); } else { assert y == (max + 1) * -1; LcmIs(x, y, max + 1, -1); }
  }

  lemma OnlyMultiple(max: nat, x: int)
    requires Divides(max + 1, x) && x != 0 && InRange(max, x)
    ensures x == Min(max)
  {
    var q: int :| x == (max + 1) * q;
    if q >= 1 { TimesAtLeast(q, 1, max + 1); }
    if q <= -2 { TimesAtLeast(-q, 2, max + 1); }
  }

  /* ---- exact-integer-sqrt ---- */

  /** A sum or product of C: it must not overflow. */
  function CAdd(max: nat, a: int, b: int): (r: int)
    requires InRange(max, a) && InRange(max, b) && InRange(max, a + b)
    ensures r == a + b && InRange(max, r)
  {
    a + b
  }

  function CMul(max: nat, a: int, b: int): (r: int)
    requires InRange(max, a) && InRange(max, b) && InRange(max, a * b)
    ensures r == a * b && InRange(max, r)
  {
    a * b
  }

  /** A step of the method of Newton. */
  function Newton(n: nat, root: nat): nat
    requires root >= 1
  {
    (root + n / root) / 2
  }

  /** It does not go below the root. */
  lemma NewtonAbove(n: nat, root: nat)
    requires 1 <= root <= n
    ensures Newton(n, root) >= 1 && n < (Newton(n, root) + 1) * (Newton(n, root) + 1)
  {
    var q, next := n / root, Newton(n, root);
    assert n == root * q + n % root;
    assert q >= 1;
    assert n < root * (q + 1);
    var s, t := root + q + 1, 2 * (next + 1);
    SumOfSquares(root, q + 1);
    Monotone(s, t);
    assert t * t == 4 * ((next + 1) * (next + 1));
  }

  lemma SumOfSquares(a: int, b: int)
    ensures 4 * (a * b) <= (a + b) * (a + b)
  {
    assert (a + b) * (a + b) - 4 * (a * b) == (a - b) * (a - b);
    assert (a - b) * (a - b) >= 0;
  }

  lemma Monotone(s: nat, t: nat)
    requires s <= t
    ensures s * s <= t * t
  {
    TimesAtLeast(t, s, s);
    TimesAtLeast(t, s, t);
  }

  /** The sum in the loop fits. */
  lemma NewtonFits(max: nat, n: nat, root: nat)
    requires 4 <= max && n <= max && 1 <= root <= n && 2 * root <= n + 1 && n < (root + 1) * (root + 1)
    ensures InRange(max, n / root) && InRange(max, root + n / root)
  {
    var q := n / root;
    assert n == root * q + n % root;
    if root >= 2 {
      TimesAtLeast(root, 2, q);
    } else {
      assert n < 4;
    }
  }

  /** A step that does not go down stops at the root. */
  lemma NewtonStops(n: nat, root: nat)
    requires root >= 1 && Newton(n, root) >= root
    ensures root * root <= n
  {
    var q := n / root;
    assert n == root * q + n % root;
    TimesAtLeast(q, root, root);
  }

  lemma NewtonFirst(n: nat)
    requires n > 1
    ensures Newton(n, n) == n / 2 + n % 2 && n < (n + 1) * (n + 1)
  {
    assert n / n == 1;
    TimesAtLeast(n + 1, 1, n + 1);
  }

  lemma RootInRange(max: nat, n: nat, root: nat)
    requires n <= max && root * root <= n
    ensures InRange(max, root) && InRange(max, root * root)
  {
    if root >= 1 { TimesAtLeast(root, 1, root); }
  }

  /** scm_p_exact_integer_sqrt: the largest s with s * s <= k, and k - s * s; no
      sum or product on the way overflows. */
  method ExactIntegerSqrt(max: nat, k: int) returns (r: Option<(int, int)>)
    requires max >= 4 && InRange(max, k)
    ensures r.None? <==> k < 0
    ensures r.Some? ==> var (s, rest) := r.value; s >= 0 && s * s <= k < (s + 1) * (s + 1) && rest == k - s * s
  {
    hide Newton;
    if k < 0 { return None; }
    var n: nat := k;
    var root: nat := n;
    if 1 < n {
      var next: nat := CAdd(max, n / 2, n % 2);
      NewtonFirst(n);
      while next < root
        invariant 1 <= root <= n && next == Newton(n, root)
        invariant next < root ==> 2 * next <= n + 1
        invariant n < (root + 1) * (root + 1)
        decreases root
      {
        NewtonAbove(n, root);
        root := next;
        NewtonFits(max, n, root);
        next := NewtonNext(max, n, root);
      }
      NewtonStops(n, root);
    }
    RootInRange(max, n, root);
    r := Some((root, n - CMul(max, root, root)));
  }

  /** (root + n / root) / 2, computed without overflow. */
  function NewtonNext(max: nat, n: nat, root: nat): (next: nat)
    requires n <= max && root >= 1 && InRange(max, root) && InRange(max, n / root) && InRange(max, root + n / root)
    ensures next == Newton(n, root)
  {
    CAdd(max, root, n / root) / 2
  }
}
