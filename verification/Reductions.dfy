/** gcd and lcm of any number of arguments (src/number.c): reduction operators,
    applied to the result so far and the next argument.  A result on the way that
    is out of range is an overflow, even if later arguments would make it small. */
module Reductions {
  import opened Forms
  import opened Fixnums

  ghost predicate DividesAll(d: int, xs: seq<int>) {
    forall i :: 0 <= i < |xs| ==> Divides(d, xs[i])
  }

  ghost predicate MultipleOfAll(m: int, xs: seq<int>) {
    forall i :: 0 <= i < |xs| ==> Divides(xs[i], m)
  }

  /** g has the common divisors of `xs`, so it is divided by each of them. */
  ghost predicate SameDivisors(g: int, xs: seq<int>) {
    forall d :: Divides(d, g) <==> DividesAll(d, xs)
  }

  ghost predicate SameMultiples(l: int, xs: seq<int>) {
    forall m :: Divides(l, m) <==> MultipleOfAll(m, xs)
  }

  ghost predicate IsGcdAll(g: int, xs: seq<int>) { g >= 0 && SameDivisors(g, xs) }

  ghost predicate IsLcmAll(l: int, xs: seq<int>) { l >= 0 && SameMultiples(l, xs) }

  lemma DividesSelf(d: int)
    ensures Divides(d, d) && Divides(1, d) && Divides(d, 0)
  {
    assert d == d * 1 && d == 1 * d && 0 == d * 0;
  }

  lemma DividesTrans(a: int, b: int, c: int)
    requires Divides(a, b) && Divides(b, c)
    ensures Divides(a, c)
  {
    var p: int :| b == a * p;
    var q: int :| c == b * q;
    Associate(a, p, q);
    assert c == a * (p * q);
  }

  lemma GcdAllUnique(g: int, h: int, xs: seq<int>)
    requires IsGcdAll(g, xs) && IsGcdAll(h, xs)
    ensures g == h
  {
    DividesSelf(g);
    DividesSelf(h);
    assert DividesAll(g, xs) && DividesAll(h, xs);
    DividesBoth(g, h);
  }

  lemma LcmAllUnique(l: int, k: int, xs: seq<int>)
    requires IsLcmAll(l, xs) && IsLcmAll(k, xs)
    ensures l == k
  {
    DividesSelf(l);
    DividesSelf(k);
    assert MultipleOfAll(l, xs) && MultipleOfAll(k, xs);
    DividesBoth(l, k);
  }

  /** One step of the reduction. */
  lemma GcdNext(acc: int, xs: seq<int>, y: int, g: int)
    requires SameDivisors(acc, xs) && IsGcd(g, acc, y)
    ensures IsGcdAll(g, xs + [y])
  {
    hide IsGcd;
    var all := xs + [y];
    GcdParts(g, acc, y);
    forall d ensures Divides(d, g) <==> DividesAll(d, all) {
      if Divides(d, g) {
        DividesTrans(d, g, acc);
        DividesTrans(d, g, y);
        assert DividesAll(d, xs);
      }
      if DividesAll(d, all) {
        assert forall i :: 0 <= i < |xs| ==> xs[i] == all[i];
        assert all[|xs|] == y && DividesAll(d, xs) && Divides(d, acc);
        GcdGreatest(g, acc, y, d);
      }
    }
  }

  lemma GcdParts(g: int, x: int, y: int)
    requires IsGcd(g, x, y)
    ensures g >= 0 && Divides(g, x) && Divides(g, y)
  {
  }

  lemma LcmNext(acc: int, xs: seq<int>, y: int, l: int)
    requires SameMultiples(acc, xs) && IsLcm(l, acc, y)
    ensures IsLcmAll(l, xs + [y])
  {
    var all := xs + [y];
    forall m ensures Divides(l, m) <==> MultipleOfAll(m, all) {
      if Divides(l, m) {
        DividesTrans(acc, l, m);
        DividesTrans(y, l, m);
        assert MultipleOfAll(m, xs);
      }
      if MultipleOfAll(m, all) {
        assert forall i :: 0 <= i < |xs| ==> xs[i] == all[i];
        assert all[|xs|] == y && MultipleOfAll(m, xs) && Divides(acc, m);
      }
    }
  }

  lemma SameOne(x: int)
    ensures SameDivisors(x, [x]) && SameMultiples(x, [x])
  {
    forall d ensures Divides(d, x) <==> DividesAll(d, [x]) {
      if DividesAll(d, [x]) { assert Divides(d, [x][0]); }
    }
    forall m ensures Divides(x, m) <==> MultipleOfAll(m, [x]) {
      if MultipleOfAll(m, [x]) { assert Divides([x][0], m); }
    }
  }

  /** The numbers of arguments after which the reduction has an intermediate or
      final result: a single argument is combined with the unit. */
  predicate Reduced(k: nat, n: nat) {
    k <= n && (k >= 2 || (k == 1 && n == 1))
  }

  /** Reductions of the arguments on the way, one of which is out of range. */
  ghost predicate GcdOverflows(max: nat, xs: seq<int>) {
    exists k: nat :: Reduced(k, |xs|) && IsGcdAll(max + 1, xs[..k])
  }

  ghost predicate LcmOverflows(max: nat, xs: seq<int>) {
    exists k: nat, l: int :: Reduced(k, |xs|) && IsLcmAll(l, xs[..k]) && l > max
  }

  /** gcd of the first i arguments. */
  ghost predicate GcdSoFar(max: nat, xs: seq<int>, i: nat, acc: int) {
    i <= |xs| && InRange(max, acc) && SameDivisors(acc, xs[..i]) &&
    forall k: nat :: k <= i && Reduced(k, |xs|) ==> !IsGcdAll(max + 1, xs[..k])
  }

  ghost predicate LcmSoFar(max: nat, xs: seq<int>, i: nat, acc: int) {
    i <= |xs| && InRange(max, acc) && SameMultiples(acc, xs[..i]) &&
    forall k: nat, l: int :: k <= i && Reduced(k, |xs|) && IsLcmAll(l, xs[..k]) ==> l <= max
  }

  lemma GcdSoFarNext(max: nat, xs: seq<int>, i: nat, acc: int, g: int)
    requires i < |xs| && (i == 0 ==> |xs| == 1) && GcdSoFar(max, xs, i, acc) && IsGcd(g, acc, xs[i]) && g >= 0
    ensures if InRange(max, g) then GcdSoFar(max, xs, i + 1, g) && IsGcdAll(g, xs[..i + 1])
            else g == max + 1 ==> GcdOverflows(max, xs)
  {
    hide IsGcd, SameDivisors;
    assert xs[..i + 1] == xs[..i] + [xs[i]];
    GcdNext(acc, xs[..i], xs[i], g);
    assert Reduced(i + 1, |xs|);
    if InRange(max, g) {
      assert SameDivisors(g, xs[..i + 1]);
      if IsGcdAll(max + 1, xs[..i + 1]) { GcdAllUnique(g, max + 1, xs[..i + 1]); }
    }
  }

  lemma LcmSoFarNext(max: nat, xs: seq<int>, i: nat, acc: int, l: int)
    requires i < |xs| && (i == 0 ==> |xs| == 1) && LcmSoFar(max, xs, i, acc) && IsLcm(l, acc, xs[i]) && l >= 0
    ensures if l <= max then LcmSoFar(max, xs, i + 1, l) && IsLcmAll(l, xs[..i + 1]) else LcmOverflows(max, xs)
  {
    hide IsLcm, SameMultiples;
    assert xs[..i + 1] == xs[..i] + [xs[i]];
    LcmNext(acc, xs[..i], xs[i], l);
    assert Reduced(i + 1, |xs|);
    if l <= max {
      var first := xs[..i + 1];
      forall l' | IsLcmAll(l', first) ensures l' <= max { LcmAllUnique(l, l', first); }
    }
  }

  /** gcd: the greatest common divisor of all arguments; overflow iff that of some
      of the first arguments is one more than the largest fixnum. */
  method GcdReduce(max: nat, xs: seq<int>) returns (r: Option<int>)
    requires forall i :: 0 <= i < |xs| ==> InRange(max, xs[i])
    ensures r.Some? ==> IsGcdAll(r.value, xs) && InRange(max, r.value)
    ensures r.None? <==> GcdOverflows(max, xs)
  {
    hide IsGcd, SameDivisors, GcdSoFar, GcdOverflows;
    if xs == [] {
      GcdOfNone(max, xs);
      return Some(0);
    }
    var acc, i := if |xs| == 1 then 0 else xs[0], if |xs| == 1 then 0 else 1;
    GcdFirst(max, xs, i, acc);
    while i < |xs|
      invariant i <= |xs| && (i == 0 ==> |xs| == 1) && GcdSoFar(max, xs, i, acc) && InRange(max, acc)
      invariant Reduced(i, |xs|) ==> IsGcdAll(acc, xs[..i])
      invariant |xs| == 1 || i >= 1
    {
      var g := Gcd(max, acc, xs[i]);
      if g.None? {
        GcdSoFarNext(max, xs, i, acc, max + 1);
        return None;
      }
      GcdPositive(g.value, acc, xs[i]);
      GcdSoFarNext(max, xs, i, acc, g.value);
      acc, i := g.value, i + 1;
    }
    assert xs[..|xs|] == xs;
    GcdSoFarEnd(max, xs, acc);
    r := Some(acc);
  }

  lemma GcdPositive(g: int, x: int, y: int)
    requires IsGcd(g, x, y)
    ensures g >= 0
  {
  }

  lemma GcdOfNone(max: nat, xs: seq<int>)
    requires xs == []
    ensures IsGcdAll(0, xs) && IsLcmAll(1, xs) && !GcdOverflows(max, xs) && !LcmOverflows(max, xs)
  {
    forall d ensures Divides(d, 0) && Divides(1, d) { DividesSelf(d); }
  }

  lemma GcdFirst(max: nat, xs: seq<int>, i: nat, acc: int)
    requires xs != [] && forall i :: 0 <= i < |xs| ==> InRange(max, xs[i])
    requires i == (if |xs| == 1 then 0 else 1) && acc == if |xs| == 1 then 0 else xs[0]
    ensures GcdSoFar(max, xs, i, acc)
  {
    hide SameDivisors;
    if i == 0 {
      GcdOfNone(max, []);
      assert xs[..0] == [];
    } else {
      SameOne(xs[0]);
      assert xs[..1] == [xs[0]];
    }
  }

  lemma GcdSoFarEnd(max: nat, xs: seq<int>, acc: int)
    requires GcdSoFar(max, xs, |xs|, acc)
    ensures !GcdOverflows(max, xs) && InRange(max, acc)
  {
  }

  /** lcm: the least common multiple of all arguments; overflow iff that of some of
      the first arguments is out of range. */
  method LcmReduce(max: nat, xs: seq<int>) returns (r: Option<int>)
    requires max >= 1 && forall i :: 0 <= i < |xs| ==> InRange(max, xs[i])
    ensures r.Some? ==> IsLcmAll(r.value, xs) && InRange(max, r.value)
    ensures r.None? <==> LcmOverflows(max, xs)
  {
    hide IsLcm, SameMultiples, LcmSoFar, LcmOverflows;
    if xs == [] {
      GcdOfNone(max, xs);
      return Some(1);
    }
    var acc, i := if |xs| == 1 then 1 else xs[0], if |xs| == 1 then 0 else 1;
    LcmFirst(max, xs, i, acc);
    while i < |xs|
      invariant i <= |xs| && (i == 0 ==> |xs| == 1) && LcmSoFar(max, xs, i, acc) && InRange(max, acc)
      invariant Reduced(i, |xs|) ==> IsLcmAll(acc, xs[..i])
      invariant |xs| == 1 || i >= 1
    {
      var l := Lcm(max, acc, xs[i]);
      if l.None? {
        ghost var out: int :| IsLcm(out, acc, xs[i]) && out > max;
        LcmSoFarNext(max, xs, i, acc, out);
        return None;
      }
      LcmPositive(l.value, acc, xs[i]);
      LcmSoFarNext(max, xs, i, acc, l.value);
      acc, i := l.value, i + 1;
    }
    assert xs[..|xs|] == xs;
    LcmSoFarEnd(max, xs, acc);
    r := Some(acc);
  }

  lemma LcmPositive(l: int, x: int, y: int)
    requires IsLcm(l, x, y)
    ensures l >= 0
  {
  }

  lemma LcmFirst(max: nat, xs: seq<int>, i: nat, acc: int)
    requires max >= 1 && xs != [] && forall i :: 0 <= i < |xs| ==> InRange(max, xs[i])
    requires i == (if |xs| == 1 then 0 else 1) && acc == if |xs| == 1 then 1 else xs[0]
    ensures LcmSoFar(max, xs, i, acc)
  {
    hide SameMultiples;
    if i == 0 {
      GcdOfNone(max, []);
      assert xs[..0] == [];
    } else {
      SameOne(xs[0]);
      assert xs[..1] == [xs[0]];
    }
  }

  lemma LcmSoFarEnd(max: nat, xs: seq<int>, acc: int)
    requires LcmSoFar(max, xs, |xs|, acc)
    ensures !LcmOverflows(max, xs) && InRange(max, acc)
  {
  }

  /** So (gcd m m 1), for the least fixnum m, overflows although the greatest
      common divisor is 1. */
  lemma OverflowOnTheWay(max: nat)
    requires max >= 1
    ensures GcdOverflows(max, [Min(max), Min(max), 1]) && IsGcdAll(1, [Min(max), Min(max), 1])
  {
    var m, xs := Min(max), [Min(max), Min(max), 1];
    SameOne(m);
    assert m == (max + 1) * -1 && max + 1 == m * 0 + m * -1;
    assert IsGcd(max + 1, m, m);
    GcdNext(m, [m], m, max + 1);
    assert xs[..2] == [m] + [m];
    assert Reduced(2, |xs|) && IsGcdAll(max + 1, xs[..2]);
    DividesSelf(max + 1);
    assert 1 == 1 * 1 && 1 == (max + 1) * 0 + 1 * 1;
    assert IsGcd(1, max + 1, 1);
    GcdNext(max + 1, [m] + [m], 1, 1);
    assert xs == [m] + [m] + [1];
  }

  /** And (lcm a b 0) overflows whenever (lcm a b) does, although the least common
      multiple is 0. */
  lemma OverflowBeforeZero(max: nat, a: int, b: int)
    requires LcmOverflows(max, [a, b])
    ensures LcmOverflows(max, [a, b, 0]) && IsLcmAll(0, [a, b, 0])
  {
    hide SameMultiples;
    var k: nat, l: int :| Reduced(k, 2) && IsLcmAll(l, [a, b][..k]) && l > max;
    assert k == 2 && [a, b][..2] == [a, b] == [a, b, 0][..2];
    assert Reduced(2, 3);
    LcmZero(l, 0);
    LcmNext(l, [a, b], 0, 0);
    assert [a, b] + [0] == [a, b, 0];
  }
}
