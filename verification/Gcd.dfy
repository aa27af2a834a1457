/** Binary greatest common divisor. */
module Gcd {
  import opened Arith
  import opened Limbs
  import opened Mpi
  import opened Shift

  lemma DividesZero(d: int)
    ensures Divides(d, 0)
  {
    DividesIntro(d, 0, 0);
  }

  lemma DividesSelf(d: int)
    ensures Divides(d, d)
  {
    DividesIntro(d, 1, d);
  }

  /** A common divisor that is a combination of both numbers is the greatest. */
  lemma BezoutIsGcd(g: int, a: int, b: int, x: int, y: int)
    requires g >= 0 && Divides(g, a) && Divides(g, b) && g == x * a + y * b
    ensures IsGcd(g, a, b)
  {
    forall d | Divides(d, a) && Divides(d, b)
      ensures Divides(d, g)
    {
      DividesLinear(d, a, b, x, y);
    }
  }

  /** Euclid's algorithm with its coefficients: every pair has a greatest common divisor. */
  lemma {:induction false} Bezout(a: nat, b: nat) returns (g: nat, x: int, y: int)
    ensures IsGcd(g, a, b) && g == x * a + y * b
    decreases b
  {
    if b == 0 {
      g, x, y := a, 1, 0;
      DividesSelf(a);
      DividesZero(a);
    } else {
      DivMod(a, b);
      var u, v;
      g, u, v := Bezout(b, a % b);
      x, y := v, u - v * (a / b);
      DividesLinear(g, b, a % b, a / b, 1);
      assert (a / b) * b + 1 * (a % b) == a;
      Distr(u, v * (a / b), b);
      Assoc(v, a / b, b);
      Distr((a / b) * b, a % b, v);
    }
    BezoutIsGcd(g, a, b, x, y);
  }

  lemma DividesSigned(d: int, s: Sign, v: int)
    ensures Divides(d, Signed(s, v)) <==> Divides(d, v)
  {
    if Divides(d, v) { DividesLinear(d, v, v, -1, 0); }
    if Divides(d, -v) { DividesLinear(d, -v, -v, -1, 0); }
  }

  lemma GcdSigned(g: int, s: Sign, v: int, t: Sign, w: int)
    requires IsGcd(g, v, w)
    ensures IsGcd(g, Signed(s, v), Signed(t, w))
  {
    DividesSigned(g, s, v);
    DividesSigned(g, t, w);
    forall d | Divides(d, Signed(s, v)) && Divides(d, Signed(t, w))
      ensures Divides(d, g)
    {
      DividesSigned(d, s, v);
      DividesSigned(d, t, w);
    }
  }

  /** A factor two of one number is no divisor of the other, odd one. */
  lemma HalveDivisor(d: int, a: int, b: int)
    requires b % 2 == 1 && Divides(d, b)
    ensures Divides(d, 2 * a) <==> Divides(d, a)
  {
    if Divides(d, a) { DividesLinear(d, a, a, 2, 0); }
    if Divides(d, 2 * a) {
      DividesLinear(d, 2 * a, b, -(b / 2), a);
      assert -(b / 2) * (2 * a) + a * b == a * (b - 2 * (b / 2)) by {
        Distr(b, 2 * (b / 2), a);
        Assoc(a, 2, b / 2);
      }
    }
  }

  lemma {:induction false} StripTwos(g: int, a: int, b: int, k: nat)
    requires b % 2 == 1 && IsGcd(g, a * Pow2(k), b)
    ensures IsGcd(g, a, b)
  {
    if k > 0 {
      var c := a * Pow2(k - 1);
      assert a * Pow2(k) == 2 * c by { Assoc(a, 2, Pow2(k - 1)); }
      HalveDivisor(g, c, b);
      forall d | Divides(d, c) && Divides(d, b)
        ensures Divides(d, g)
      {
        HalveDivisor(d, c, b);
      }
      StripTwos(g, a, b, k - 1);
    }
  }

  lemma GcdSymmetric(g: int, a: int, b: int)
    requires IsGcd(g, a, b)
    ensures IsGcd(g, b, a)
  {}

  lemma GcdSubtract(g: int, a: int, b: int)
    requires IsGcd(g, a, b)
    ensures IsGcd(g, a - b, b)
  {
    DividesLinear(g, a, b, 1, -1);
    forall d | Divides(d, a - b) && Divides(d, b)
      ensures Divides(d, g)
    {
      DividesLinear(d, a - b, b, 1, 1);
    }
  }

  lemma GcdZero(g: int, b: nat)
    requires IsGcd(g, 0, b)
    ensures g == b
  {
    DividesSelf(b);
    DividesZero(b);
    forall d | Divides(d, 0) && Divides(d, b)
      ensures Divides(d, b)
    {}
    GcdUnique(g, b, 0, b);
  }

  /** The common power of two goes in and out of the greatest common divisor. */
  lemma GcdScale(g: nat, a: nat, b: nat, m: nat, x: int, y: int)
    requires IsGcd(g, a, b) && g == x * a + y * b
    ensures IsGcd(g * m, a * m, b * m)
  {
    var i := DividesElim(g, a);
    var j := DividesElim(g, b);
    Assoc(i, g, m);
    Assoc(j, g, m);
    DividesIntro(g * m, i, a * m);
    DividesIntro(g * m, j, b * m);
    Distr(x * a, y * b, m);
    Assoc(x, a, m);
    Assoc(y, b, m);
    MulNonneg(g, m);
    BezoutIsGcd(g * m, a * m, b * m, x, y);
  }

  /** What the loop keeps: the greatest common divisor, and an odd number among the two. */
  ghost predicate GcdState(g: int, a: int, b: int) {
    0 <= a && 0 < b && (a == 0 || a % 2 == 1 || b % 2 == 1) && IsGcd(g, a, b)
  }

  lemma StripLsb(v: nat, n: nat)
    requires v > 0 ==> IsLsb(v, n)
    requires v == 0 ==> n == 0
    ensures v / Pow2(n) <= v && (v > 0 ==> v / Pow2(n) > 0 && (v / Pow2(n)) % 2 == 1)
    ensures v == (v / Pow2(n)) * Pow2(n)
  {
    DivShrinks(v, Pow2(n));
    if v == 0 { DivUnique(0, Pow2(n), 0, 0); }
  }

  /** Removing all factors two from the first number, then from the second. */
  lemma StripBoth(g: int, a: nat, b: nat, x: nat, i: nat, y: nat, j: nat)
    requires GcdState(g, a, b) && a == x * Pow2(i) && b == y * Pow2(j)
    requires x % 2 == 1 && y % 2 == 1
    ensures IsGcd(g, x, y)
  {
    hide IsGcd, Pow2;
    MulPos(x, Pow2(i));
    if b % 2 == 1 {
      StripTwos(g, x, b, i);
    } else {
      OddPower(a, x, i);
    }
    GcdSymmetric(g, x, b);
    StripTwos(g, y, x, j);
    GcdSymmetric(g, y, x);
  }

  lemma OddPower(a: nat, x: nat, i: nat)
    requires a == x * Pow2(i) && a % 2 == 1
    ensures x == a
  {
    if i > 0 { Assoc(x, 2, Pow2(i - 1)); }
  }

  /** Half the difference of two odd numbers keeps their divisors. */
  lemma HalfDifference(g: int, x: nat, y: nat, h: nat)
    requires IsGcd(g, x, y) && x % 2 == 1 && y % 2 == 1 && x >= y && h == (x - y) / 2
    ensures GcdState(g, h, y)
  {
    GcdSubtract(g, x, y);
    assert Pow2(1) == 2 * Pow2(0);
    assert x - y == h * Pow2(1);
    StripTwos(g, h, y, 1);
  }

  /** x := (x - y) / 2 for x >= y. */
  method HalveDifference(X: Mpi, Y: Mpi)
    requires X != Y && X.s == 1 && Val(Y.p) <= Val(X.p)
    modifies X
    ensures X.s == 1 && Val(X.p) == (old(Val(X.p)) - Val(Y.p)) / 2
  {
    hide Val;
    var _ := SubAbs(X, X, Y);
    ghost var d := Val(X.p);
    ShiftR(X, 1);
    assert Pow2(1) == 2 * Pow2(0);
  }

  method StripFactors(X: Mpi)
    requires X.s == 1
    modifies X
    ensures X.s == 1 && Val(X.p) <= old(Val(X.p))
    ensures old(Val(X.p)) > 0 ==> Val(X.p) % 2 == 1
    ensures exists k: nat :: old(Val(X.p)) == Val(X.p) * Pow2(k)
  {
    hide Val, Pow2;
    var n := Lsb(X);
    StripLsb(Val(X.p), n);
    ShiftR(X, n);
  }

  /** One round of the loop of mbedtls_mpi_gcd. */
  method GcdRound(TA: Mpi, TB: Mpi, ghost g: int)
    requires TA != TB && TA.s == 1 && TB.s == 1 && Val(TA.p) > 0
    modifies TA, TB
    ensures TA.s == 1 && TB.s == 1
    ensures Val(TA.p) + Val(TB.p) < old(Val(TA.p)) + old(Val(TB.p))
    ensures old(Val(TB.p)) == 0 ==> Val(TB.p) == 0
    ensures GcdState(g, old(Val(TA.p)), old(Val(TB.p))) ==> GcdState(g, Val(TA.p), Val(TB.p))
  {
    hide Val, Pow2, IsGcd;
    ghost var a, b := Val(TA.p), Val(TB.p);
    StripFactors(TA);
    StripFactors(TB);
    ghost var x, y := Val(TA.p), Val(TB.p);
    if GcdState(g, a, b) {
      ghost var i: nat :| a == x * Pow2(i);
      ghost var j: nat :| b == y * Pow2(j);
      StripBoth(g, a, b, x, i, y, j);
      GcdSymmetric(g, x, y);
    }
    var c := CmpMpi(TA, TB);
    if c >= 0 {
      HalveDifference(TA, TB);
      if GcdState(g, a, b) { HalfDifference(g, x, y, Val(TA.p)); }
    } else {
      HalveDifference(TB, TA);
      if GcdState(g, a, b) { HalfDifferenceFlip(g, x, y, Val(TB.p)); }
    }
  }

  lemma HalfDifferenceFlip(g: int, x: nat, y: nat, h: nat)
    requires IsGcd(g, y, x) && x % 2 == 1 && y % 2 == 1 && y > x && h == (y - x) / 2
    ensures GcdState(g, x, h)
  {
    hide IsGcd;
    HalfDifference(g, y, x, h);
    GcdSymmetric(g, h, x);
  }

  /** The power of two shifted out of both numbers at the start. */
  lemma CommonPower(a: nat, b: nat, la: nat, lb: nat, lz: nat)
    requires a > 0 ==> IsLsb(a, la)
    requires b > 0 ==> IsLsb(b, lb)
    requires (a == 0 ==> la == 0) && (b == 0 ==> lb == 0) && lz == Min(la, lb)
    ensures a == (a / Pow2(lz)) * Pow2(lz) && b == (b / Pow2(lz)) * Pow2(lz)
    ensures (a > 0 <==> a / Pow2(lz) > 0) && (b > 0 <==> b / Pow2(lz) > 0)
    ensures a > 0 && b > 0 ==> (a / Pow2(lz)) % 2 == 1 || (b / Pow2(lz)) % 2 == 1
    ensures a == 0 ==> lz == 0
  {
    hide Pow2;
    Pow2Zero();
    if a == 0 || b == 0 {
      DivUnique(a, 1, a, 0);
      DivUnique(b, 1, b, 0);
    } else {
      LowerPower(a, la, lz);
      LowerPower(b, lb, lz);
    }
  }

  lemma LowerPower(v: nat, n: nat, m: nat)
    requires v > 0 && IsLsb(v, n) && m <= n
    ensures v == (v / Pow2(m)) * Pow2(m) && v / Pow2(m) > 0
  {
    hide Pow2;
    Pow2Add(n - m, m);
    var q := v / Pow2(n);
    Assoc(q, Pow2(n - m), Pow2(m));
    DivUnique(v, Pow2(m), q * Pow2(n - m), 0);
    MulCancelLess(0, v / Pow2(m), Pow2(m));
  }

  /** mbedtls_mpi_gcd, on every pair: with B = 0 it returns 0 whatever A is. */
  method GcdMpi(G: Mpi, A: Mpi, B: Mpi)
    modifies G
    ensures old(B.Value()) != 0 ==> IsGcd(G.Value(), old(A.Value()), old(B.Value()))
    ensures old(B.Value()) == 0 ==> G.Value() == 0
    ensures G.Value() >= 0
  {
    hide Val, Pow2, IsGcd, IsLsb;
    var TA := new Mpi();
    var TB := new Mpi();
    Copy(TA, A);
    Copy(TB, B);
    ghost var a, b := Val(TA.p), Val(TB.p);
    var lz := Lsb(TA);
    var lzt := Lsb(TB);
    CommonPower(a, b, lz, lzt, Min(lz, lzt));
    if lzt < lz { lz := lzt; }
    ShiftR(TA, lz);
    ShiftR(TB, lz);
    TA.s, TB.s := 1, 1;
    ghost var g, u, v := Bezout(Val(TA.p), Val(TB.p));
    GcdScale(g, Val(TA.p), Val(TB.p), Pow2(lz), u, v);
    GcdSigned(g * Pow2(lz), A.s, a, B.s, b);
    GcdLoop(TA, TB, g);
    ShiftL(TB, lz);
    Copy(G, TB);
  }

  method GcdLoop(TA: Mpi, TB: Mpi, ghost g: int)
    requires TA != TB && TA.s == 1 && TB.s == 1
    requires Val(TB.p) == 0 || GcdState(g, Val(TA.p), Val(TB.p))
    modifies TA, TB
    ensures TB.s == 1
    ensures old(Val(TB.p)) == 0 ==> Val(TB.p) == 0
    ensures old(Val(TB.p)) != 0 ==> Val(TB.p) == g
  {
    hide Val, IsGcd;
    ghost var b := Val(TB.p);
    var c := CmpInt(TA, 0);
    while c != 0
      invariant TA.s == 1 && TB.s == 1 && c == SignOf(Val(TA.p))
      invariant b == 0 ==> Val(TB.p) == 0
      invariant b != 0 ==> GcdState(g, Val(TA.p), Val(TB.p))
      decreases Val(TA.p) + Val(TB.p)
    {
      GcdRound(TA, TB, g);
      c := CmpInt(TA, 0);
    }
    if b != 0 { GcdZero(g, Val(TB.p)); }
  }

  /** The result is the greatest common divisor exactly when B is not 0 or A is 0 as well. */
  lemma GcdCorrectIff(r: int, a: int, b: int)
    requires b != 0 ==> IsGcd(r, a, b)
    requires b == 0 ==> r == 0
    ensures IsGcd(r, a, b) <==> b != 0 || a == 0
  {
    DividesZero(0);
    if b == 0 && IsGcd(0, a, 0) { var k := DividesElim(0, a); }
    if b == 0 && a == 0 {
      forall d | Divides(d, 0)
        ensures Divides(d, 0)
      {}
    }
  }
}
