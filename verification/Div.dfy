/** Multi-precision division with remainder, and reduction modulo a positive integer. */
module Div {
  import opened Arith
  import opened Limbs
  import opened Mpi
  import opened Shift
  import opened IntDiv

  // ---- the specification: truncating division ----

  function Unit(x: int): Sign { if x < 0 then -1 else 1 }

  /** Quotient rounded towards zero. */
  function TDiv(a: int, b: int): int
    requires b != 0
  {
    Signed(if Unit(a) == Unit(b) then 1 else -1, Abs(a) / Abs(b))
  }

  /** Remainder with the sign of the dividend. */
  function TRem(a: int, b: int): int
    requires b != 0
  {
    Signed(Unit(a), Abs(a) % Abs(b))
  }

  ghost predicate IsTruncatingDivision(a: int, b: int, q: int, r: int) {
    a == q * b + r && Abs(r) < Abs(b) && (r == 0 || (r < 0 <==> a < 0))
  }

  lemma SignedProduct(x: int, y: int)
    ensures (-x) * y == -(x * y) && x * (-y) == -(x * y) && (-x) * (-y) == x * y
  {}

  lemma TruncatingDivision(a: int, b: int)
    requires b != 0
    ensures IsTruncatingDivision(a, b, TDiv(a, b), TRem(a, b))
  {
    DivMod(Abs(a), Abs(b));
    SignedProduct(Abs(a) / Abs(b), Abs(b));
  }

  /** Quotient and remainder are determined by what they satisfy. */
  lemma TruncatingUnique(a: int, b: int, q: int, r: int)
    requires b != 0 && IsTruncatingDivision(a, b, q, r)
    ensures q == TDiv(a, b) && r == TRem(a, b)
  {
    var s := if Unit(a) == Unit(b) then q else -q;
    SignedProduct(q, b);
    assert Abs(a) == s * Abs(b) + Abs(r);
    DivUnique(Abs(a), Abs(b), s, Abs(r));
  }

  // ---- quotient digits ----

  /** Dropping the same low part of divisor and dividend cannot lower the quotient. */
  lemma TruncatedQuotient(q: nat, d: nat, x: nat, m: nat, w: nat)
    requires 0 < m && 0 < w && q * (d * w) <= x
    ensures 0 < m * w && q * (d / m) <= x / (m * w)
  {
    MulPos(m, w);
    DivMod(d, m);
    var h := d / m;
    MulMono(h * m, d, w);
    MulMono(h * m * w, d * w, q);
    assert q * h * (m * w) == q * (h * m * w) by { Assoc(h, m, w); Assoc(q, h, m * w); }
    DivGe(x, q * h, m * w);
  }

  /** A digit the truncated operands accept is at most one too large. */
  lemma DigitAtMostOneOver(z: nat, d: nat, x: nat, m: nat, w: nat)
    requires 0 < m && 0 < w && z <= BASE && m <= d
    requires z * ((d * BASE) / m) <= (x * BASE) / (m * w)
    ensures z * (d * w) < x + d * w || z == 0
  {
    MulPos(m, w);
    DivMod(d * BASE, m);
    DivMod(x * BASE, m * w);
    var y2, x3 := (d * BASE) / m, (x * BASE) / (m * w);
    if z > 0 {
      ScaledDigit(z, d, x, m, w, y2, x3);
    }
  }

  lemma ScaledDigit(z: nat, d: nat, x: nat, m: nat, w: nat, y2: nat, x3: nat)
    requires 0 < m && 0 < w && 0 < z <= BASE && m <= d && z * y2 <= x3
    requires d * BASE < y2 * m + m && x3 * (m * w) <= x * BASE
    ensures z * (d * w) < x + d * w
  {
    // z*d*w*BASE < z*y2*m*w + z*m*w <= x*BASE + BASE*m*w <= (x + d*w)*BASE
    MulPos(z, w);
    MulLess(d * BASE, y2 * m + m, z * w);
    MulMono(z * y2, x3, m * w);
    MulMono(z, BASE, m * w);
    MulMono(m, d, w);
    MulMono(m * w, d * w, BASE);
    ScaledIdentities(z, d, m, w, y2);
    Distr(x, d * w, BASE);
    MulCancelLess(z * (d * w), x + d * w, BASE);
  }

  lemma ScaledIdentities(z: int, d: int, m: int, w: int, y2: int)
    ensures (d * BASE) * (z * w) == (z * (d * w)) * BASE
    ensures (y2 * m + m) * (z * w) == (z * y2) * (m * w) + z * (m * w)
  {
    assert (d * BASE) * (z * w) == (d * (z * w)) * BASE by { Assoc(d, BASE, z * w); }
    assert d * (z * w) == z * (d * w) by { Assoc(d, z, w); Assoc(z, d, w); }
    Distr(y2 * m, m, z * w);
    assert m * (z * w) == z * (m * w) by { Assoc(m, z, w); Assoc(z, m, w); }
    assert (y2 * m) * (z * w) == y2 * (m * (z * w)) by { Assoc(y2, m, z * w); }
    Assoc(y2, z, m * w);
  }

  /** The two top limbs of the divisor, the lower one 0 when it has a single limb. */
  function TopTwo(y: seq<Limb>, t: nat): nat
    requires t < |y|
  {
    MulNonneg(y[t], BASE);
    (if t < 1 then 0 else y[t - 1]) + y[t] * BASE
  }

  /** The three limbs of the dividend that face them. */
  function TopThree(x: seq<Limb>, i: nat): nat
    requires 1 <= i < |x|
  {
    MulNonneg(x[i], BASE);
    MulNonneg(x[i - 1] + x[i] * BASE, BASE);
    (if i < 2 then 0 else x[i - 2]) + (x[i - 1] + x[i] * BASE) * BASE
  }

  lemma TopLimb(y: seq<Limb>, t: nat)
    requires t < |y| && Val(y) < Bp(t + 1)
    ensures y[t] == Val(y) / Bp(t)
  {
    hide Val, Bp;
    TopIsZero(y, t + 1);
    ValStep(y, t);
    ValBound(y[..t]);
    DivUnique(Val(y), Bp(t), y[t], Val(y[..t]));
  }

  lemma TopPair(x: seq<Limb>, i: nat)
    requires 1 <= i < |x| && Val(x) < Bp(i + 1)
    ensures x[i - 1] + x[i] * BASE == Val(x) / Bp(i - 1)
  {
    hide Val, Bp;
    TopIsZero(x, i + 1);
    ValStep(x, i);
    ValStep(x, i - 1);
    ValBound(x[..i - 1]);
    BpSucc(i - 1);
    Distr(x[i - 1], x[i] * BASE, Bp(i - 1));
    Assoc(x[i], BASE, Bp(i - 1));
    DivUnique(Val(x), Bp(i - 1), x[i - 1] + x[i] * BASE, Val(x[..i - 1]));
  }

  lemma TopTwoValue(y: seq<Limb>, t: nat)
    requires t < |y| && Val(y) < Bp(t + 1)
    ensures TopTwo(y, t) == (Val(y) * BASE) / Bp(t)
  {
    hide Val, Bp;
    if t == 0 {
      OneLimb(y);
    } else {
      TopPair(y, t);
      BpSucc(t - 1);
      DivScale(Val(y), Bp(t - 1), BASE);
    }
  }

  lemma OneLimb(y: seq<Limb>)
    requires 0 < |y| && Val(y) < Bp(1)
    ensures Val(y) == y[0]
    ensures (Val(y) * BASE) / Bp(0) == y[0] * BASE
  {
    hide Val, Bp;
    TopIsZero(y, 1);
    assert y[..1] == [y[0]];
    ValOne(y[0]);
    BpSucc(0);
    DivUnique(y[0] * BASE, 1, y[0] * BASE, 0);
  }

  lemma DivScale(a: nat, d: nat, k: nat)
    requires 0 < d && 0 < k
    ensures 0 < k * d && (a * k) / (k * d) == a / d
  {
    MulPos(k, d);
    DivMod(a, d);
    Distr((a / d) * d, a % d, k);
    Assoc(a / d, d, k);
    MulLess(a % d, d, k);
    DivUnique(a * k, k * d, a / d, (a % d) * k);
  }

  lemma TopThreeValue(x: seq<Limb>, i: nat)
    requires 1 <= i < |x| && Val(x) < Bp(i + 1)
    ensures TopThree(x, i) == (Val(x) * BASE) / Bp(i - 1)
  {
    hide Val, Bp;
    TopPair(x, i);
    if i == 1 {
      BpSucc(0);
    } else {
      BpSucc(i - 2);
      DivScale(Val(x), Bp(i - 2), BASE);
      TopTriple(x, i);
    }
  }

  lemma TopTriple(x: seq<Limb>, i: nat)
    requires 2 <= i < |x| && Val(x) < Bp(i + 1)
    ensures x[i - 2] + (x[i - 1] + x[i] * BASE) * BASE == Val(x) / Bp(i - 2)
  {
    hide Val, Bp;
    TopIsZero(x, i + 1);
    ValStep(x, i);
    ValStep(x, i - 1);
    ValStep(x, i - 2);
    ValBound(x[..i - 2]);
    BpSucc(i - 2);
    BpSucc(i - 1);
    var w, p := Bp(i - 2), x[i - 1] + x[i] * BASE;
    Distr(x[i - 1], x[i] * BASE, BASE * w);
    Assoc(x[i], BASE, BASE * w);
    Distr(x[i - 2], p * BASE, w);
    Assoc(p, BASE, w);
    DivUnique(Val(x), w, x[i - 2] + p * BASE, Val(x[..i - 2]));
  }

  // ---- one round of the digit loop ----

  /** Limb i of the dividend faces limb t of the divisor, and one digit is left to find there. */
  ghost predicate Facing(x: seq<Limb>, y: seq<Limb>, i: nat, t: nat) {
    t < |y| && t < i < |x| && y[t] != 0 &&
    Val(y) < Bp(t + 1) && Val(x) < Val(y) * Bp(i - t)
  }

  lemma FacingBounds(x: seq<Limb>, y: seq<Limb>, i: nat, t: nat)
    requires Facing(x, y, i, t)
    ensures Val(x) < Bp(i + 1) && Bp(t) <= Val(y)
    ensures Val(y) * Bp(i - t) == BASE * (Val(y) * Bp(i - t - 1))
    ensures 0 < Val(y) * Bp(i - t - 1)
    ensures Bp(i - 1) == Bp(t) * Bp(i - t - 1)
  {
    hide Val, Bp;
    TopLimb(y, t);
    DivMod(Val(y), Bp(t));
    MulMono(1, y[t], Bp(t));
    BpAdd(t + 1, i - t);
    MulMono(Val(y), Bp(t + 1), Bp(i - t));
    BpSucc(i - t - 1);
    Assoc(Val(y), BASE, Bp(i - t - 1));
    MulPos(Val(y), Bp(i - t - 1));
    BpAdd(t, i - t - 1);
  }

  /** The digit to find. */
  ghost function Digit(x: nat, d: nat, w: nat): nat
    requires 0 < d * w
  {
    DivGe(x, 0, d * w);
    x / (d * w)
  }

  lemma DigitFits(x: seq<Limb>, y: seq<Limb>, i: nat, t: nat)
    requires Facing(x, y, i, t)
    ensures 0 < Val(y) * Bp(i - t - 1)
    ensures Digit(Val(x), Val(y), Bp(i - t - 1)) < BASE
    ensures Digit(Val(x), Val(y), Bp(i - t - 1)) * (Val(y) * Bp(i - t - 1)) <= Val(x)
  {
    hide Val, Bp;
    FacingBounds(x, y, i, t);
    DivLess(Val(x), BASE, Val(y) * Bp(i - t - 1));
    DivMod(Val(x), Val(y) * Bp(i - t - 1));
  }

  /** The top limb of the divisor alone gives a digit that is not too small. */
  lemma FirstEstimateOk(x: seq<Limb>, y: seq<Limb>, i: nat, t: nat)
    requires Facing(x, y, i, t)
    ensures 0 < Val(y) * Bp(i - t - 1)
    ensures Digit(Val(x), Val(y), Bp(i - t - 1)) <= (x[i] * BASE + x[i - 1]) / y[t]
  {
    hide Val, Bp, Digit;
    FacingBounds(x, y, i, t);
    DigitFits(x, y, i, t);
    TopLimb(y, t);
    TopPair(x, i);
    var q := Digit(Val(x), Val(y), Bp(i - t - 1));
    TruncatedQuotient(q, Val(y), Val(x), Bp(t), Bp(i - t - 1));
    DivGe(x[i - 1] + x[i] * BASE, q, y[t]);
  }

  /** The 3-by-2 limb test never rejects the true digit. */
  lemma TestAcceptsDigit(x: seq<Limb>, y: seq<Limb>, i: nat, t: nat)
    requires Facing(x, y, i, t)
    ensures 0 < Val(y) * Bp(i - t - 1)
    ensures Accepts(Digit(Val(x), Val(y), Bp(i - t - 1)), y, t, x, i)
  {
    hide Val, Bp, Digit, TopTwo, TopThree;
    FacingBounds(x, y, i, t);
    DigitFits(x, y, i, t);
    var d, w := Val(y), Bp(i - t - 1);
    var q := Digit(Val(x), d, w);
    MulMono(q * (d * w), Val(x), BASE);
    assert q * ((d * BASE) * w) == (q * (d * w)) * BASE by {
      Assoc(d, BASE, w);
      Assoc(q, d * w, BASE);
    }
    TruncatedQuotient(q, d * BASE, Val(x) * BASE, Bp(t), w);
    TopTwoValue(y, t);
    TopThreeValue(x, i);
  }

  /** A digit the test accepts is the true one or one more. */
  lemma TestBoundsDigit(x: seq<Limb>, y: seq<Limb>, i: nat, t: nat, z: nat)
    requires Facing(x, y, i, t) && z < BASE && Accepts(z, y, t, x, i)
    ensures 0 < Val(y) * Bp(i - t - 1)
    ensures z <= Digit(Val(x), Val(y), Bp(i - t - 1)) + 1
    ensures z * (Val(y) * Bp(i - t - 1)) < Val(x) + Val(y) * Bp(i - t - 1)
  {
    hide Val, Bp, TopTwo, TopThree;
    FacingBounds(x, y, i, t);
    TopTwoValue(y, t);
    TopThreeValue(x, i);
    var d, w := Val(y), Bp(i - t - 1);
    DigitAtMostOneOver(z, d, Val(x), Bp(t), w);
    if z > 0 {
      Distr(z, 1, d * w);
      DivGe(Val(x), z - 1, d * w);
    }
  }

  /** The 3-by-2 limb test on a trial digit. */
  ghost predicate Accepts(z: nat, y: seq<Limb>, t: nat, x: seq<Limb>, i: nat)
    requires t < |y| && 1 <= i < |x|
  {
    z * TopTwo(y, t) <= TopThree(x, i)
  }

  method FirstEstimate(X: Mpi, Y: Mpi, i: nat, t: nat) returns (z: Limb)
    requires Facing(X.p, Y.p, i, t)
    ensures 0 < Val(Y.p) * Bp(i - t - 1)
    ensures Digit(Val(X.p), Val(Y.p), Bp(i - t - 1)) <= z
  {
    hide Val, Bp, Digit;
    DigitFits(X.p, Y.p, i, t);
    if X.p[i] >= Y.p[t] { return BASE - 1; }
    FirstEstimateOk(X.p, Y.p, i, t);
    var rem;
    z, rem := IntDivInt(X.p[i], X.p[i - 1], Y.p[t]);
  }

  /** Writing the two or three low limbs of a cleared row. */
  lemma SmallRow(p: seq<Limb>, a: Limb, b: Limb, c: Limb)
    requires |p| >= 2 && Val(p) == 0 && (forall k :: 0 <= k < |p| ==> p[k] == 0)
    ensures Val(p[0 := a][1 := b]) == a + b * BASE
    ensures |p| >= 3 ==> Val(p[0 := a][1 := b][2 := c]) == a + (b + c * BASE) * BASE
  {
    hide Val, Bp;
    BpSucc(0);
    BpSucc(1);
    ValUpdate(p, 0, a);
    ValUpdate(p[0 := a], 1, b);
    if |p| >= 3 {
      ValUpdate(p[0 := a][1 := b], 2, c);
      Distr(b, c * BASE, BASE);
      Assoc(c, BASE, BASE);
    }
  }

  /** T := z times the two top limbs of Y. */
  method LoadTwo(T: Mpi, Y: Mpi, t: nat, z: Limb)
    requires T != Y && |T.p| >= 2 && t < |Y.p|
    modifies T
    ensures |T.p| >= old(|T.p|) && T.Value() == z * TopTwo(Y.p, t)
  {
    hide Val;
    Lset(T, 0);
    SmallRow(T.p, if t < 1 then 0 else Y.p[t - 1], Y.p[t], 0);
    T.p := T.p[0 := if t < 1 then 0 else Y.p[t - 1]];
    T.p := T.p[1 := Y.p[t]];
    ghost var v := TopTwo(Y.p, t);
    assert T.Value() == v;
    hide TopTwo;
    MulInt(T, T, z);
    assert v * z == z * v;
  }

  /** T := the three limbs of X that face it. */
  method LoadThree(T: Mpi, X: Mpi, i: nat)
    requires T != X && |T.p| >= 3 && 1 <= i < |X.p|
    modifies T
    ensures |T.p| == old(|T.p|) && T.Value() == TopThree(X.p, i)
  {
    hide Val;
    Lset(T, 0);
    SmallRow(T.p, if i < 2 then 0 else X.p[i - 2], X.p[i - 1], X.p[i]);
    T.p := T.p[0 := if i < 2 then 0 else X.p[i - 2]];
    T.p := T.p[1 := X.p[i - 1]];
    T.p := T.p[2 := X.p[i]];
  }

  /** z times the top of Y against the top of X. */
  method TrialCompare(T1: Mpi, T2: Mpi, X: Mpi, Y: Mpi, i: nat, t: nat, z: Limb, ghost q: nat)
    returns (c: int)
    requires T1 != T2 && T1 != X && T1 != Y && T2 != X && T2 != Y
    requires |T1.p| >= 2 && |T2.p| >= 3 && t < |Y.p| && 1 <= i < |X.p|
    requires q <= z && Accepts(q, Y.p, t, X.p, i)
    modifies T1, T2
    ensures c <= 0 <==> Accepts(z, Y.p, t, X.p, i)
    ensures c > 0 ==> q < z
    ensures |T1.p| >= old(|T1.p|) && |T2.p| >= old(|T2.p|)
  {
    hide Val, SignOf, TopTwo, TopThree, Signed;
    LoadTwo(T1, Y, t, z);
    LoadThree(T2, X, i);
    c := CmpMpi(T1, T2);
    TestVerdict(c, z, TopTwo(Y.p, t), TopThree(X.p, i), q);
  }

  /** The digit estimate of one round, left in limb j of Z. */
  method EstimateDigit(Z: Mpi, j: nat, T1: Mpi, T2: Mpi, X: Mpi, Y: Mpi, i: nat, t: nat)
    requires T1 != T2 && T1 != X && T1 != Y && T2 != X && T2 != Y
    requires Z != T1 && Z != T2 && Z != X && Z != Y
    requires |T1.p| >= 2 && |T2.p| >= 3 && j < |Z.p| && Facing(X.p, Y.p, i, t)
    modifies Z`p, T1, T2
    ensures |T1.p| >= 2 && |T2.p| >= 3 && |Z.p| == old(|Z.p|)
    ensures Z.p == old(Z.p)[j := Z.p[j]]
    ensures 0 < Val(Y.p) * Bp(i - t - 1)
    ensures var q := Digit(Val(X.p), Val(Y.p), Bp(i - t - 1));
            q <= Z.p[j] && Accepts(Z.p[j], Y.p, t, X.p, i)
  {
    hide Val, Bp, Digit, Accepts;
    var z := FirstEstimate(X, Y, i, t);
    TestAcceptsDigit(X.p, Y.p, i, t);
    ghost var q := Digit(Val(X.p), Val(Y.p), Bp(i - t - 1));
    Z.p := Z.p[j := z];
    Z.p := Z.p[j := WAdd(Z.p[j], 1)];
    var c := 1;
    while c > 0
      invariant |T1.p| >= 2 && |T2.p| >= 3 && |Z.p| == old(|Z.p|)
      invariant Z.p == old(Z.p)[j := Z.p[j]]
      invariant c > 0 ==> q <= WSub(Z.p[j], 1)
      invariant c <= 0 ==> q <= Z.p[j] && Accepts(Z.p[j], Y.p, t, X.p, i)
      decreases c > 0, WSub(Z.p[j], 1)
    {
      Z.p := Z.p[j := WSub(Z.p[j], 1)];
      c := TrialCompare(T1, T2, X, Y, i, t, Z.p[j], q);
    }
  }

  lemma TestVerdict(c: int, z: nat, y2: nat, x3: nat, q: nat)
    requires c == SignOf(z * y2 - x3) && q * y2 <= x3 && q <= z
    ensures c <= 0 <==> z * y2 <= x3
    ensures c > 0 ==> q < z
  {}

  /** T1 := Y * z shifted up by sh limbs. */
  method ScaledDivisor(T1: Mpi, Y: Mpi, z: Limb, sh: nat)
    requires T1 != Y && |T1.p| >= 1 && |Y.p| >= 1 && Y.s == 1
    modifies T1
    ensures |T1.p| >= old(|T1.p|) && T1.s == 1 && Val(T1.p) == z * (Val(Y.p) * Bp(sh))
  {
    hide Val, Bp, Pow2;
    MulInt(T1, Y, z);
    BpIsPow2(sh);
    MulNonneg(biL, sh);
    assert biL * sh == sh * biL;
    ShiftL(T1, biL * sh);
    ScaleOrder(Val(Y.p), z, Bp(sh));
  }

  lemma ScaleOrder(y: int, z: int, w: int)
    ensures y * z * w == z * (y * w)
  {}

  /** X := X - z*Y*BASE^sh, with one add-back when the digit was one too large. */
  method SubtractDigit(X: Mpi, Y: Mpi, T1: Mpi, Z: Mpi, j: nat, sh: nat)
    requires X != Y && X != T1 && Y != T1 && Z != X && Z != Y && Z != T1
    requires |X.p| >= 1 && |Y.p| >= 1 && |T1.p| >= 1 && j < |Z.p|
    requires X.s == 1 && Y.s == 1 && 0 < Val(Y.p) * Bp(sh)
    requires Digit(Val(X.p), Val(Y.p), Bp(sh)) <= Z.p[j] <= Digit(Val(X.p), Val(Y.p), Bp(sh)) + 1
    requires Z.p[j] * (Val(Y.p) * Bp(sh)) < Val(X.p) + Val(Y.p) * Bp(sh)
    modifies X, T1, Z`p
    ensures |X.p| >= old(|X.p|) && |T1.p| >= old(|T1.p|) && X.s == 1
    ensures Val(X.p) == old(Val(X.p)) % (Val(Y.p) * Bp(sh))
    ensures Digit(old(Val(X.p)), Val(Y.p), Bp(sh)) < BASE
    ensures Z.p == old(Z.p)[j := Digit(old(Val(X.p)), Val(Y.p), Bp(sh))]
  {
    hide Val, Bp, Digit;
    ghost var x, d, q := Val(X.p), Val(Y.p) * Bp(sh), Digit(Val(X.p), Val(Y.p), Bp(sh));
    ghost var z := Z.p[j];
    DigitCases(x, Val(Y.p), Bp(sh), z);
    ScaledDivisor(T1, Y, Z.p[j], sh);
    SubMpi(X, X, T1);
    var c := CmpInt(X, 0);
    if c < 0 {
      AddBack(X, Y, T1, sh);
      Z.p := Z.p[j := WSub(Z.p[j], 1)];
    }
  }

  lemma DigitCases(x: nat, y: nat, w: nat, z: nat)
    requires 0 < y * w && Digit(x, y, w) <= z <= Digit(x, y, w) + 1
    requires z * (y * w) < x + y * w
    ensures x % (y * w) < y * w
    ensures z == Digit(x, y, w) ==> x - z * (y * w) == x % (y * w)
    ensures z != Digit(x, y, w) ==> -(y * w) <= x - z * (y * w) < 0 && x - z * (y * w) + y * w == x % (y * w) > 0
  {
    DivMod(x, y * w);
    Distr(Digit(x, y, w), 1, y * w);
  }

  method AddBack(X: Mpi, Y: Mpi, T1: Mpi, sh: nat)
    requires X != Y && X != T1 && Y != T1 && |X.p| >= 1 && |Y.p| >= 1 && |T1.p| >= 1 && Y.s == 1
    requires X.Value() + Val(Y.p) * Bp(sh) > 0
    modifies X, T1
    ensures |X.p| >= old(|X.p|) && |T1.p| >= old(|T1.p|) && X.s == 1
    ensures Val(X.p) == old(X.Value()) + Val(Y.p) * Bp(sh)
  {
    hide Val, Bp, Pow2;
    Copy(T1, Y);
    BpIsPow2(sh);
    MulNonneg(biL, sh);
    assert biL * sh == sh * biL;
    ShiftL(T1, biL * sh);
    AddMpi(X, X, T1);
  }

  /** What the digit loop keeps: Z*Y + X is the dividend and X is below Y*BASE^(i-t). */
  ghost predicate DigitsDone(z: seq<Limb>, x: seq<Limb>, y: seq<Limb>, total: nat, r: nat) {
    r <= |z| && (forall k :: 0 <= k < r ==> z[k] == 0) &&
    Val(z) * Val(y) + Val(x) == total && Val(x) < Val(y) * Bp(r)
  }

  lemma DigitsStep(z: seq<Limb>, x: seq<Limb>, x': seq<Limb>, y: seq<Limb>, total: nat, r: nat, q: Limb)
    requires r > 0 && DigitsDone(z, x, y, total, r) && 0 < Val(y) * Bp(r - 1)
    requires q == Digit(Val(x), Val(y), Bp(r - 1))
    requires Val(x') == Val(x) % (Val(y) * Bp(r - 1))
    ensures DigitsDone(z[r - 1 := q], x', y, total, r - 1)
  {
    hide Val, Bp;
    ValUpdate(z, r - 1, q);
    DivMod(Val(x), Val(y) * Bp(r - 1));
    assert (Val(z) + q * Bp(r - 1)) * Val(y) == Val(z) * Val(y) + q * (Val(y) * Bp(r - 1)) by {
      Distr(Val(z), q * Bp(r - 1), Val(y));
      Assoc(q, Val(y), Bp(r - 1));
    }
  }

  method DigitRound(X: Mpi, Y: Mpi, Z: Mpi, T1: Mpi, T2: Mpi, i: nat, t: nat, ghost total: nat)
    requires X != Y && X != Z && X != T1 && X != T2 && Y != Z && Y != T1 && Y != T2
    requires Z != T1 && Z != T2 && T1 != T2 && X.s == 1 && Y.s == 1
    requires |T1.p| >= 2 && |T2.p| >= 3 && t < i < |X.p| && t < |Y.p|
    requires Y.p[t] != 0 && Val(Y.p) < Bp(t + 1) && DigitsDone(Z.p, X.p, Y.p, total, i - t)
    modifies X, Z`p, T1, T2
    ensures |X.p| >= old(|X.p|) && |T1.p| >= 2 && |T2.p| >= 3 && X.s == 1
    ensures DigitsDone(Z.p, X.p, Y.p, total, i - t - 1) && |Z.p| == old(|Z.p|)
  {
    hide Val, Bp, Digit, Accepts;
    ghost var z, x, w := Z.p, X.p, Bp(i - t - 1);
    EstimateDigit(Z, i - t - 1, T1, T2, X, Y, i, t);
    TestBoundsDigit(X.p, Y.p, i, t, Z.p[i - t - 1]);
    SubtractDigit(X, Y, T1, Z, i - t - 1, i - t - 1);
    ghost var q := Digit(Val(x), Val(Y.p), w);
    assert Z.p == z[i - t - 1 := q];
    DigitsStep(z, x, X.p, Y.p, total, i - t, q);
  }

  // ---- normalization and the top digit ----

  /** The shift that leaves the divisor's top limb one bit short of full. */
  method Normalize(X: Mpi, Y: Mpi) returns (k: nat)
    requires X != Y && 0 < Val(Y.p) <= Val(X.p) && |Y.p| == Sig(Y.p)
    modifies X`p, Y`p
    ensures k < biL
    ensures Val(X.p) == old(Val(X.p)) * Pow2(k) && Val(Y.p) == old(Val(Y.p)) * Pow2(k)
    ensures |Y.p| == Sig(Y.p) && |X.p| == Max(old(|X.p|), Sig(X.p))
  {
    hide Val, Pow2, Sig, IsBitLen;
    k := Bitlen(Y);
    k := k % biL;
    Pow2Zero();
    SigLength(Y.p);
    SigLength(X.p);
    if k < biL - 1 {
      k := biL - 1 - k;
      SigGrows(Y.p, Pow2(k));
      ShiftL(X, k);
      ShiftL(Y, k);
      SigGrowsTo(Y.p, old(Y.p));
    } else {
      k := 0;
    }
  }

  lemma SigLength(p: seq<Limb>)
    ensures Sig(p) <= |p|
  {}

  lemma SigGrows(p: seq<Limb>, m: nat)
    requires m >= 1
    ensures Val(p) <= Val(p) * m
  {
    MulMono(1, m, Val(p));
  }

  lemma SigGrowsTo(p: seq<Limb>, q: seq<Limb>)
    requires Val(q) <= Val(p)
    ensures Sig(q) <= Sig(p)
  {
    hide Val, Bp, Sig;
    ValSig(p);
    SigBound(q, Sig(p));
  }

  /** The top digit, found by repeated subtraction of the aligned divisor. */
  method TopDigit(X: Mpi, Y: Mpi, Z: Mpi, j: nat)
    requires X != Y && X != Z && Y != Z && X.s == 1 && Y.s == 1
    requires |X.p| >= 1 && |Y.p| >= 1 && j < |Z.p| && Z.p[j] == 0
    requires 0 < Val(Y.p) && Val(X.p) < BASE * Val(Y.p)
    modifies X, Z`p
    ensures X.s == 1 && |X.p| >= old(|X.p|) && Val(X.p) < Val(Y.p)
    ensures |Z.p| == old(|Z.p|) && Z.p == old(Z.p)[j := Z.p[j]]
    ensures old(Val(X.p)) == Z.p[j] * Val(Y.p) + Val(X.p)
  {
    hide Val;
    ghost var x, y := Val(X.p), Val(Y.p);
    var c := CmpMpi(X, Y);
    while c >= 0
      invariant X.s == 1 && |X.p| >= old(|X.p|)
      invariant |Z.p| == old(|Z.p|) && Z.p == old(Z.p)[j := Z.p[j]]
      invariant x == Z.p[j] * y + Val(X.p) && c == SignOf(Val(X.p) - y)
      decreases Val(X.p)
    {
      Distr(Z.p[j], 1, y);
      MulCancelLess(Z.p[j] + 1, BASE, y);
      Z.p := Z.p[j := WAdd(Z.p[j], 1)];
      SubMpi(X, X, Y);
      c := CmpMpi(X, Y);
    }
  }

  /** Aligning Y with the top of X, taking the top digit, and bringing Y back. */
  method AlignedTopDigit(X: Mpi, Y: Mpi, Z: Mpi, n: nat, t: nat)
    requires X != Y && X != Z && Y != Z && X.s == 1 && Y.s == 1
    requires |X.p| == n + 1 && |Y.p| == t + 1 == Sig(Y.p) && t <= n
    requires n - t < |Z.p| && (forall k :: 0 <= k < |Z.p| ==> Z.p[k] == 0)
    modifies X, Y, Z`p
    ensures X.s == 1 && Y.s == 1 && |X.p| > n && |Y.p| > t && |Z.p| == old(|Z.p|)
    ensures Val(Y.p) == old(Val(Y.p))
    ensures DigitsDone(Z.p, X.p, Y.p, old(Val(X.p)), n - t)
  {
    hide Val, Bp, Pow2, Sig;
    ghost var x, y, z := Val(X.p), Val(Y.p), Z.p;
    ValSig(Y.p);
    BpIsPow2(n - t);
    MulNonneg(biL, n - t);
    assert biL * (n - t) == (n - t) * biL;
    AlignedBound(X.p, y, n, t);
    ShiftL(Y, biL * (n - t));
    TopDigit(X, Y, Z, n - t);
    ShiftR(Y, biL * (n - t));
    DivUnique(y * Bp(n - t), Bp(n - t), y, 0);
    FirstDigitDone(Z.p, z, X.p, Y.p, x, n - t);
  }

  lemma AlignedBound(p: seq<Limb>, y: nat, n: nat, t: nat)
    requires |p| == n + 1 && t <= n && Bp(t) <= y
    ensures 0 < y * Bp(n - t) && Val(p) < BASE * (y * Bp(n - t))
  {
    hide Val, Bp;
    ValBound(p);
    BpSucc(n);
    BpAdd(t, n - t);
    MulMono(Bp(t), y, Bp(n - t));
    MulMono(Bp(n), y * Bp(n - t), BASE);
  }

  lemma FirstDigitDone(z: seq<Limb>, z0: seq<Limb>, x: seq<Limb>, y: seq<Limb>, total: nat, j: nat)
    requires |z| == |z0| && j < |z| && (forall k :: 0 <= k < |z0| ==> z0[k] == 0) && z == z0[j := z[j]]
    requires total == z[j] * (Val(y) * Bp(j)) + Val(x) && Val(x) < Val(y) * Bp(j)
    ensures DigitsDone(z, x, y, total, j)
  {
    hide Val, Bp;
    ValZeros(z0);
    ValUpdate(z0, j, z[j]);
    Assoc(z[j], Val(y), Bp(j));
  }

  /** All rounds: X and Y hold the normalized magnitudes, Z receives the quotient. */
  method DigitLoop(X: Mpi, Y: Mpi, Z: Mpi, T1: Mpi, T2: Mpi, n: nat, t: nat)
    requires X != Y && X != Z && X != T1 && X != T2 && Y != Z && Y != T1 && Y != T2
    requires Z != T1 && Z != T2 && T1 != T2 && X.s == 1 && Y.s == 1
    requires |T1.p| >= 2 && |T2.p| >= 3
    requires |X.p| == n + 1 && |Y.p| == t + 1 == Sig(Y.p) && t <= n
    requires n - t < |Z.p| && (forall k :: 0 <= k < |Z.p| ==> Z.p[k] == 0)
    modifies X, Y, Z`p, T1, T2
    ensures X.s == 1 && |X.p| >= 1 && |Z.p| == old(|Z.p|)
    ensures old(Val(X.p)) == Val(Z.p) * old(Val(Y.p)) + Val(X.p) && Val(X.p) < old(Val(Y.p))
  {
    hide Val, Bp, Sig, DigitsDone;
    ghost var total, y := Val(X.p), Val(Y.p);
    ValSig(Y.p);
    AlignedTopDigit(X, Y, Z, n, t);
    TopNonzero(Y.p, t);
    ghost var row := Y.p;
    var i: nat := n;
    while i > t
      invariant Y.p == row && Y.s == 1
      invariant t <= i <= n && X.s == 1 && |X.p| > n && |Z.p| == old(|Z.p|)
      invariant |T1.p| >= 2 && |T2.p| >= 3
      invariant DigitsDone(Z.p, X.p, Y.p, total, i - t)
    {
      DigitRound(X, Y, Z, T1, T2, i, t, total);
      i := i - 1;
    }
    AllDigitsDone(Z.p, X.p, Y.p, total);
  }

  lemma AllDigitsDone(z: seq<Limb>, x: seq<Limb>, y: seq<Limb>, total: nat)
    requires DigitsDone(z, x, y, total, 0)
    ensures total == Val(z) * Val(y) + Val(x) && Val(x) < Val(y)
  {
    hide Val, Bp;
    BpSucc(0);
  }

  lemma TopNonzero(y: seq<Limb>, t: nat)
    requires t < |y| && Bp(t) <= Val(y) < Bp(t + 1)
    ensures y[t] != 0
  {
    hide Val, Bp;
    TopLimb(y, t);
    DivGe(Val(y), 1, Bp(t));
  }

  // ---- division ----

  method Workspace(n: nat) returns (Z: Mpi, T1: Mpi, T2: Mpi)
    ensures fresh(Z) && fresh(T1) && fresh(T2) && Z != T1 && Z != T2 && T1 != T2
    ensures |Z.p| == n + 2 && (forall k :: 0 <= k < |Z.p| ==> Z.p[k] == 0)
    ensures |T1.p| >= 2 && |T2.p| >= 3
  {
    Z := new Mpi();
    T1 := new Mpi();
    T2 := new Mpi();
    Grow(Z, n + 2);
    Lset(Z, 0);
    Grow(T1, 2);
    Grow(T2, 3);
  }

  /** Dividing magnitudes, |a| >= |b| > 0: Z := a / b and X := a % b. */
  method DivMagnitudes(A: Mpi, B: Mpi) returns (X: Mpi, Z: Mpi)
    requires 0 < Val(B.p) <= Val(A.p)
    ensures fresh(X) && fresh(Z) && X != Z && |X.p| >= 1 && |Z.p| >= 1
    ensures Val(Z.p) == Val(A.p) / Val(B.p) && Val(X.p) == Val(A.p) % Val(B.p)
  {
    hide Val, Pow2, Sig, Bp;
    X := new Mpi();
    var Y := new Mpi();
    PrepareOperands(X, Y, A, B);
    var T1, T2;
    Z, T1, T2 := Workspace(|A.p|);
    var k := Normalize(X, Y);
    ValBound(A.p);
    NormalizedLength(X.p, Val(A.p), |A.p|, k);
    NormalizedOrder(X.p, Y.p, Val(A.p), Val(B.p), Pow2(k));
    ghost var v, e := Val(X.p), Val(Y.p);
    DigitLoop(X, Y, Z, T1, T2, |X.p| - 1, |Y.p| - 1);
    Denormalize(Val(A.p), Val(B.p), Pow2(k), v, e, Val(Z.p), Val(X.p));
    ShiftR(X, k);
  }

  method PrepareOperands(X: Mpi, Y: Mpi, A: Mpi, B: Mpi)
    requires X != Y && X != A && X != B && Y != A && Y != B
    requires X.p == [] && Y.p == [] && 0 < Val(B.p) <= Val(A.p)
    modifies X, Y
    ensures Val(X.p) == Val(A.p) && Val(Y.p) == Val(B.p) && X.s == 1 && Y.s == 1
    ensures |X.p| <= |A.p| && |Y.p| == Sig(Y.p)
  {
    ValSig(A.p);
    ValSig(B.p);
    Copy(X, A);
    Copy(Y, B);
    X.s, Y.s := 1, 1;
    SigGrowsTo(Y.p, B.p);
    SigGrowsTo(B.p, Y.p);
  }

  lemma NormalizedLength(x: seq<Limb>, a: nat, n: nat, k: nat)
    requires k < biL && a < Bp(n) && Val(x) == a * Pow2(k)
    ensures Sig(x) <= n + 1
  {
    hide Val, Pow2, Bp, Sig;
    Pow2Mono(k, biL);
    MulMono(Pow2(k), BASE, a);
    MulMono(a, Bp(n), BASE);
    if a > 0 { MulLess(a, Bp(n), BASE); }
    BpSucc(n);
    SigBound(x, n + 1);
  }

  lemma NormalizedOrder(x: seq<Limb>, y: seq<Limb>, a: nat, b: nat, m: nat)
    requires 0 < b <= a && m >= 1 && Val(x) == a * m && Val(y) == b * m
    ensures 0 < Sig(y) <= Sig(x)
  {
    hide Val, Sig;
    MulMono(b, a, m);
    MulPos(b, m);
    SigGrowsTo(x, y);
    ValSig(y);
  }

  /** mbedtls_mpi_div_mpi: A == Q * B + R; Q may not be A, B or R, but R may be A or B. */
  method DivMpi(Q: Mpi?, R: Mpi?, A: Mpi, B: Mpi) returns (ret: Status)
    requires Q != null ==> Q != R && Q != A && Q != B
    modifies if Q == null then {} else {Q}, if R == null then {} else {R}
    ensures ret == if old(B.Value()) == 0 then DivisionByZero else Success
    ensures ret == Success && Q != null ==> Q.Value() == TDiv(old(A.Value()), old(B.Value()))
    ensures ret == Success && R != null ==> R.Value() == TRem(old(A.Value()), old(B.Value()))
    ensures ret == Success && R != null && old(A.p) != [] ==> |R.p| >= Max(1, old(|R.p|))
    ensures ret != Success ==> (Q != null ==> unchanged(Q)) && (R != null ==> unchanged(R))
  {
    hide Val;
    var z := CmpInt(B, 0);
    if z == 0 { return DivisionByZero; }
    ret := Success;
    var c := CmpAbs(A, B);
    if c < 0 {
      SmallDividend(A.s, Val(A.p), B.s, Val(B.p));
      if Q != null { Lset(Q, 0); }
      if R != null { Copy(R, A); }
      return;
    }
    var X, Z := DivMagnitudes(A, B);
    SignedResults(A.s, Val(A.p), B.s, Val(B.p));
    var sa, sb := A.s, B.s;
    if Q != null {
      Copy(Q, Z);
      Q.s := if sa == sb then 1 else -1;
    }
    if R != null { StoreRemainder(R, X, sa); }
  }

  method StoreRemainder(R: Mpi, X: Mpi, s: Sign)
    requires R != X && X.p != []
    modifies R, X
    ensures R.Value() == Signed(s, old(Val(X.p))) && |R.p| >= Max(1, old(|R.p|))
  {
    hide Val;
    X.s := s;
    Copy(R, X);
    var z := CmpInt(R, 0);
    if z == 0 { R.s := 1; }
  }

  lemma SmallDividend(s: Sign, v: nat, t: Sign, w: nat)
    requires v < w
    ensures Signed(t, w) != 0
    ensures TDiv(Signed(s, v), Signed(t, w)) == 0 && TRem(Signed(s, v), Signed(t, w)) == Signed(s, v)
  {
    DivUnique(v, w, 0, v);
  }

  lemma SignedResults(s: Sign, v: nat, t: Sign, w: nat)
    requires 0 < w <= v
    ensures Signed(t, w) != 0
    ensures TDiv(Signed(s, v), Signed(t, w)) == Signed(if s == t then 1 else -1, v / w)
    ensures TRem(Signed(s, v), Signed(t, w)) == Signed(s, v % w)
  {}

  // ---- reduction ----

  lemma TRemMod(a: int, n: int)
    requires 0 < n
    ensures TRem(a, n) == a % n || (TRem(a, n) < 0 && TRem(a, n) + n == a % n)
  {
    DivMod(Abs(a), n);
    DivMod(a, n);
    var q, r := Abs(a) / n, Abs(a) % n;
    assert (-q) * n == -(q * n);
    Distr(-q, 1, n);
    if a >= 0 { DivUnique(a, n, q, r); }
    else if r == 0 { DivUnique(a, n, -q, 0); }
    else { DivUnique(a, n, -q - 1, n - r); }
  }

  /** mbedtls_mpi_mod_mpi: R := A mod B. */
  method ModMpi(R: Mpi, A: Mpi, B: Mpi) returns (ret: Status)
    requires R != B
    modifies R
    ensures ret == if B.Value() < 0 then NegativeValue else if B.Value() == 0 then DivisionByZero else Success
    ensures ret == Success ==> B.Value() > 0 && R.Value() == old(A.Value()) % B.Value()
    ensures ret == Success && old(A.p) != [] ==> |R.p| >= Max(1, old(|R.p|))
    ensures ret != Success ==> unchanged(R)
  {
    hide Val, TRem, TDiv;
    var c := CmpInt(B, 0);
    if c < 0 { return NegativeValue; }
    ret := DivMpi(null, R, A, B);
    if ret != Success { return; }
    Reduce(R, B, old(A.Value()));
  }

  method Reduce(R: Mpi, B: Mpi, ghost a: int)
    requires R != B && B.Value() > 0 && R.Value() == TRem(a, B.Value())
    modifies R
    ensures R.Value() == a % B.Value()
    ensures old(R.p) != [] ==> |R.p| >= Max(1, old(|R.p|))
  {
    hide Val, TRem;
    ghost var n := B.Value();
    TRemMod(a, n);
    DivMod(a, n);
    NonzeroRow(B.p);
    var c := CmpInt(R, 0);
    while c < 0
      invariant c == SignOf(R.Value()) && (R.Value() == a % n || (R.Value() < 0 && R.Value() + n == a % n))
      invariant old(R.p) != [] ==> |R.p| >= Max(1, old(|R.p|))
      decreases c < 0, -R.Value()
    {
      AddMpi(R, R, B);
      c := CmpInt(R, 0);
    }
    SubtractWhileLarge(R, B);
    ModSmall(a % n, n);
  }

  method SubtractWhileLarge(R: Mpi, B: Mpi)
    requires R != B && B.Value() > 0 && R.Value() >= 0
    modifies R
    ensures R.Value() == old(R.Value()) % B.Value()
    ensures old(R.p) != [] ==> |R.p| >= Max(1, old(|R.p|))
  {
    hide Val;
    ghost var n, r := B.Value(), R.Value();
    NonzeroRow(B.p);
    var c := CmpMpi(R, B);
    while c >= 0
      invariant 0 <= R.Value() && R.Value() % n == r % n && c == SignOf(R.Value() - n)
      invariant old(R.p) != [] ==> |R.p| >= Max(1, old(|R.p|))
      decreases R.Value()
    {
      ModSub(R.Value(), n);
      SubMpi(R, R, B);
      c := CmpMpi(R, B);
    }
    ModSmall(R.Value(), n);
  }

  lemma ModSub(x: int, n: int)
    requires 0 < n
    ensures (x - n) % n == x % n
  {
    DivMod(x, n);
    Distr(x / n, 1, n);
    DivUnique(x - n, n, x / n - 1, x % n);
  }

  lemma ModSmall(x: int, n: int)
    requires 0 <= x && 0 < n
    ensures x < n ==> x % n == x
  {
    if x < n { DivUnique(x, n, 0, x); }
  }

  lemma NonzeroRow(p: seq<Limb>)
    ensures Val(p) > 0 ==> |p| > 0
  {}
}
