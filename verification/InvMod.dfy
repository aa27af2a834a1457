/** Modular inverse by the binary extended greatest common divisor. */
module InvMod {
  import opened Arith
  import opened Limbs
  import opened Mpi
  import opened Shift
  import opened Gcd
  import Div

  lemma EvenProduct(x: int, y: int)
    requires x % 2 == 0
    ensures (x * y) % 2 == 0
  {
    Assoc(2, x / 2, y);
    TwiceIsEven(x * y, (x / 2) * y);
  }

  lemma TwiceIsEven(v: int, h: int)
    requires v == 2 * h
    ensures v % 2 == 0
  {}

  lemma OddProduct(x: int, y: int)
    requires x % 2 == 1
    ensures (x * y) % 2 == y % 2
  {
    Distr(2 * (x / 2), 1, y);
    Assoc(2, x / 2, y);
    ParityOfSum(x * y, y, (x / 2) * y);
  }

  lemma ParityMul(x: int, y: int)
    ensures (x * y) % 2 == if x % 2 == 0 then 0 else y % 2
  {
    if x % 2 == 0 { EvenProduct(x, y); } else { OddProduct(x, y); }
  }

  lemma ParitySigned(s: Sign, v: int)
    ensures Signed(s, v) % 2 == v % 2
  {}

  /** Why adding N and subtracting A makes both coefficients even. */
  lemma CoefficientsHalve(t: int, c1: int, c2: int, ta: int, tb: int)
    requires t == c1 * ta + c2 * tb && t % 2 == 0 && (ta % 2 == 1 || tb % 2 == 1)
    requires c1 % 2 == 1 || c2 % 2 == 1
    ensures (c1 + tb) % 2 == 0 && (c2 - ta) % 2 == 0
    ensures (c1 + tb) * ta + (c2 - ta) * tb == t
  {
    ParityMul(c1, ta);
    ParityMul(c2, tb);
    ParityCases(c1 * ta, c2 * tb, c1, c2, ta, tb);
    Distr(c1, tb, ta);
    Distr(c2, ta, tb);
  }

  lemma ParityCases(x: int, y: int, c1: int, c2: int, ta: int, tb: int)
    requires (x + y) % 2 == 0 && (ta % 2 == 1 || tb % 2 == 1) && (c1 % 2 == 1 || c2 % 2 == 1)
    requires x % 2 == (if c1 % 2 == 0 then 0 else ta % 2) && y % 2 == (if c2 % 2 == 0 then 0 else tb % 2)
    ensures (c1 + tb) % 2 == 0 && (c2 - ta) % 2 == 0
  {}

  lemma HalfCombination(t: int, c1: int, c2: int, ta: int, tb: int)
    requires 2 * t == (2 * c1) * ta + (2 * c2) * tb
    ensures t == c1 * ta + c2 * tb
  {
    Assoc(2, c1, ta);
    Assoc(2, c2, tb);
  }

  /** T is the combination of TA and TB that its coefficients record. */
  ghost predicate Row(T: Mpi, C1: Mpi, C2: Mpi, ta: int, tb: int)
    reads T, C1, C2
  {
    T.p != [] && C1.p != [] && C2.p != [] &&
    T.Value() == C1.Value() * ta + C2.Value() * tb
  }

  /** The parity test on the lowest limb. */
  method IsEven(X: Mpi) returns (e: bool)
    requires X.p != []
    ensures e <==> X.Value() % 2 == 0
  {
    ValParity(X.p);
    ParitySigned(X.s, Val(X.p));
    e := X.p[0] % 2 == 0;
  }

  /** Shifting an even number, of either sign, halves it exactly. */
  method HalveMpi(X: Mpi)
    requires X.p != [] && X.Value() % 2 == 0
    modifies X
    ensures X.p != [] && 2 * X.Value() == old(X.Value())
  {
    hide Val;
    ParitySigned(X.s, Val(X.p));
    assert Pow2(1) == 2 * Pow2(0);
    ShiftR(X, 1);
  }

  method HalveRow(T: Mpi, C1: Mpi, C2: Mpi, TA: Mpi, TB: Mpi)
    requires T != C1 && T != C2 && C1 != C2
    requires TA !in {T, C1, C2} && TB !in {T, C1, C2}
    requires TA.p != [] && TB.p != [] && Row(T, C1, C2, TA.Value(), TB.Value())
    requires T.Value() % 2 == 0 && (TA.Value() % 2 == 1 || TB.Value() % 2 == 1)
    modifies T, C1, C2
    ensures Row(T, C1, C2, TA.Value(), TB.Value()) && 2 * T.Value() == old(T.Value())
  {
    hide Val;
    ghost var t, ta, tb := T.Value(), TA.Value(), TB.Value();
    HalveMpi(T);
    var e1 := IsEven(C1);
    var e2 := IsEven(C2);
    if !e1 || !e2 {
      CoefficientsHalve(t, C1.Value(), C2.Value(), ta, tb);
      AddMpi(C1, C1, TB);
      SubMpi(C2, C2, TA);
    }
    HalveMpi(C1);
    HalveMpi(C2);
    HalfCombination(T.Value(), C1.Value(), C2.Value(), ta, tb);
  }

  /** Halving while even; the other number s is odd, so the greatest common divisor stays. */
  method HalveWhileEven(T: Mpi, C1: Mpi, C2: Mpi, TA: Mpi, TB: Mpi, ghost s: int)
    requires T != C1 && T != C2 && C1 != C2
    requires TA !in {T, C1, C2} && TB !in {T, C1, C2}
    requires TA.p != [] && TB.p != [] && Row(T, C1, C2, TA.Value(), TB.Value())
    requires T.Value() > 0 && (TA.Value() % 2 == 1 || TB.Value() % 2 == 1)
    requires IsGcd(1, T.Value(), s)
    modifies T, C1, C2
    ensures Row(T, C1, C2, TA.Value(), TB.Value()) && IsGcd(1, T.Value(), s)
    ensures T.Value() % 2 == 1 && 0 < T.Value() <= old(T.Value())
  {
    hide Val, IsGcd, Row;
    assert T.p != [] by { RowNonempty(T, C1, C2, TA.Value(), TB.Value()); }
    var e := IsEven(T);
    while e
      invariant Row(T, C1, C2, TA.Value(), TB.Value()) && IsGcd(1, T.Value(), s)
      invariant 0 < T.Value() <= old(T.Value()) && (e <==> T.Value() % 2 == 0)
      decreases T.Value()
    {
      EvenHalf(T.Value(), s);
      HalveRow(T, C1, C2, TA, TB);
      RowNonempty(T, C1, C2, TA.Value(), TB.Value());
      e := IsEven(T);
    }
  }

  lemma RowNonempty(T: Mpi, C1: Mpi, C2: Mpi, ta: int, tb: int)
    requires Row(T, C1, C2, ta, tb)
    ensures T.p != []
  {}

  /** An even number coprime to s: s is odd and its half is coprime to s too. */
  lemma EvenHalf(t: int, s: int)
    requires IsGcd(1, t, s) && t % 2 == 0
    ensures s % 2 == 1 && IsGcd(1, t / 2, s)
  {
    if s % 2 == 0 {
      DividesIntro(2, t / 2, t);
      DividesIntro(2, s / 2, s);
      var k := DividesElim(2, 1);
    }
    assert Pow2(1) == 2 * Pow2(0);
    assert t == (t / 2) * Pow2(1);
    StripTwos(1, t / 2, s, 1);
  }

  /** T := T - S together with its coefficients. */
  method SubtractRow(T: Mpi, C1: Mpi, C2: Mpi, S: Mpi, D1: Mpi, D2: Mpi, ghost ta: int, ghost tb: int)
    requires T != C1 && T != C2 && C1 != C2
    requires S !in {T, C1, C2} && D1 !in {T, C1, C2} && D2 !in {T, C1, C2}
    requires Row(T, C1, C2, ta, tb) && Row(S, D1, D2, ta, tb)
    modifies T, C1, C2
    ensures Row(T, C1, C2, ta, tb) && T.Value() == old(T.Value()) - S.Value()
  {
    hide Val;
    Distr(C1.Value(), D1.Value(), ta);
    Distr(C2.Value(), D2.Value(), tb);
    SubMpi(T, T, S);
    SubMpi(C1, C1, D1);
    SubMpi(C2, C2, D2);
  }

  ghost predicate Apart(TA: Mpi, TB: Mpi, TU: Mpi, U1: Mpi, U2: Mpi, TV: Mpi, V1: Mpi, V2: Mpi) {
    TU != U1 && TU != U2 && U1 != U2 && TV != V1 && TV != V2 && V1 != V2 &&
    TA !in {TU, U1, U2} && TB !in {TU, U1, U2} && TA !in {TV, V1, V2} && TB !in {TV, V1, V2} &&
    TU !in {TV, V1, V2} && U1 !in {TV, V1, V2} && U2 !in {TV, V1, V2}
  }

  /** One round of the outer loop. */
  method InvRound(TA: Mpi, TB: Mpi, TU: Mpi, U1: Mpi, U2: Mpi, TV: Mpi, V1: Mpi, V2: Mpi)
    requires Apart(TA, TB, TU, U1, U2, TV, V1, V2) && TA.p != [] && TB.p != []
    requires TA.Value() % 2 == 1 || TB.Value() % 2 == 1
    requires Row(TU, U1, U2, TA.Value(), TB.Value()) && Row(TV, V1, V2, TA.Value(), TB.Value())
    requires TU.Value() > 0 && TV.Value() > 0 && IsGcd(1, TU.Value(), TV.Value())
    modifies TU, U1, U2, TV, V1, V2
    ensures Row(TU, U1, U2, TA.Value(), TB.Value()) && Row(TV, V1, V2, TA.Value(), TB.Value())
    ensures TU.Value() >= 0 && TV.Value() > 0 && IsGcd(1, TU.Value(), TV.Value())
    ensures TU.Value() + TV.Value() < old(TU.Value()) + old(TV.Value())
  {
    hide Val, IsGcd, Row;
    HalveWhileEven(TU, U1, U2, TA, TB, TV.Value());
    GcdSymmetric(1, TU.Value(), TV.Value());
    HalveWhileEven(TV, V1, V2, TA, TB, TU.Value());
    SubtractSmaller(TA.Value(), TB.Value(), TU, U1, U2, TV, V1, V2);
  }

  method SubtractSmaller(ghost ta: int, ghost tb: int, TU: Mpi, U1: Mpi, U2: Mpi, TV: Mpi, V1: Mpi, V2: Mpi)
    requires TU != U1 && TU != U2 && U1 != U2 && TV != V1 && TV != V2 && V1 != V2
    requires TU !in {TV, V1, V2} && U1 !in {TV, V1, V2} && U2 !in {TV, V1, V2}
    requires Row(TU, U1, U2, ta, tb) && Row(TV, V1, V2, ta, tb)
    requires TU.Value() > 0 && TV.Value() > 0 && IsGcd(1, TV.Value(), TU.Value())
    modifies TU, U1, U2, TV, V1, V2
    ensures Row(TU, U1, U2, ta, tb) && Row(TV, V1, V2, ta, tb)
    ensures TU.Value() >= 0 && TV.Value() > 0 && IsGcd(1, TU.Value(), TV.Value())
    ensures TU.Value() + TV.Value() < old(TU.Value()) + old(TV.Value())
  {
    hide Val, IsGcd, Row;
    ghost var u, v := TU.Value(), TV.Value();
    GcdSymmetric(1, v, u);
    GcdSubtract(1, u, v);
    GcdSubtract(1, v, u);
    GcdSymmetric(1, v - u, u);
    var c := CmpMpi(TU, TV);
    if c >= 0 {
      SubtractRow(TU, U1, U2, TV, V1, V2, ta, tb);
    } else {
      SubtractRow(TV, V1, V2, TU, U1, U2, ta, tb);
    }
  }

  // ---- the whole function ----

  lemma GcdOfResidue(g: int, a: int, n: int)
    requires 0 < n && IsGcd(g, a, n)
    ensures IsGcd(g, a % n, n)
  {
    DivMod(a, n);
    var k := a / n;
    DividesLinear(g, a, n, 1, -k);
    forall d | Divides(d, a % n) && Divides(d, n)
      ensures Divides(d, g)
    {
      DividesLinear(d, a % n, n, 1, k);
    }
  }

  lemma ResidueNonzero(a: int, n: int)
    requires 1 < n && IsGcd(1, a, n)
    ensures 0 < a % n < n && IsGcd(1, a % n, n)
    ensures (a % n) % 2 == 1 || n % 2 == 1
  {
    DivMod(a, n);
    GcdOfResidue(1, a, n);
    if a % n == 0 { GcdZero(1, n); }
    if (a % n) % 2 == 0 { EvenHalf(a % n, n); }
  }

  /** V1 is an inverse once TV has come down to 1. */
  lemma InverseFound(v1: int, v2: int, a: int, n: int)
    requires 1 < n && 1 == v1 * (a % n) + v2 * n
    ensures Cong(v1 * a, 1, n)
  {
    DivMod(a, n);
    Distr((a / n) * n, a % n, v1);
    Assoc(v1, a / n, n);
    Distr(v1 * (a / n), v2, n);
    CongIntro(v1 * a, 1, n, v1 * (a / n) - v2);
  }

  lemma ShiftedInverse(v: int, a: int, n: int)
    requires Cong(v * a, 1, n)
    ensures Cong((v + n) * a, 1, n) && Cong((v - n) * a, 1, n)
  {
    var k := CongElim(v * a, 1, n);
    Distr(v, n, a);
    Distr(k, a, n);
    CongIntro((v + n) * a, 1, n, k + a);
    CongIntro((v - n) * a, 1, n, k - a);
  }

  method SetRow(T: Mpi, C1: Mpi, C2: Mpi, S: Mpi, c1: int, c2: int, ghost ta: int, ghost tb: int)
    requires T != C1 && T != C2 && C1 != C2 && S !in {T, C1, C2} && S.p != []
    requires 0 <= c1 <= 1 && 0 <= c2 <= 1 && S.Value() == c1 * ta + c2 * tb
    modifies T, C1, C2
    ensures Row(T, C1, C2, ta, tb) && T.Value() == S.Value()
  {
    hide Val;
    BaseFacts();
    CopyNonempty(T, S);
    Lset(C1, c1);
    Lset(C2, c2);
  }

  method CopyNonempty(T: Mpi, S: Mpi)
    requires S.p != []
    modifies T
    ensures T.p != [] && T.Value() == old(S.Value())
  {
    Copy(T, S);
  }

  /** From the residue of A and from N to a coefficient that inverts A modulo N. */
  method InverseCoefficient(TA: Mpi, N: Mpi, ghost a: int) returns (V1: Mpi)
    requires TA.p != [] && N.p != [] && 1 < N.Value() && TA.Value() == a % N.Value()
    requires IsGcd(1, a, N.Value())
    ensures fresh(V1) && V1.p != [] && Cong(V1.Value() * a, 1, N.Value())
  {
    hide Val, IsGcd, Row, Cong;
    ghost var n := N.Value();
    ResidueNonzero(a, n);
    var TB := new Mpi();
    var TU := new Mpi();
    var U1 := new Mpi();
    var U2 := new Mpi();
    var TV := new Mpi();
    V1 := new Mpi();
    var V2 := new Mpi();
    SetRow(TU, U1, U2, TA, 1, 0, TA.Value(), n);
    CopyNonempty(TB, N);
    SetRow(TV, V1, V2, N, 0, 1, TA.Value(), n);
    InvLoop(TA, TB, TU, U1, U2, TV, V1, V2);
    RowValue(TV, V1, V2, TA.Value(), n);
    InverseFound(V1.Value(), V2.Value(), a, n);
  }

  lemma RowValue(T: Mpi, C1: Mpi, C2: Mpi, ta: int, tb: int)
    requires Row(T, C1, C2, ta, tb)
    ensures C1.p != [] && T.Value() == C1.Value() * ta + C2.Value() * tb
  {}

  method InvLoop(TA: Mpi, TB: Mpi, TU: Mpi, U1: Mpi, U2: Mpi, TV: Mpi, V1: Mpi, V2: Mpi)
    requires Apart(TA, TB, TU, U1, U2, TV, V1, V2) && TA.p != [] && TB.p != []
    requires TA.Value() % 2 == 1 || TB.Value() % 2 == 1
    requires Row(TU, U1, U2, TA.Value(), TB.Value()) && Row(TV, V1, V2, TA.Value(), TB.Value())
    requires TU.Value() > 0 && TV.Value() > 0 && IsGcd(1, TU.Value(), TV.Value())
    modifies TU, U1, U2, TV, V1, V2
    ensures Row(TV, V1, V2, TA.Value(), TB.Value()) && TV.Value() == 1
  {
    hide Val, IsGcd, Row;
    var c := 1;
    while c != 0
      invariant TA.p != [] && TB.p != []
      invariant TA.Value() == old(TA.Value()) && TB.Value() == old(TB.Value())
      invariant Row(TU, U1, U2, TA.Value(), TB.Value()) && Row(TV, V1, V2, TA.Value(), TB.Value())
      invariant TU.Value() >= 0 && TV.Value() > 0 && IsGcd(1, TU.Value(), TV.Value())
      invariant c == 0 <==> TU.Value() == 0
      decreases TU.Value() + TV.Value()
    {
      InvRound(TA, TB, TU, U1, U2, TV, V1, V2);
      c := CmpInt(TU, 0);
    }
    GcdZero(1, TV.Value());
  }

  /** Bringing the coefficient into [0, N). */
  method ReduceInverse(V1: Mpi, N: Mpi, ghost a: int)
    requires V1 != N && V1.p != [] && N.p != [] && 1 < N.Value() && Cong(V1.Value() * a, 1, N.Value())
    modifies V1
    ensures 0 <= V1.Value() < N.Value() && Cong(V1.Value() * a, 1, N.Value())
  {
    hide Val, Cong;
    var c := CmpInt(V1, 0);
    while c < 0
      invariant V1.p != [] && Cong(V1.Value() * a, 1, N.Value()) && c == SignOf(V1.Value())
      decreases c < 0, -V1.Value()
    {
      ShiftedInverse(V1.Value(), a, N.Value());
      AddMpi(V1, V1, N);
      c := CmpInt(V1, 0);
    }
    c := CmpMpi(V1, N);
    while c >= 0
      invariant V1.p != [] && Cong(V1.Value() * a, 1, N.Value()) && 0 <= V1.Value()
      invariant c == SignOf(V1.Value() - N.Value())
      decreases V1.Value()
    {
      ShiftedInverse(V1.Value(), a, N.Value());
      SubMpi(V1, V1, N);
      c := CmpMpi(V1, N);
    }
  }

  /** mbedtls_mpi_inv_mod; for N = 1 see InvModAtOne. */
  method InvModMpi(X: Mpi, A: Mpi, N: Mpi) returns (ret: Status)
    requires N.Value() != 1
    modifies X
    ensures ret == BadInputData <==> old(N.Value()) <= 0
    ensures ret == Success <==> old(N.Value()) > 0 && IsGcd(1, old(A.Value()), old(N.Value()))
    ensures ret in {BadInputData, NotAcceptable, Success}
    ensures ret == Success ==> 0 <= X.Value() < old(N.Value())
    ensures ret == Success ==> Cong(X.Value() * old(A.Value()), 1, old(N.Value()))
    ensures ret != Success ==> unchanged(X)
  {
    hide Val, IsGcd, Cong;
    var c := CmpInt(N, 0);
    if c <= 0 { return BadInputData; }
    ghost var a, n := A.Value(), N.Value();
    var G := new Mpi();
    GcdMpi(G, A, N);
    BaseFacts();
    c := CmpInt(G, 1);
    if c != 0 {
      if IsGcd(1, a, n) { GcdUnique(1, G.Value(), a, n); }
      return NotAcceptable;
    }
    var TA := new Mpi();
    var _ := Div.ModMpi(TA, A, N);
    ResidueNonzero(a, n);
    ValueNonempty(TA);
    ValueNonempty(N);
    var V1 := InverseCoefficient(TA, N, a);
    ReduceInverse(V1, N, a);
    Copy(X, V1);
    ret := Success;
  }

  /** Turns of the inner loop on a row that holds zero: it stays zero, and its lowest limb even. */
  method ZeroRowTurns(T: Mpi, C1: Mpi, C2: Mpi, TA: Mpi, TB: Mpi, turns: nat) returns (again: bool)
    requires T != C1 && T != C2 && C1 != C2
    requires TA !in {T, C1, C2} && TB !in {T, C1, C2}
    requires TA.p != [] && TB.p != [] && Row(T, C1, C2, TA.Value(), TB.Value())
    requires T.Value() == 0 && TB.Value() % 2 == 1
    modifies T, C1, C2
    ensures Row(T, C1, C2, TA.Value(), TB.Value()) && T.Value() == 0 && again
  {
    hide Val;
    for i := 0 to turns
      invariant TA.Value() == old(TA.Value()) && TB.Value() == old(TB.Value()) && TA.p != [] && TB.p != []
      invariant Row(T, C1, C2, TA.Value(), TB.Value()) && T.Value() == 0
    {
      HalveRow(T, C1, C2, TA, TB);
    }
    again := IsEven(T);
  }

  /**
   * N = 1: nothing is refused, the residue of A is 0, and after any number of turns the first inner
   * loop still goes on.
   */
  method InvModAtOne(A: Mpi, N: Mpi, turns: nat) returns (refused: bool, again: bool)
    requires N.Value() == 1 && A.p != []
    ensures !refused && again
  {
    hide Val, IsGcd, Row;
    var c := CmpInt(N, 0);
    if c <= 0 { return true, false; }
    ghost var a := A.Value();
    var G := new Mpi();
    GcdMpi(G, A, N);
    GcdWithOne(a, G.Value());
    BaseFacts();
    c := CmpInt(G, 1);
    if c != 0 { return true, false; }
    var TA := new Mpi();
    var _ := Div.ModMpi(TA, A, N);
    ModOne(a);
    again := TurnsOfZero(TA, N, turns);
    refused := false;
  }

  method TurnsOfZero(TA: Mpi, N: Mpi, turns: nat) returns (again: bool)
    requires TA.p != [] && TA.Value() == 0 && N.Value() == 1
    ensures again
  {
    hide Val, Row;
    ValueNonempty(N);
    var TB := new Mpi();
    CopyNonempty(TB, N);
    var TU := new Mpi();
    var U1 := new Mpi();
    var U2 := new Mpi();
    SetRow(TU, U1, U2, TA, 1, 0, TA.Value(), TB.Value());
    again := ZeroRowTurns(TU, U1, U2, TA, TB, turns);
  }

  lemma GcdWithOne(a: int, g: int)
    requires IsGcd(g, a, 1)
    ensures g == 1
  {
    DividesIntro(1, a, a);
    DividesSelf(1);
    BezoutIsGcd(1, a, 1, 0, 1);
    GcdUnique(1, g, a, 1);
  }

  lemma ModOne(a: int)
    ensures a % 1 == 0
  {}

  lemma ValueNonempty(X: Mpi)
    requires X.Value() != 0
    ensures X.p != []
  {}

  /** The result is the only inverse in [0, n). */
  lemma InverseUnique(x: int, y: int, a: int, n: int)
    requires 1 < n && 0 <= x < n && 0 <= y < n && Cong(x * a, 1, n) && Cong(y * a, 1, n)
    ensures x == y
  {
    CongScale(x * a, 1, y, n);
    CongScale(y * a, 1, x, n);
    assert x * a * y == y * a * x by { Assoc(x, a, y); Assoc(y, a, x); }
    CongSym(x * a * y, 1 * y, n);
    CongTrans(1 * y, y * a * x, 1 * x, n);
    CongUnique(y, x, n);
    DivUnique(x, n, 0, x);
  }
}
