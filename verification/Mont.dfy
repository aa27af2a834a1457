/** Montgomery multiplication. */
module Mont {
  import opened Arith
  import opened Limbs
  import opened Mpi
  import opened Shift
  import opened IntDiv

  // ---- the inverse of the lowest limb ----

  /** mm is -1/N[0] modulo the base. */
  ghost predicate IsMontInverse(mm: int, n0: int) {
    Cong(n0 * mm, -1, BASE)
  }

  /** Four correct bits from one table-free formula. */
  lemma FirstInverse(m: Limb)
    requires m % 2 == 1
    ensures Cong(m * (m + ((m + 2) / 4 % 2) * 8), 1, 16)
  {
    var k, r := m / 16, m % 16;
    assert (m + 2) / 4 % 2 == (r + 2) / 4 % 2 by { QuarterBit(k, r + 2); }
    var c := (r + 2) / 4 % 2;
    assert m == 16 * k + r && r % 2 == 1;
    var w := (r * (r + 8 * c)) / 16;
    assert r * (r + 8 * c) == 16 * w + 1 by { OddResidues(r); }
    Distr(16 * k, r, m + 8 * c);
    Distr(16 * k, r + 8 * c, r);
    Assoc(16, k, m + 8 * c);
    Assoc(r, 16, k);
    CongIntro(m * (m + c * 8), 1, 16, k * (m + 8 * c) + r * k + w);
  }

  lemma QuarterBit(k: int, t: int)
    ensures (16 * k + t) / 4 % 2 == t / 4 % 2
  {
    DivMod(t, 4);
    DivUnique(16 * k + t, 4, 4 * k + t / 4, t % 4);
    ParityOfSum(4 * k + t / 4, t / 4, 2 * k);
  }

  lemma OddResidues(r: int)
    requires 0 <= r < 16 && r % 2 == 1
    ensures (r * (r + 8 * ((r + 2) / 4 % 2))) % 16 == 1
  {
    assert r in {1, 3, 5, 7, 9, 11, 13, 15};
  }

  lemma CongCoarser(a: int, b: int, m: int, k: int)
    requires Cong(a, b, k * m)
    ensures Cong(a, b, m)
  {
    var j := CongElim(a, b, k * m);
    Assoc(j, k, m);
    CongIntro(a, b, m, j * k);
  }

  /** One Newton step doubles the number of correct bits. */
  lemma NewtonStep(m: int, x: int, q: int)
    requires Cong(m * x, 1, q)
    ensures Cong(m * (x * (2 - m * x)), 1, q * q)
  {
    var k := CongElim(m * x, 1, q);
    var e := k * q;
    assert m * x == 1 + e;
    Assoc(m, x, 2 - m * x);
    assert (1 + e) * (1 - e) == 1 - e * e;
    assert e * e == (k * k) * (q * q) by { Assoc(k * q, k, q); Assoc(k, q, k); }
    CongIntro(m * (x * (2 - m * x)), 1, q * q, -(k * k));
  }

  lemma CongWMul(x: int, y: int)
    ensures Cong(WMul(x, y), x * y, BASE)
  {
    CongWrap(x * y);
  }

  lemma CongWSub(x: int, y: int)
    ensures Cong(WSub(x, y), x - y, BASE)
  {
    CongWrap(x - y);
  }

  lemma WrappedNewton(m: int, x: int)
    ensures Cong(WMul(x, WSub(2, WMul(m, x))), x * (2 - m * x), BASE)
  {
    hide Wrap, Cong, WMul, WSub;
    var p: int, u: int := m * x, WMul(m, x);
    CongWMul(m, x);
    CongRefl(2, BASE);
    CongSub(2, 2, u, p, BASE);
    var v, w := WSub(2, u), 2 - p;
    CongWSub(2, u);
    CongTrans(v, 2 - u, w, BASE);
    CongScale(v, w, x, BASE);
    CongWMul(x, v);
    CongTrans(WMul(x, v), x * v, x * w, BASE);
  }

  lemma DoubledBits(m: int, x: int, bits: nat)
    requires 2 * bits <= biL && Cong(m * x, 1, Pow2(bits))
    ensures Cong(m * WMul(x, WSub(2, WMul(m, x))), 1, Pow2(2 * bits))
  {
    hide Wrap, Cong, WMul, WSub, Pow2;
    NewtonStep(m, x, Pow2(bits));
    Pow2Add(bits, bits);
    WrappedNewton(m, x);
    var y := WMul(x, WSub(2, WMul(m, x)));
    CongScale(y, x * (2 - m * x), m, BASE);
    Pow2Add(biL - 2 * bits, 2 * bits);
    CongCoarser(m * y, m * (x * (2 - m * x)), Pow2(2 * bits), Pow2(biL - 2 * bits));
    CongTrans(m * y, m * (x * (2 - m * x)), 1, Pow2(2 * bits));
  }

  lemma Pow2Four()
    ensures Pow2(4) == 16
  {}

  lemma CongWAdd(x: int, y: int)
    ensures Cong(WAdd(x, y), x + y, BASE)
  {
    CongWrap(x + y);
  }

  lemma StartBits(m: Limb)
    requires m % 2 == 1
    ensures Cong(m * WAdd(m, ((WAdd(m, 2) / 4) % 2) * 8), 1, Pow2(4))
  {
    hide Cong, WAdd, Pow2;
    assert Pow2(4) == 16 by { Pow2Four(); }
    FirstInverse(m);
    WrapBit(m);
    var c := ((m + 2) / 4 % 2) * 8;
    var y := WAdd(m, c);
    assert Cong(y, m + c, 16) by {
      CongWAdd(m, c);
      BaseOver16();
      CongCoarser(y, m + c, 16, Pow2(biL - 4));
    }
    CongScale(y, m + c, m, 16);
    CongTrans(m * y, m * (m + c), 1, 16);
  }

  lemma WrapBit(m: Limb)
    ensures (WAdd(m, 2) / 4) % 2 == (m + 2) / 4 % 2
  {
    hide Pow2;
    BaseFacts();
    if m + 2 >= BASE {
      BaseOver16();
      QuarterBit(Pow2(biL - 4), m + 2 - BASE);
    }
  }

  lemma BaseOver16()
    ensures BASE == 16 * Pow2(biL - 4)
  {
    Pow2Add(biL - 4, 4);
    assert Pow2(4) == 16;
  }

  lemma NegatedInverse(m: int, x: Limb)
    requires Cong(m * x, 1, BASE)
    ensures IsMontInverse(WAdd(BASE - 1 - x, 1), m)
  {
    hide Cong, Wrap;
    var y := WAdd(BASE - 1 - x, 1);
    CongWrap(BASE - x);
    CongScale(y, BASE - x, m, BASE);
    CongIntro(m * BASE, 0, BASE, m);
    CongSub(m * BASE, 0, m * x, 1, BASE);
    Distr(BASE, x, m);
    CongTrans(m * y, m * (BASE - x), -1, BASE);
  }

  /** mpi_montg_init: the number of correct bits doubles from 4 up to the limb size. */
  method MontgInit(N: Mpi) returns (mm: Limb)
    requires |N.p| > 0
    ensures N.p[0] % 2 == 1 ==> IsMontInverse(mm, N.p[0])
  {
    hide Wrap, Cong, WMul, WSub, WAdd, Pow2;
    var m0 := N.p[0];
    var x: Limb := WAdd(m0, ((WAdd(m0, 2) / 4) % 2) * 8);
    if m0 % 2 == 1 { StartBits(m0); }
    var i: nat := biL;
    ghost var bits: nat := 4;
    while i >= 8
      invariant i in {4, 8, 16, 32, 64} && i * bits == 4 * biL
      invariant m0 % 2 == 1 ==> Cong(m0 * x, 1, Pow2(bits))
    {
      if m0 % 2 == 1 { DoubledBits(m0, x, bits); }
      x := WMul(x, WSub(2, WMul(m0, x)));
      i := i / 2;
      bits := 2 * bits;
    }
    if m0 % 2 == 1 { NegatedInverse(m0, x); }
    mm := WAdd(BASE - 1 - x, 1);
  }

  // ---- multiplication ----

  /** The limb u1 that makes the lowest limb of d + u0*b + u1*n vanish. */
  lemma LowLimbVanishes(d: int, b: int, n: int, d0: Limb, b0: Limb, n0: Limb, u0: Limb, u1: Limb, mm: Limb)
    requires Cong(d, d0, BASE) && Cong(b, b0, BASE) && Cong(n, n0, BASE)
    requires IsMontInverse(mm, n0) && u1 == WMul(WAdd(d0, WMul(u0, b0)), mm)
    ensures Cong(d + u0 * b + u1 * n, 0, BASE)
  {
    hide Cong, WMul, WAdd, Wrap;
    var s: int := d0 + u0 * b0;
    var w: int := WAdd(d0, WMul(u0, b0));
    assert Cong(w, s, BASE) by { WrappedSum(d0, u0, b0); }
    assert Cong(u1, s * mm, BASE) by {
      CongWMul(w, mm);
      CongScale(w, s, mm, BASE);
      CongTrans(u1, w * mm, s * mm, BASE);
    }
    assert Cong(u1 * n, -s, BASE) by {
      CongMul(u1, s * mm, n, n0, BASE);
      CongScale(n0 * mm, -1, s, BASE);
      assert s * (n0 * mm) == s * mm * n0 by { Assoc(s, n0, mm); }
      CongTrans(u1 * n, s * mm * n0, s * -1, BASE);
    }
    assert Cong(d + u0 * b, s, BASE) by {
      CongScale(b, b0, u0, BASE);
      CongAdd(d, d0, u0 * b, u0 * b0, BASE);
    }
    CongAdd(d + u0 * b, s, u1 * n, -s, BASE);
  }

  lemma WrappedSum(d0: Limb, u0: Limb, b0: Limb)
    ensures Cong(WAdd(d0, WMul(u0, b0)), d0 + u0 * b0, BASE)
  {
    hide Cong, WMul, Wrap;
    var p: int, q: int := u0 * b0, WMul(u0, b0);
    CongWMul(u0, b0);
    CongRefl(d0, BASE);
    CongAdd(d0, d0, q, p, BASE);
    CongWrap(d0 + q);
    CongTrans(WAdd(d0, q), d0 + q, d0 + p, BASE);
  }

  lemma CongLowLimb(p: seq<Limb>, i: nat)
    requires i < |p|
    ensures Cong(Val(p[i..]), p[i], BASE)
  {
    hide Val;
    ValHead(p, i);
    CongIntro(Val(p[i..]), p[i], BASE, Val(p[i + 1..]));
  }

  /** After i rounds the value from limb i on is below n + b and stands for A[..i]*B/BASE^i. */
  ghost predicate MontState(t: seq<Limb>, a: seq<Limb>, b: nat, n: nat, len: nat, i: nat) {
    i <= len <= |a| && 2 * len + 2 <= |t| && t[..i] == a[..i] &&
    Val(t[i..]) < n + b && Cong(Val(t[i..]) * Bp(i), Val(a[..i]) * b, n)
  }

  /** The number that one round divides by the base. */
  lemma RoundValue(d: nat, u0: Limb, b: nat, u1: Limb, n: nat, e: nat)
    requires d < n + b && d + u0 * b + u1 * n == BASE * e
    ensures e < n + b
  {
    MulMono(u0, BASE - 1, b);
    MulMono(u1, BASE - 1, n);
    Distr(n, b, BASE);
    Distr(BASE, 1, b);
    Distr(BASE, 1, n);
    MulCancelLess(e, n + b, BASE);
  }

  lemma RoundCong(d: nat, u0: Limb, b: nat, u1: Limb, n: nat, e: nat, w: nat, a: nat, a': nat)
    requires d + u0 * b + u1 * n == BASE * e && a' == a + u0 * w
    requires Cong(d * w, a * b, n)
    ensures Cong(e * (BASE * w), a' * b, n)
  {
    hide Cong;
    var y, p, q, x, k := e * (BASE * w), d * w, a * b, u0 * w * b, u1 * w;
    RoundIdentities(d, u0, b, u1, n, e, w, a, a');
    assert y == p + x + k * n;
    CongShift(y, p, q, x, k, n);
    assert a' * b == q + x;
  }

  lemma CongShift(y: int, d: int, a: int, x: int, k: int, n: int)
    requires y == d + x + k * n && Cong(d, a, n)
    ensures Cong(y, a + x, n)
  {
    hide Cong;
    CongRefl(x, n);
    CongAdd(d, a, x, x, n);
    CongIntro(y, d + x, n, k);
    CongTrans(y, d + x, a + x, n);
  }

  lemma RoundIdentities(d: int, u0: int, b: int, u1: int, n: int, e: int, w: int, a: int, a': int)
    requires d + u0 * b + u1 * n == BASE * e && a' == a + u0 * w
    ensures a' * b == a * b + u0 * w * b
    ensures e * (BASE * w) == d * w + u0 * w * b + (u1 * w) * n
  {
    Distr(a, u0 * w, b);
    Assoc(e, BASE, w);
    assert e * (BASE * w) == (d + u0 * b + u1 * n) * w;
    Distr(d + u0 * b, u1 * n, w);
    Distr(d, u0 * b, w);
    Assoc(u0, b, w);
    Assoc(u1, n, w);
  }

  /** Room for one round: nothing carries out of the limbs set aside. */
  lemma RoundFits(t: seq<Limb>, d: nat, u0: Limb, b: nat, u1: Limb, n: nat, len: nat, i: nat)
    requires i < len && 2 * len + 2 <= |t| && d == Val(t[i..])
    requires d < n + b && b <= n < Bp(len)
    ensures Val(t) + u0 * b * Bp(i) + u1 * n * Bp(i) < Bp(|t|)
  {
    hide Val, Bp;
    assert Val(t) == Val(t[..i]) + Bp(i) * d by { ValSplit(t, i); }
    assert Val(t[..i]) < Bp(i) by { ValBound(t[..i]); }
    assert d + u0 * b + u1 * n < Bp(len + 2) by {
      RoundBelow(d, u0, b, u1, n, Bp(len));
      BpSucc(len);
      BpSucc(len + 1);
    }
    assert Bp(i) * Bp(len + 2) <= Bp(|t|) by {
      BpAdd(i, len + 2);
      BpMono(i + len + 2, |t|);
    }
    MulNonneg(u0, b);
    MulNonneg(u1, n);
    FitsBelow(Val(t[..i]), Bp(i), d, u0 * b, u1 * n, Bp(len + 2));
  }

  lemma FitsBelow(low: nat, w: nat, d: nat, x: nat, y: nat, big: nat)
    requires low < w && d + x + y < big
    ensures low + w * d + x * w + y * w < w * big
  {
    Distr(d + x, y, w);
    Distr(d, x, w);
    MulMono(d + x + y + 1, big, w);
    Distr(d + x + y, 1, w);
  }

  lemma RoundBelow(d: nat, u0: Limb, b: nat, u1: Limb, n: nat, w: nat)
    requires d < n + b && b <= n < w
    ensures d + u0 * b + u1 * n < BASE * (BASE * w)
  {
    BaseFacts();
    MulMono(u0, BASE - 1, b);
    MulMono(u1, BASE - 1, n);
    Distr(BASE, 1, b);
    Distr(BASE, 1, n);
    MulMono(b, w, BASE);
    MulMono(n, w, BASE);
    MulPos(BASE, w);
    MulMono(2, BASE, BASE * w);
  }

  /** What adding x*BASE^i to a row does to the part from limb i on. */
  lemma HighPart(t: seq<Limb>, t': seq<Limb>, i: nat, x: nat)
    requires i <= |t| == |t'| && t[..i] == t'[..i] && Val(t') == Val(t) + x * Bp(i)
    ensures Val(t'[i..]) == Val(t[i..]) + x
  {
    hide Val, Bp;
    ValSplit(t, i);
    ValSplit(t', i);
    Distr(Val(t[i..]), x, Bp(i));
    MulCancel(Val(t'[i..]), Val(t[i..]) + x, Bp(i));
  }

  lemma ZeroLowLimb(t: seq<Limb>, i: nat)
    requires i < |t| && Cong(Val(t[i..]), 0, BASE)
    ensures t[i] == 0 && Val(t[i..]) == BASE * Val(t[i + 1..])
  {
    hide Val, Cong;
    CongLowLimb(t, i);
    CongSym(Val(t[i..]), t[i], BASE);
    CongTrans(t[i], Val(t[i..]), 0, BASE);
    CongUnique(t[i], 0, BASE);
    DivUnique(0, BASE, 0, 0);
    ValHead(t, i);
  }

  /** The limb the original clears is already zero. */
  lemma ClearedLimb(t: seq<Limb>, i: nat, len: nat, e: nat)
    requires i < len && 2 * len + 2 <= |t| && e == Val(t[i + 1..]) && e < 2 * Bp(len)
    ensures t[i + len + 2] == 0
  {
    hide Val, Bp, Sig;
    BaseFacts();
    BpSucc(len);
    MulMono(2, BASE, Bp(len));
    var r := t[i + 1..];
    SigBound(r, len + 1);
    SigZero(r, len + 1);
  }

  lemma SigZero(r: seq<Limb>, k: nat)
    requires Sig(r) <= k < |r|
    ensures r[k] == 0
  {}

  lemma RoundKeepsState(t: seq<Limb>, t2: seq<Limb>, a: seq<Limb>, b: nat, n: nat, len: nat, i: nat, u0: Limb, u1: Limb)
    requires MontState(t, a, b, n, len, i) && i < len && |t2| == |t| && t2[..i] == t[..i]
    requires u0 == a[i] && b <= n < Bp(len)
    requires Val(t2[i..]) == Val(t[i..]) + u0 * b + u1 * n && Cong(Val(t2[i..]), 0, BASE)
    ensures i + len + 2 < |t2| && t2[i := u0][i + len + 2 := 0] == t2[i := u0]
    ensures MontState(t2[i := u0], a, b, n, len, i + 1)
  {
    hide Val, Bp, Cong;
    ZeroLowLimb(t2, i);
    var d, e := Val(t[i..]), Val(t2[i + 1..]);
    RoundValue(d, u0, b, u1, n, e);
    ClearedLimb(t2, i, len, e);
    ValStep(a, i);
    BpSucc(i);
    RoundCong(d, u0, b, u1, n, e, Bp(i), Val(a[..i]), Val(a[..i + 1]));
    var t3 := t2[i := u0];
    assert t3[i + 1..] == t2[i + 1..];
    assert t3[..i + 1] == a[..i + 1] by { assert t3[..i] == t2[..i]; }
  }

  /** T += (u0*B + u1*N) * BASE^i. */
  method Accumulate(T: Mpi, B: Mpi, N: Mpi, m: nat, i: nat, u0: Limb, u1: Limb)
    requires T != B && T != N && m <= |B.p| && m <= |N.p| && i < |N.p|
    requires Val(B.p[..m]) == Val(B.p) <= Val(N.p) && 2 * |N.p| + 2 <= |T.p|
    requires Val(T.p[i..]) < Val(N.p) + Val(B.p)
    modifies T`p
    ensures |T.p| == old(|T.p|) && T.p[..i] == old(T.p)[..i]
    ensures Val(T.p[i..]) == old(Val(T.p[i..])) + u0 * Val(B.p) + u1 * Val(N.p)
  {
    hide Val, Bp;
    var n := |N.p|;
    ghost var t, b, v := T.p, Val(B.p), Val(N.p);
    ValBound(N.p);
    assert N.p[..n] == N.p;
    RoundFits(t, Val(t[i..]), u0, b, u1, v, n, i);
    RoundOrder(b, u0, v, u1, Bp(i));
    MulHlp(m, B.p, T, i, u0);
    HighPart(t, T.p, i, b * u0);
    ghost var t1 := T.p;
    MulHlp(n, N.p, T, i, u1);
    HighPart(t1, T.p, i, v * u1);
  }

  lemma MontStateBounds(t: seq<Limb>, a: seq<Limb>, b: nat, n: nat, len: nat, i: nat)
    requires MontState(t, a, b, n, len, i)
    ensures i <= len <= |a| && 2 * len + 2 <= |t| && Val(t[i..]) < n + b
  {}

  /** One round: T := (T + u0*B + u1*N) / BASE, the pointer moving up one limb. */
  method MontRound(T: Mpi, A: Mpi, B: Mpi, N: Mpi, mm: Limb, m: nat, i: nat)
    requires T != A && T != B && T != N && B.p != [] && m <= |B.p|
    requires i < |N.p| && m <= |N.p| && Val(B.p[..m]) == Val(B.p) <= Val(N.p)
    requires IsMontInverse(mm, N.p[0]) && MontState(T.p, A.p, Val(B.p), Val(N.p), |N.p|, i)
    modifies T`p
    ensures |T.p| == old(|T.p|) && MontState(T.p, A.p, Val(B.p), Val(N.p), |N.p|, i + 1)
  {
    hide Val, Bp, Cong, WMul, WAdd, IsMontInverse, MontState;
    ghost var t := T.p;
    MontStateBounds(t, A.p, Val(B.p), Val(N.p), |N.p|, i);
    var u0 := A.p[i];
    var u1 := WMul(WAdd(T.p[i], WMul(u0, B.p[0])), mm);
    VanishAt(t, B.p, N.p, i, u0, u1, mm);
    ValBound(N.p);
    Accumulate(T, B, N, m, i, u0, u1);
    RoundKeepsState(t, T.p, A.p, Val(B.p), Val(N.p), |N.p|, i, u0, u1);
    T.p := T.p[i := u0];
    T.p := T.p[i + |N.p| + 2 := 0];
  }

  lemma RoundOrder(b: nat, u0: Limb, n: nat, u1: Limb, w: nat)
    ensures b * u0 * w == u0 * b * w && n * u1 * w == u1 * n * w && 0 <= u1 * n * w
    ensures b * u0 == u0 * b && n * u1 == u1 * n
  {
    MulNonneg(u1, n);
    MulNonneg(u1 * n, w);
  }

  lemma VanishAt(t: seq<Limb>, b: seq<Limb>, n: seq<Limb>, i: nat, u0: Limb, u1: Limb, mm: Limb)
    requires i < |t| && b != [] && n != [] && IsMontInverse(mm, n[0])
    requires u1 == WMul(WAdd(t[i], WMul(u0, b[0])), mm)
    ensures Cong(Val(t[i..]) + u0 * Val(b) + u1 * Val(n), 0, BASE)
  {
    hide Val, Cong, WMul, WAdd, IsMontInverse;
    CongLowLimb(t, i);
    CongLowLimb(b, 0);
    CongLowLimb(n, 0);
    assert b[0..] == b && n[0..] == n;
    LowLimbVanishes(Val(t[i..]), Val(b), Val(n), t[i], b[0], n[0], u0, u1, mm);
  }

  lemma MontStart(t: seq<Limb>, a: seq<Limb>, b: nat, n: nat, len: nat)
    requires len <= |a| && 2 * len + 2 <= |t| && 0 < n && (forall k :: 0 <= k < |t| ==> t[k] == 0)
    ensures MontState(t, a, b, n, len, 0)
  {
    hide Val, Cong;
    ValZeros(t[0..]);
    assert a[..0] == [];
    ValZeros([]);
    CongRefl(0, n);
  }

  /** Copying the result over A. */
  lemma MontResult(t: seq<Limb>, a: seq<Limb>, b: nat, n: nat, len: nat)
    requires MontState(t, a, b, n, len, len) && b <= n < Bp(len) && Val(a) < Bp(len) && len < |a|
    ensures Val(t[len..2 * len + 1] + a[len + 1..]) == Val(t[len..])
    ensures Val(t[len..]) < 2 * n && Val(t[len..]) <= Val(t)
    ensures Cong(Val(t[len..]) * Bp(len), Val(a) * b, n)
  {
    hide Val, Bp, Cong;
    BaseFacts();
    TopIsZero(a, len);
    BpSucc(len);
    MulMono(2, BASE, Bp(len));
    var h := t[len..];
    TopIsZero(h, len + 1);
    assert h[..len + 1] == t[len..2 * len + 1];
    var r := t[len..2 * len + 1] + a[len + 1..];
    TailZero(a, len, r);
    ValSplit(t, len);
    MulMono(1, Bp(len), Val(h));
  }

  lemma TailZero(a: seq<Limb>, len: nat, r: seq<Limb>)
    requires len < |a| && Val(a) < Bp(len) && len + 1 <= |r| && r[len + 1..] == a[len + 1..]
    ensures Val(r) == Val(r[..len + 1])
  {
    hide Val, Bp;
    SigBound(a, len);
    forall k | len + 1 <= k < |r|
      ensures r[k] == 0
    {
      assert r[k] == r[len + 1..][k - len - 1] == a[len + 1..][k - len - 1];
    }
    ValTop(r, len + 1);
  }

  /** The final comparison: subtract N once, or subtract from T to spend the same time. */
  method MontFinish(A: Mpi, N: Mpi, T: Mpi)
    requires A != N && A != T && N != T && |N.p| < |A.p| && |N.p| <= |T.p|
    requires Val(A.p) < 2 * Val(N.p) && Val(A.p) <= Val(T.p)
    modifies A`p, T`p
    ensures |A.p| == old(|A.p|) && |T.p| == old(|T.p|)
    ensures Val(A.p) < Val(N.p)
    ensures Val(A.p) == old(Val(A.p)) || Val(A.p) == old(Val(A.p)) - Val(N.p)
  {
    hide Val;
    var n := |N.p|;
    assert N.p[..n] == N.p;
    var c := CmpAbs(A, N);
    if c >= 0 {
      SubHlp(n, N.p, A);
    } else {
      ValBound(N.p);
      TopIsZero(A.p, n);
      SubHlp(n, A.p, T);
    }
  }

  method MontRounds(T: Mpi, A: Mpi, B: Mpi, N: Mpi, mm: Limb)
    requires T != A && T != B && T != N && B.p != [] && N.p != [] && |N.p| <= |A.p|
    requires Val(B.p) <= Val(N.p) && 0 < Val(N.p) && IsMontInverse(mm, N.p[0])
    requires 2 * |N.p| + 2 <= |T.p| && (forall k :: 0 <= k < |T.p| ==> T.p[k] == 0)
    modifies T`p
    ensures |T.p| == old(|T.p|) && MontState(T.p, A.p, Val(B.p), Val(N.p), |N.p|, |N.p|)
  {
    hide Val, IsMontInverse, MontState, Bp;
    var n := |N.p|;
    var m := if |B.p| < n then |B.p| else n;
    ValBound(N.p);
    if m == n { TopIsZero(B.p, n); } else { assert B.p[..m] == B.p; }
    MontStart(T.p, A.p, Val(B.p), Val(N.p), n);
    var i: nat := 0;
    while i < n
      invariant i <= n && |T.p| == old(|T.p|)
      invariant MontState(T.p, A.p, Val(B.p), Val(N.p), n, i)
    {
      MontRound(T, A, B, N, mm, m, i);
      i := i + 1;
    }
  }

  /** mpi_montmul: A := A * B / BASE^n mod N, for N of n limbs. */
  method MontMul(A: Mpi, B: Mpi, N: Mpi, mm: Limb, T: Mpi) returns (ret: Status)
    requires A != N && A != T && N != T && B != T
    requires N.p != [] && B.p != [] && |N.p| < |A.p|
    requires |T.p| < |N.p| + 1 || 2 * |N.p| + 2 <= |T.p|
    requires IsMontInverse(mm, N.p[0]) && 0 < Val(N.p)
    requires Val(A.p) < Bp(|N.p|) && Val(B.p) <= Val(N.p)
    modifies A`p, T`p
    ensures ret == if old(|T.p|) < |N.p| + 1 then BadInputData else Success
    ensures ret != Success ==> unchanged(A)
    ensures |A.p| == old(|A.p|) && |T.p| == old(|T.p|)
    ensures ret == Success ==> Val(A.p) < Val(N.p)
    ensures ret == Success ==> Cong(Val(A.p) * Bp(|N.p|), old(Val(A.p)) * old(Val(B.p)), Val(N.p))
  {
    hide Val, Bp, Cong, IsMontInverse, MontState;
    if |T.p| < |N.p| + 1 { return BadInputData; }
    ret := Success;
    ValBound(N.p);
    ghost var a, b, v := A.p, Val(B.p), Val(N.p);
    T.p := Zeros(|T.p|);
    MontRounds(T, A, B, N, mm);
    CopyResult(A, T, |N.p|, b, v);
    ghost var e := Val(A.p);
    MontFinish(A, N, T);
    SubtractedCong(e, Val(A.p), v, Bp(|N.p|), Val(a) * b);
  }

  method CopyResult(A: Mpi, T: Mpi, n: nat, ghost b: nat, ghost v: nat)
    requires A != T && MontState(T.p, A.p, b, v, n, n) && b <= v < Bp(n) && Val(A.p) < Bp(n) && n < |A.p|
    modifies A`p
    ensures |A.p| == old(|A.p|) && Val(A.p) < 2 * v && Val(A.p) <= Val(T.p)
    ensures Cong(Val(A.p) * Bp(n), old(Val(A.p)) * b, v)
  {
    hide Val, Bp, Cong;
    MontResult(T.p, A.p, b, v, n);
    A.p := T.p[n..2 * n + 1] + A.p[n + 1..];
  }

  lemma SubtractedCong(e: nat, r: nat, n: nat, w: nat, x: nat)
    requires Cong(e * w, x, n) && (r == e || r == e - n)
    ensures Cong(r * w, x, n)
  {
    if r == e - n {
      Distr(e, n, w);
      var k: int := w;
      CongIntro(r * w, e * w, n, -k);
      CongTrans(r * w, e * w, x, n);
    }
  }

  /** mpi_montred: A := A / BASE^n mod N. */
  method MontRed(A: Mpi, N: Mpi, mm: Limb, T: Mpi) returns (ret: Status)
    requires A != N && A != T && N != T
    requires N.p != [] && |N.p| < |A.p| && 2 * |N.p| + 2 <= |T.p|
    requires IsMontInverse(mm, N.p[0]) && 0 < Val(N.p) && Val(A.p) < Bp(|N.p|)
    modifies A`p, T`p
    ensures ret == Success
    ensures |A.p| == old(|A.p|) && |T.p| == old(|T.p|)
    ensures Val(A.p) < Val(N.p)
    ensures Cong(Val(A.p) * Bp(|N.p|), old(Val(A.p)), Val(N.p))
  {
    hide Val, Bp, Cong, IsMontInverse;
    BaseFacts();
    var U := new Mpi();
    U.p := [1];
    ValOne(1);
    ret := MontMul(A, U, N, mm, T);
  }
}
