/** Sliding-window modular exponentiation. */
module ExpMod {
  import opened Arith
  import opened Limbs
  import opened Mpi
  import opened Shift
  import opened Mont
  import Div
  import Gcd

  // ---- Montgomery representations ----

  /** Powers of two cancel modulo an odd number. */
  lemma {:induction false} CancelPow2(a: int, b: int, k: nat, n: nat)
    requires n % 2 == 1 && Cong(a * Pow2(k), b * Pow2(k), n)
    ensures Cong(a, b, n)
  {
    if k > 0 {
      var c := (a - b) * Pow2(k - 1);
      Distr(a, b, Pow2(k));
      assert (a - b) * Pow2(k) == 2 * c by { Assoc(a - b, 2, Pow2(k - 1)); }
      Gcd.DividesSelf(n);
      Gcd.HalveDivisor(n, c, n);
      Distr(a, b, Pow2(k - 1));
      CancelPow2(a, b, k - 1, n);
    }
  }

  lemma CancelBase(a: int, b: int, len: nat, n: nat)
    requires n % 2 == 1 && Cong(a * Bp(len), b * Bp(len), n)
    ensures Cong(a, b, n)
  {
    hide Bp, Pow2;
    BpIsPow2(len);
    CancelPow2(a, b, len * biL, n);
  }

  /** v is the Montgomery form of x: x * BASE^len modulo n. */
  ghost predicate IsRep(v: nat, x: int, n: nat, len: nat) {
    v < n && Cong(v, x * Bp(len), n)
  }

  lemma RepProduct(v: nat, a: nat, b: nat, x: int, y: int, n: nat, len: nat)
    requires n % 2 == 1 && IsRep(a, x, n, len) && IsRep(b, y, n, len)
    requires v < n && Cong(v * Bp(len), a * b, n)
    ensures IsRep(v, x * y, n, len)
  {
    hide Cong, Bp;
    var w := Bp(len);
    CongMul(a, x * w, b, y * w, n);
    assert (x * w) * (y * w) == (x * y * w) * w by { Assoc(x * w, y, w); Assoc(x, w, y); Assoc(x * y, w, w); }
    CongTrans(v * w, a * b, (x * y * w) * w, n);
    CancelBase(v, x * y * w, len, n);
  }

  /** M holds the Montgomery form of x, with the limb that mpi_montmul needs. */
  ghost predicate Holds(M: Mpi, x: int, N: Mpi)
    reads M, N
  {
    |N.p| < |M.p| && IsRep(Val(M.p), x, Val(N.p), |N.p|)
  }

  /** The odd modulus with its precomputed limb. */
  ghost predicate Modulus(N: Mpi, mm: Limb)
    reads N
  {
    N.p != [] && Val(N.p) % 2 == 1 && IsMontInverse(mm, N.p[0])
  }

  method MulRep(A: Mpi, B: Mpi, N: Mpi, mm: Limb, T: Mpi, ghost x: int, ghost y: int)
    requires A != N && A != T && N != T && B != T && 2 * |N.p| + 2 <= |T.p|
    requires Modulus(N, mm) && Holds(A, x, N) && Holds(B, y, N)
    modifies A`p, T`p
    ensures Holds(A, x * y, N) && |T.p| == old(|T.p|)
  {
    hide Val, Cong, IsMontInverse, Bp;
    ghost var a, b := Val(A.p), Val(B.p);
    ValBound(N.p);
    var _ := MontMul(A, B, N, mm, T);
    RepProduct(Val(A.p), a, b, x, y, Val(N.p), |N.p|);
  }

  /** Squaring k times. */
  method SquareTimes(X: Mpi, k: nat, N: Mpi, mm: Limb, T: Mpi, ghost a: int, ghost e: nat)
    requires X != N && X != T && N != T && 2 * |N.p| + 2 <= |T.p|
    requires Modulus(N, mm) && Holds(X, IPow(a, e), N)
    modifies X`p, T`p
    ensures Holds(X, IPow(a, e * Pow2(k)), N) && |T.p| == old(|T.p|)
  {
    hide Holds, Modulus, Val, IPow;
    var i: nat := 0;
    while i < k
      invariant i <= k && |T.p| == old(|T.p|)
      invariant Holds(X, IPow(a, e * Pow2(i)), N)
    {
      ghost var f: nat := e * Pow2(i);
      Pow2Succ(i);
      assert e * Pow2(i + 1) == f + f by { Assoc(e, 2, Pow2(i)); }
      IPowAdd(a, f, f);
      MulRep(X, X, N, mm, T, IPow(a, f), IPow(a, f));
      i := i + 1;
    }
  }

  // ---- the bits of the exponent ----

  /** A bit of a limb is a bit of the number. */
  lemma LimbBit(p: seq<Limb>, i: nat, j: nat)
    requires i < |p| && j < biL
    ensures Shr(p[i], j) % 2 == (Val(p) / Pow2(i * biL + j)) % 2
  {
    hide Val, Bp, Pow2;
    var h, x, rest := Val(p) / Bp(i), p[i], Val(p[i + 1..]);
    ValHigh(p, i);
    ValHead(p, i);
    BpIsPow2(i);
    Pow2Add(i * biL, j);
    DivDiv(Val(p), Bp(i), Pow2(j));
    Pow2Add(biL - j, j);
    Pow2Succ(biL - j - 1);
    var m, u := Pow2(j), Pow2(biL - j - 1);
    DivMod(x, m);
    var q := x / m + 2 * (u * rest);
    assert BASE * rest == 2 * (u * rest) * m by { Assoc(2 * u, m, rest); Assoc(2, u, rest); }
    Distr(x / m, 2 * (u * rest), m);
    DivUnique(h, m, q, x % m);
    ParityOfSum(q, x / m, u * rest);
  }

  /** Reading one bit more of the exponent. */
  lemma NextBit(e: nat, k: nat)
    ensures 0 <= e / Pow2(k + 1) && e / Pow2(k) == 2 * (e / Pow2(k + 1)) + (e / Pow2(k)) % 2
  {
    hide Pow2;
    Pow2Succ(k);
    Pow2Add(k, 1);
    assert Pow2(1) == 2 by { Pow2Succ(0); Pow2Zero(); }
    DivDiv(e, Pow2(k), 2);
    DivGe(e, 0, Pow2(k + 1));
  }

  // ---- the window ----

  /** P is the exponent read so far: e1 went into the accumulator, the low nbits are buffered. */
  ghost predicate WindowState(P: nat, e1: nat, low: nat, state: int, nbits: nat, wbits: nat, wsize: nat) {
    nbits < wsize && low < Pow2(nbits) && P == e1 * Pow2(nbits) + low && wbits == low * Pow2(wsize - nbits) &&
    (state == 0 ==> P == 0 && nbits == 0 && e1 == 0) && (state == 1 ==> nbits == 0) &&
    (state == 2 ==> nbits >= 1 && Pow2(nbits - 1) <= low) && state in {0, 1, 2}
  }

  /** One more bit in the window; the bits of `wbits |= ei << (wsize - nbits)` are disjoint. */
  lemma WindowGrows(P: nat, e1: nat, low: nat, state: int, nbits: nat, wbits: nat, wsize: nat, ei: nat)
    requires WindowState(P, e1, low, state, nbits, wbits, wsize) && ei <= 1 && (ei == 1 || state == 2)
    ensures 2 * low + ei < Pow2(nbits + 1) && Pow2(nbits) <= 2 * low + ei
    ensures 2 * P + ei == e1 * Pow2(nbits + 1) + (2 * low + ei)
    ensures wbits + ei * Pow2(wsize - nbits - 1) == (2 * low + ei) * Pow2(wsize - nbits - 1)
  {
    hide Pow2;
    Pow2Succ(nbits);
    Pow2Succ(wsize - nbits - 1);
    Pow2Zero();
    if state == 2 { Pow2Succ(nbits - 1); }
    Assoc(e1, 2, Pow2(nbits));
    Assoc(low, 2, Pow2(wsize - nbits - 1));
    Distr(2 * low, ei, Pow2(wsize - nbits - 1));
  }

  /** The precomputed powers: entry k holds a^k for lo <= k < hi. */
  ghost predicate Table(W: seq<Mpi>, lo: nat, hi: nat, a: int, N: Mpi)
    requires hi <= |W|
    reads N, W
  {
    forall k :: lo <= k < hi ==> Holds(W[k], IPow(a, k), N)
  }

  ghost predicate Outside(M: Mpi, W: seq<Mpi>) {
    forall k :: 0 <= k < |W| ==> W[k] != M
  }

  ghost predicate Unaliased(W: seq<Mpi>) {
    forall i, j :: 0 <= i < j < |W| ==> W[i] != W[j]
  }

  /** A full window: X := X^(2^wsize) * W[wbits]. */
  method FlushWindow(X: Mpi, W: seq<Mpi>, wbits: nat, wsize: nat, N: Mpi, mm: Limb, T: Mpi, ghost a: int, ghost e1: nat)
    requires X != N && X != T && N != T && 2 * |N.p| + 2 <= |T.p| && Outside(X, W) && Outside(T, W)
    requires wsize >= 1 && Pow2(wsize - 1) <= wbits < Pow2(wsize) <= |W|
    requires Modulus(N, mm) && Table(W, Pow2(wsize - 1), Pow2(wsize), a, N) && Holds(X, IPow(a, e1), N)
    modifies X`p, T`p
    ensures Holds(X, IPow(a, e1 * Pow2(wsize) + wbits), N) && |T.p| == old(|T.p|)
  {
    hide Holds, Modulus, Val, IPow, Pow2;
    SquareTimes(X, wsize, N, mm, T, a, e1);
    ghost var f: nat := e1 * Pow2(wsize);
    IPowAdd(a, f, wbits);
    MulRep(X, W[wbits], N, mm, T, IPow(a, f), IPow(a, wbits));
  }

  /** One bit of the exponent through the window automaton. */
  method WindowBit(X: Mpi, W: seq<Mpi>, wsize: nat, N: Mpi, mm: Limb, T: Mpi, ei: nat,
                   state: int, nbits: nat, wbits: nat, ghost a: int, ghost P: nat, ghost e1: nat, ghost low: nat)
    returns (state': int, nbits': nat, wbits': nat, ghost e1': nat, ghost low': nat)
    requires X != N && X != T && N != T && 2 * |N.p| + 2 <= |T.p| && Outside(X, W) && Outside(T, W)
    requires wsize >= 1 && Pow2(wsize) <= |W| && ei <= 1
    requires Modulus(N, mm) && Table(W, Pow2(wsize - 1), Pow2(wsize), a, N)
    requires WindowState(P, e1, low, state, nbits, wbits, wsize) && Holds(X, IPow(a, e1), N)
    modifies X`p, T`p
    ensures |T.p| == old(|T.p|) && Table(W, Pow2(wsize - 1), Pow2(wsize), a, N)
    ensures WindowState(2 * P + ei, e1', low', state', nbits', wbits', wsize) && Holds(X, IPow(a, e1'), N)
  {
    hide Holds, Modulus, Val, IPow, Pow2, Table;
    state', nbits', wbits', e1', low' := state, nbits, wbits, e1, low;
    Pow2Zero();
    if ei == 0 && state == 0 { return; }
    if ei == 0 && state == 1 {
      e1' := SquareOnce(X, N, mm, T, a, e1);
      return;
    }
    state', nbits', wbits', e1', low' := AddToWindow(X, W, wsize, N, mm, T, ei, state, nbits, wbits, a, P, e1, low);
  }

  /** One exponent bit enters the window, which is flushed when it is full. */
  method AddToWindow(X: Mpi, W: seq<Mpi>, wsize: nat, N: Mpi, mm: Limb, T: Mpi, ei: nat,
                     state: int, nbits: nat, wbits: nat, ghost a: int, ghost P: nat, ghost e1: nat, ghost low: nat)
    returns (state': int, nbits': nat, wbits': nat, ghost e1': nat, ghost low': nat)
    requires X != N && X != T && N != T && 2 * |N.p| + 2 <= |T.p| && Outside(X, W) && Outside(T, W)
    requires wsize >= 1 && Pow2(wsize) <= |W| && ei <= 1 && (ei == 1 || state == 2)
    requires Modulus(N, mm) && Table(W, Pow2(wsize - 1), Pow2(wsize), a, N)
    requires WindowState(P, e1, low, state, nbits, wbits, wsize) && Holds(X, IPow(a, e1), N)
    modifies X`p, T`p
    ensures |T.p| == old(|T.p|)
    ensures WindowState(2 * P + ei, e1', low', state', nbits', wbits', wsize) && Holds(X, IPow(a, e1'), N)
  {
    hide Holds, Modulus, Val, IPow, Pow2, Table;
    WindowGrows(P, e1, low, state, nbits, wbits, wsize, ei);
    Pow2Zero();
    state' := 2;
    nbits' := nbits + 1;
    wbits' := wbits + ei * Pow2(wsize - nbits');
    e1', low' := e1, 2 * low + ei;
    if nbits' == wsize {
      assert wbits' == low';
      FlushWindow(X, W, wbits', wsize, N, mm, T, a, e1);
      e1', low' := e1 * Pow2(wsize) + wbits', 0;
      state' := state' - 1;
      nbits', wbits' := 0, 0;
    }
  }

  method SquareOnce(X: Mpi, N: Mpi, mm: Limb, T: Mpi, ghost a: int, ghost e1: nat) returns (ghost e2: nat)
    requires X != N && X != T && N != T && 2 * |N.p| + 2 <= |T.p|
    requires Modulus(N, mm) && Holds(X, IPow(a, e1), N)
    modifies X`p, T`p
    ensures e2 == 2 * e1 && Holds(X, IPow(a, e2), N) && |T.p| == old(|T.p|)
  {
    hide Holds, Modulus, Val, IPow;
    e2 := e1 + e1;
    IPowAdd(a, e1, e1);
    MulRep(X, X, N, mm, T, IPow(a, e1), IPow(a, e1));
  }

  lemma StartOfScan(p: seq<Limb>)
    ensures Val(p) / Pow2(|p| * biL) == 0
  {
    hide Val, Bp, Pow2;
    ValBound(p);
    BpIsPow2(|p|);
    DivUnique(Val(p), Bp(|p|), 0, Val(p));
  }

  lemma EndOfScan(v: nat)
    ensures v / Pow2(0) == v
  {
    Pow2Zero();
    DivUnique(v, 1, v, 0);
  }

  /** The bit at position i*biL + j, read as `(E->p[i] >> j) & 1`. */
  method ReadBit(E: Mpi, i: nat, j: nat, ghost P: nat) returns (ei: nat)
    requires i < |E.p| && j < biL && P == Val(E.p) / Pow2(i * biL + j + 1)
    ensures ei <= 1 && 2 * P + ei == Val(E.p) / Pow2(i * biL + j)
  {
    hide Val, Pow2, Shr;
    LimbBit(E.p, i, j);
    NextBit(Val(E.p), i * biL + j);
    ei := Shr(E.p[i], j) % 2;
  }

  lemma ScanPosition(nblimbs: nat, bufsize: nat)
    ensures nblimbs > 0 ==> (nblimbs - 1) * biL + biL == nblimbs * biL
  {
    Distr(nblimbs, 1, biL);
  }

  /** Reading the exponent from its top limb down. */
  method ScanExponent(X: Mpi, W: seq<Mpi>, wsize: nat, E: Mpi, N: Mpi, mm: Limb, T: Mpi, ghost a: int)
    returns (nbits: nat, wbits: nat, ghost e1: nat, ghost low: nat, ghost state: int)
    requires X != N && X != T && N != T && X != E && T != E
    requires 2 * |N.p| + 2 <= |T.p| && Outside(X, W) && Outside(T, W)
    requires wsize >= 1 && Pow2(wsize) <= |W|
    requires Modulus(N, mm) && Table(W, Pow2(wsize - 1), Pow2(wsize), a, N) && Holds(X, IPow(a, 0), N)
    modifies X`p, T`p
    ensures |T.p| == old(|T.p|)
    ensures WindowState(Val(E.p), e1, low, state, nbits, wbits, wsize) && Holds(X, IPow(a, e1), N)
  {
    hide Holds, Modulus, Val, IPow, Pow2, Table, WindowState;
    var nblimbs: nat, bufsize: nat, st := |E.p|, 0, 0;
    nbits, wbits, e1, low := 0, 0, 0, 0;
    EmptyWindow(wsize);
    StartOfScan(E.p);
    while bufsize != 0 || nblimbs != 0
      invariant nblimbs <= |E.p| && bufsize <= biL && |T.p| == old(|T.p|)
      invariant bufsize > 0 ==> nblimbs < |E.p|
      invariant WindowState(Val(E.p) / Pow2(nblimbs * biL + bufsize), e1, low, st, nbits, wbits, wsize)
      invariant Holds(X, IPow(a, e1), N) && Table(W, Pow2(wsize - 1), Pow2(wsize), a, N)
      decreases nblimbs, bufsize
    {
      ghost var P: nat := Val(E.p) / Pow2(nblimbs * biL + bufsize);
      ScanPosition(nblimbs, bufsize);
      if bufsize == 0 {
        nblimbs := nblimbs - 1;
        bufsize := biL;
      }
      bufsize := bufsize - 1;
      var ei := ReadBit(E, nblimbs, bufsize, P);
      st, nbits, wbits, e1, low := WindowBit(X, W, wsize, N, mm, T, ei, st, nbits, wbits, a, P, e1, low);
    }
    EndOfScan(Val(E.p));
    state := st;
  }

  lemma EmptyWindow(wsize: nat)
    requires wsize >= 1
    ensures WindowState(0, 0, 0, 0, 0, 0, wsize)
  {}

  lemma ShiftedBit(low: nat, k: nat, wsize: nat)
    requires k <= wsize
    ensures (low * Pow2(wsize - k)) / Pow2(wsize) == low / Pow2(k)
  {
    hide Pow2;
    Pow2Add(wsize - k, k);
    Div.DivScale(low, Pow2(k), Pow2(wsize - k));
  }

  lemma LeftoverStep(low: nat, nbits: nat, i: nat, wsize: nat, wbits: nat, e1: nat, f: nat)
    requires i < nbits <= wsize && wbits == low * Pow2(wsize - nbits + i)
    requires f == e1 * Pow2(i) + low / Pow2(nbits - i)
    ensures 2 * wbits == low * Pow2(wsize - nbits + i + 1)
    ensures (2 * wbits) / Pow2(wsize) % 2 == low / Pow2(nbits - i - 1) % 2
    ensures 2 * f + low / Pow2(nbits - i - 1) % 2 == e1 * Pow2(i + 1) + low / Pow2(nbits - i - 1)
  {
    hide Pow2;
    Pow2Succ(wsize - nbits + i);
    Assoc(low, 2, Pow2(wsize - nbits + i));
    ShiftedBit(low, nbits - i - 1, wsize);
    NextBit(low, nbits - i - 1);
    Pow2Succ(i);
    Assoc(e1, 2, Pow2(i));
  }

  /** The bits left in an open window: one multiplication by W[1] for each that is set. */
  method LeftoverBits(X: Mpi, W1: Mpi, wsize: nat, nbits: nat, wbits0: nat, N: Mpi, mm: Limb, T: Mpi,
                      ghost a: int, ghost e1: nat, ghost low: nat)
    requires X != N && X != T && N != T && X != W1 && T != W1 && 2 * |N.p| + 2 <= |T.p|
    requires nbits <= wsize && low < Pow2(nbits) && wbits0 == low * Pow2(wsize - nbits)
    requires Modulus(N, mm) && Holds(W1, IPow(a, 1), N) && Holds(X, IPow(a, e1), N)
    modifies X`p, T`p
    ensures |T.p| == old(|T.p|) && Holds(X, IPow(a, e1 * Pow2(nbits) + low), N)
  {
    hide Holds, Modulus, Val, IPow, Pow2;
    var wbits := wbits0;
    ghost var f: nat := e1;
    Pow2Zero();
    DivUnique(low, Pow2(nbits), 0, low);
    var i: nat := 0;
    while i < nbits
      invariant i <= nbits && |T.p| == old(|T.p|) && wbits == low * Pow2(wsize - nbits + i)
      invariant f == e1 * Pow2(i) + low / Pow2(nbits - i)
      invariant Holds(X, IPow(a, f), N)
    {
      LeftoverStep(low, nbits, i, wsize, wbits, e1, f);
      f := SquareOnce(X, N, mm, T, a, f);
      wbits := 2 * wbits;
      if (wbits / Pow2(wsize)) % 2 != 0 {
        IPowAdd(a, f, 1);
        MulRep(X, W1, N, mm, T, IPow(a, f), IPow(a, 1));
        f := f + 1;
      }
      i := i + 1;
    }
    EndOfScan(low);
  }

  // ---- the table of powers ----

  const WINDOW_SIZE: nat := 6

  function WindowBits(i: nat): (w: nat)
    ensures w in {1, 3, 4, 5, 6}
  {
    var w := if i > 671 then 6 else if i > 239 then 5 else if i > 79 then 4 else if i > 23 then 3 else 1;
    if w > WINDOW_SIZE then WINDOW_SIZE else w
  }

  method NewTable(n: nat) returns (W: seq<Mpi>)
    ensures |W| == n && Unaliased(W) && fresh(set k | 0 <= k < |W| :: W[k])
    ensures forall k :: 0 <= k < |W| ==> fresh(W[k])
  {
    W := [];
    while |W| < n
      invariant |W| <= n && Unaliased(W)
      invariant forall k :: 0 <= k < |W| ==> fresh(W[k])
    {
      var M := new Mpi();
      W := W + [M];
    }
  }

  /** A copy with room for a Montgomery product. */
  method CopyRep(Y: Mpi, M: Mpi, N: Mpi, ghost x: int)
    requires Y != M && Y != N && N.p != [] && Holds(M, x, N)
    modifies Y
    ensures Holds(Y, x, N)
  {
    hide Val, IsRep;
    Grow(Y, |N.p| + 1);
    Copy(Y, M);
  }

  /** W[i] := W[i - 1] * W[1]. */
  method NextPower(W: seq<Mpi>, i: nat, j: nat, N: Mpi, mm: Limb, T: Mpi, ghost a: int)
    requires Unaliased(W) && Outside(N, W) && Outside(T, W) && N != T && 2 * |N.p| + 2 <= |T.p|
    requires 1 < j < i < |W| && Modulus(N, mm) && Table(W, j, i, a, N) && Holds(W[1], IPow(a, 1), N)
    modifies W[i], T`p
    ensures Table(W, j, i + 1, a, N) && Holds(W[1], IPow(a, 1), N) && |T.p| == old(|T.p|)
  {
    hide Holds, Val, IPow;
    CopyRep(W[i], W[i - 1], N, IPow(a, i - 1));
    IPowAdd(a, i - 1, 1);
    MulRep(W[i], W[1], N, mm, T, IPow(a, i - 1), IPow(a, 1));
    assert forall k :: 0 <= k < |W| && k != i ==> W[k] != W[i];
  }

  /** W[j] := W[1]^j for j a power of two, by repeated squaring. */
  method FirstPower(W: seq<Mpi>, j: nat, wsize: nat, N: Mpi, mm: Limb, T: Mpi, ghost a: int)
    requires Outside(N, W) && Outside(T, W) && N != T && 2 * |N.p| + 2 <= |T.p|
    requires wsize >= 1 && 1 < j < |W| && j == Pow2(wsize - 1) && W[j] != W[1]
    requires Modulus(N, mm) && Holds(W[1], IPow(a, 1), N)
    modifies W[j], T`p
    ensures Table(W, j, j + 1, a, N) && Holds(W[1], IPow(a, 1), N) && |T.p| == old(|T.p|)
  {
    hide Holds, Val, IPow, Pow2;
    CopyRep(W[j], W[1], N, IPow(a, 1));
    SquareTimes(W[j], wsize - 1, N, mm, T, a, 1);
    assert 1 * Pow2(wsize - 1) == j;
  }

  method BuildTable(W: seq<Mpi>, wsize: nat, N: Mpi, mm: Limb, T: Mpi, ghost a: int)
    requires Unaliased(W) && Outside(N, W) && Outside(T, W) && N != T && 2 * |N.p| + 2 <= |T.p|
    requires 1 <= wsize && Pow2(wsize) <= |W| && Modulus(N, mm) && Holds(W[1], IPow(a, 1), N)
    modifies W, T`p
    ensures Table(W, Pow2(wsize - 1), Pow2(wsize), a, N) && Holds(W[1], IPow(a, 1), N)
    ensures |T.p| == old(|T.p|)
  {
    hide Holds, Val, IPow, Pow2, Modulus, Table;
    Pow2Succ(wsize - 1);
    Pow2Zero();
    if wsize > 1 {
      Pow2Succ(wsize - 2);
      var j := Pow2(wsize - 1);
      FirstPower(W, j, wsize, N, mm, T, a);
      var i := j + 1;
      while i < Pow2(wsize)
        invariant j + 1 <= i <= Pow2(wsize) && |T.p| == old(|T.p|)
        invariant Table(W, j, i, a, N) && Holds(W[1], IPow(a, 1), N)
      {
        NextPower(W, i, j, N, mm, T, a);
        i := i + 1;
      }
    } else {
      OneEntry(W, a, N);
    }
  }

  lemma OneEntry(W: seq<Mpi>, a: int, N: Mpi)
    requires |W| >= 2 && Holds(W[1], IPow(a, 1), N)
    ensures Table(W, 1, 2, a, N)
  {}

  // ---- the whole function ----

  /** R^2 mod N, the constant that a caller may keep between calls. */
  ghost predicate IsRSquared(v: int, n: int, len: nat) {
    n > 0 ==> v == Bp(2 * len) % n
  }

  method PrepareRR(N: Mpi, Kept: Mpi?) returns (RR: Mpi)
    requires Kept != N && N.p != [] && N.Value() > 0
    requires Kept != null && Kept.p != [] ==> IsRSquared(Kept.Value(), N.Value(), |N.p|)
    modifies if Kept == null then {} else {Kept}
    ensures fresh(RR) && RR.p != [] && RR.Value() == Bp(2 * |N.p|) % N.Value()
    ensures Kept != null ==> Kept.p != [] && IsRSquared(Kept.Value(), N.Value(), |N.p|)
  {
    hide Val, Bp, Pow2;
    BaseFacts();
    RR := new Mpi();
    if Kept == null || Kept.p == [] {
      Lset(RR, 1);
      BpIsPow2(2 * |N.p|);
      MulNonneg(|N.p|, 2 * biL);
      Assoc(|N.p|, 2, biL);
      ShiftL(RR, |N.p| * 2 * biL);
      var _ := Div.ModMpi(RR, RR, N);
      if Kept != null { Kept.s, Kept.p := RR.s, RR.p; }
    } else {
      RR.s, RR.p := Kept.s, Kept.p;
    }
  }

  lemma RSquaredCong(v: nat, n: nat, len: nat)
    requires 0 < n && v == Bp(2 * len) % n
    ensures v < n && Cong(v, Bp(len) * Bp(len), n)
  {
    hide Bp;
    CongMod(Bp(2 * len), n);
    BpAdd(len, len);
    DivMod(Bp(2 * len), n);
  }

  lemma RepFromRR(v: nat, r: nat, a: nat, rr: nat, n: nat, len: nat)
    requires n % 2 == 1 && v < n && Cong(v * Bp(len), r * rr, n)
    requires Cong(r, a, n) && Cong(rr, Bp(len) * Bp(len), n)
    ensures IsRep(v, a, n, len)
  {
    hide Bp, Cong;
    var w := Bp(len);
    CongMul(r, a, rr, w * w, n);
    CongTrans(v * w, r * rr, a * (w * w), n);
    Assoc(a, w, w);
    CancelBase(v, a * w, len, n);
  }

  /** W[1] := A * R mod N. */
  method FirstRep(W1: Mpi, A: Mpi, RR: Mpi, N: Mpi, mm: Limb, T: Mpi)
    requires W1 !in {A, RR, N, T} && T !in {A, RR, N}
    requires A.p != [] && RR.p != [] && A.Value() >= 0 && Val(A.p) == A.Value()
    requires |N.p| < |W1.p| && 2 * |N.p| + 2 <= |T.p| && Modulus(N, mm) && N.Value() > 0
    requires RR.Value() == Bp(2 * |N.p|) % N.Value()
    modifies W1, T`p
    ensures Holds(W1, Val(A.p), N) && |T.p| == old(|T.p|)
  {
    hide Val, Bp, Cong, IsMontInverse;
    ghost var a, n := Val(A.p), N.Value();
    DivMod(Bp(2 * |N.p|), n);
    RSquaredCong(Val(RR.p), n, |N.p|);
    ResidueOf(W1, A, N);
    ghost var r := Val(W1.p);
    ValBound(N.p);
    var _ := MontMul(W1, RR, N, mm, T);
    RepFromRR(Val(W1.p), r, a, Val(RR.p), n, |N.p|);
  }

  /** A itself, or its residue when it is not below N. */
  method ResidueOf(W1: Mpi, A: Mpi, N: Mpi)
    requires W1 != A && W1 != N && A.p != [] && A.Value() >= 0 && Val(A.p) == A.Value() && N.Value() > 0
    modifies W1
    ensures |W1.p| >= old(|W1.p|) && Val(W1.p) < N.Value() && Cong(Val(W1.p), Val(A.p), N.Value())
  {
    hide Val, Cong;
    ghost var a, n := A.Value(), N.Value();
    CongMod(a, n);
    DivMod(a, n);
    CongRefl(a, n);
    var c := CmpMpi(A, N);
    if c >= 0 {
      var _ := Div.ModMpi(W1, A, N);
    } else {
      Copy(W1, A);
    }
  }

  /** X := R mod N, the Montgomery form of 1. */
  method OneRep(X: Mpi, RR: Mpi, N: Mpi, mm: Limb, T: Mpi)
    requires X !in {RR, N, T} && T !in {RR, N}
    requires RR.p != [] && |N.p| < |X.p| && 2 * |N.p| + 2 <= |T.p| && Modulus(N, mm) && N.Value() > 0
    requires RR.Value() == Bp(2 * |N.p|) % N.Value()
    modifies X, T`p
    ensures Holds(X, 1, N) && |T.p| == old(|T.p|) && X.s == RR.s
  {
    hide Val, Bp, Cong, IsMontInverse;
    ghost var n := N.Value();
    DivMod(Bp(2 * |N.p|), n);
    RSquaredCong(Val(RR.p), n, |N.p|);
    Copy(X, RR);
    ghost var r := Val(X.p);
    ValBound(N.p);
    var _ := MontRed(X, N, mm, T);
    CongRefl(1, n);
    RepFromRR(Val(X.p), 1, 1, r, n, |N.p|);
  }

  /** The loop over the exponent and the way back from Montgomery form. */
  method Power(X: Mpi, W: seq<Mpi>, wsize: nat, E: Mpi, RR: Mpi, N: Mpi, mm: Limb, T: Mpi, ghost a: nat)
    requires X !in {RR, N, T, E} && T !in {RR, N, E} && Outside(X, W) && Outside(T, W) && Outside(N, W)
    requires Outside(E, W) && Outside(RR, W) && Unaliased(W) && 1 <= wsize && Pow2(wsize) <= |W|
    requires RR.p != [] && |N.p| < |X.p| && 2 * |N.p| + 2 <= |T.p| && Modulus(N, mm) && N.Value() > 0
    requires RR.Value() == Bp(2 * |N.p|) % N.Value() && Holds(W[1], a, N)
    modifies X, W, T`p
    ensures X.p != [] && Val(X.p) == IPow(a, Val(E.p)) % N.Value() && X.s == RR.s
  {
    hide Val, Bp, IPow, Holds, Modulus, Table, WindowState, Pow2;
    Pow2Succ(wsize - 1);
    OneRep(X, RR, N, mm, T);
    PowerOne(a);
    BuildTable(W, wsize, N, mm, T, a);
    var nbits, wbits;
    ghost var e1, low, st;
    nbits, wbits, e1, low, st := ScanExponent(X, W, wsize, E, N, mm, T, a);
    WindowLeftover(Val(E.p), e1, low, st, nbits, wbits, wsize);
    LeftoverBits(X, W[1], wsize, nbits, wbits, N, mm, T, a, e1, low);
    FromRep(X, N, mm, T, IPow(a, Val(E.p)));
  }

  lemma PowerOne(a: int)
    ensures IPow(a, 0) == 1 && IPow(a, 1) == a
  {
    assert IPow(a, 1) == a * IPow(a, 0);
  }

  lemma WindowLeftover(P: nat, e1: nat, low: nat, state: int, nbits: nat, wbits: nat, wsize: nat)
    requires WindowState(P, e1, low, state, nbits, wbits, wsize)
    ensures nbits <= wsize && low < Pow2(nbits) && wbits == low * Pow2(wsize - nbits)
    ensures P == e1 * Pow2(nbits) + low
  {}

  method FromRep(X: Mpi, N: Mpi, mm: Limb, T: Mpi, ghost x: int)
    requires X != N && X != T && N != T && 2 * |N.p| + 2 <= |T.p| && N.Value() > 0
    requires Modulus(N, mm) && Holds(X, x, N)
    modifies X`p, T`p
    ensures X.p != [] && Val(X.p) == x % N.Value()
  {
    hide Val, Bp, Cong, IsMontInverse;
    ghost var v, n := Val(X.p), N.Value();
    ValBound(N.p);
    var _ := MontRed(X, N, mm, T);
    CongTrans(Val(X.p) * Bp(|N.p|), v, x * Bp(|N.p|), n);
    CancelBase(Val(X.p), x, |N.p|, n);
    CongUnique(Val(X.p), x, n);
  }

  /** What the code returns: for a base with sign -1 it subtracts from N whatever E is. */
  function ExpResult(s: Sign, a: nat, e: nat, n: nat): int
    requires 0 < n
  {
    var r := IPow(a, e) % n;
    if s == 1 then r else n - r
  }

  lemma WindowRoom(w: nat)
    requires w in {1, 3, 4, 5, 6}
    ensures 2 <= Pow2(w) <= 128
  {
    Pow2Mono(1, w);
    Pow2Mono(w, 6);
    assert Pow2(1) == 2 && Pow2(6) == 64 by { Pow2Add(3, 3); assert Pow2(3) == 8; }
  }

  lemma OddModulus(p: seq<Limb>)
    requires p != []
    ensures p[0] % 2 == Val(p) % 2
  {
    ValParity(p);
  }

  /** R^2 mod N is 0 only for N = 1. */
  lemma RSquaredSign(s: Sign, v: nat, n: nat, len: nat)
    requires n % 2 == 1 && Signed(s, v) == Bp(2 * len) % n
    ensures s == 1 || (v == 0 && n == 1)
  {
    hide Bp, Pow2;
    DivMod(Bp(2 * len), n);
    if s != 1 {
      BpIsPow2(2 * len);
      CongMod(Bp(2 * len), n);
      CancelPow2(1, 0, 2 * len * biL, n);
      var k := CongElim(1, 0, n);
      if k <= 0 { MulMono(k, 0, n); }
      MulMono(1, k, n);
    }
  }

  /** The power of |A|, for an odd positive modulus. */
  method PowerMod(X: Mpi, A: Mpi, E: Mpi, N: Mpi, Kept: Mpi?)
    requires N.p != [] && A.p != [] && X != N && X != E
    requires Kept != null ==> Kept !in {X, A, E, N}
    requires Kept != null && Kept.p != [] ==> IsRSquared(Kept.Value(), N.Value(), |N.p|)
    requires N.Value() > 0 && N.p[0] % 2 == 1
    modifies X, if Kept == null then {} else {Kept}
    ensures X.p != [] && X.Value() == Val(X.p) == IPow(old(Val(A.p)), Val(E.p)) % N.Value()
    ensures Kept != null ==> Kept.p != [] && IsRSquared(Kept.Value(), N.Value(), |N.p|)
  {
    hide Val, Bp, IPow, Pow2, IsMontInverse, IsRSquared, Holds, IsBitLen;
    ghost var a := Val(A.p);
    OddModulus(N.p);
    var mm := MontgInit(N);
    var i := Bitlen(E);
    var wsize := WindowBits(i);
    WindowRoom(wsize);
    Grow(X, |N.p| + 1);
    var W, T, A' := Temporaries(A, |N.p|);
    var RR := PrepareRR(N, Kept);
    FirstRep(W[1], A', RR, N, mm, T);
    Power(X, W, wsize, E, RR, N, mm, T, a);
    RSquaredSign(RR.s, Val(RR.p), N.Value(), |N.p|);
    DivMod(IPow(a, Val(E.p)), N.Value());
  }

  /** T, the table with a grown W[1], and a nonnegative copy of A where A is negative. */
  method Temporaries(A: Mpi, n: nat) returns (W: seq<Mpi>, T: Mpi, A': Mpi)
    requires A.p != []
    ensures |W| == 2 * Pow2(WINDOW_SIZE) == 128 && Unaliased(W) && (forall k :: 0 <= k < |W| ==> fresh(W[k]))
    ensures fresh(T) && Outside(T, W) && 2 * n + 2 <= |T.p| && n < |W[1].p|
    ensures (A' == A || fresh(A')) && A' != T && Outside(A', W)
    ensures A'.p != [] && A'.s == 1 && Val(A'.p) == Val(A.p)
  {
    hide Val;
    WindowRoom(6);
    assert Pow2(6) == 64 by { Pow2Add(3, 3); assert Pow2(3) == 8; }
    W := NewTable(2 * Pow2(WINDOW_SIZE));
    T := new Mpi();
    Grow(W[1], n + 1);
    Grow(T, 2 * (n + 1));
    A' := A;
    if A.s == -1 {
      A' := new Mpi();
      Copy(A', A);
      A'.s := 1;
    }
  }

  /** mbedtls_mpi_exp_mod. */
  method ExpModMpi(X: Mpi, A: Mpi, E: Mpi, N: Mpi, Kept: Mpi?) returns (ret: Status)
    requires N.p != [] && A.p != [] && X != N && X != E
    requires Kept != null ==> Kept !in {X, A, E, N}
    requires Kept != null && Kept.p != [] ==> IsRSquared(Kept.Value(), N.Value(), |N.p|)
    modifies X, if Kept == null then {} else {Kept}
    ensures ret == if N.Value() < 0 || N.Value() % 2 == 0 || E.Value() < 0 then BadInputData else Success
    ensures ret == Success ==> N.Value() > 0
    ensures ret == Success ==> X.Value() == ExpResult(old(A.s), old(Val(A.p)), E.Value(), N.Value())
    ensures ret == Success && old(A.s) == 1 ==> X.Value() == IPow(old(A.Value()), E.Value()) % N.Value()
    ensures ret == Success && Kept != null ==> Kept.p != [] && IsRSquared(Kept.Value(), N.Value(), |N.p|)
    ensures ret != Success ==> unchanged(X)
  {
    hide Val, Bp, IPow, Pow2, IsMontInverse;
    OddModulus(N.p);
    var c := CmpInt(N, 0);
    if c < 0 || N.p[0] % 2 == 0 { return BadInputData; }
    c := CmpInt(E, 0);
    if c < 0 { return BadInputData; }
    ret := Success;
    ghost var a, e := Val(A.p), Val(E.p);
    var neg := A.s == -1;
    PowerMod(X, A, E, N, Kept);
    if neg {
      X.s := -1;
      AddMpi(X, N, X);
    }
  }

  // ---- when the result is the power ----

  lemma {:induction false} PowNegate(a: int, e: nat)
    ensures IPow(-a, e) == if e % 2 == 0 then IPow(a, e) else -IPow(a, e)
  {
    if e > 0 {
      PowNegate(a, e - 1);
      SignedPower(a, IPow(a, e - 1));
    }
  }

  lemma SignedPower(a: int, b: int)
    ensures (-a) * b == -(a * b) && (-a) * (-b) == a * b
  {}

  /**
   * For a negative base -a the code is right exactly when E is odd and N does not divide the power:
   * an even E gives N - r instead of r, and a power divisible by N gives N instead of 0.
   */
  lemma ExpResultNegative(a: int, e: nat, n: nat)
    requires a >= 0 && n % 2 == 1
    ensures ExpResult(-1, a, e, n) == IPow(-a, e) % n <==> e % 2 == 1 && IPow(a, e) % n != 0
  {
    hide IPow;
    PowNegate(a, e);
    var p := IPow(a, e);
    DivMod(p, n);
    if e % 2 == 1 {
      Distr(-(p / n), 1, n);
      assert (-(p / n)) * n == -((p / n) * n);
      if p % n == 0 { DivUnique(-p, n, -(p / n), 0); }
      else { DivUnique(-p, n, -(p / n) - 1, n - p % n); }
    }
  }

  /** For a negative base coprime to N > 1 the code is right exactly when E is odd. */
  lemma ExpResultCoprime(a: int, e: nat, n: nat)
    requires a >= 0 && n > 1 && n % 2 == 1 && IsGcd(1, a, n)
    ensures ExpResult(-1, a, e, n) == IPow(-a, e) % n <==> e % 2 == 1
  {
    hide IPow, IsGcd, ExpResult;
    ExpResultNegative(a, e, n);
    PowerCoprime(a, e, n);
  }

  lemma {:induction false} PowerCoprime(a: nat, e: nat, n: nat)
    requires n > 1 && IsGcd(1, a, n)
    ensures IPow(a, e) % n != 0
  {
    if e == 0 {
      DivUnique(1, n, 0, 1);
    } else {
      hide IsGcd;
      PowerCoprime(a, e - 1, n);
      CancelFactor(a, IPow(a, e - 1), n);
    }
  }

  /** A factor coprime to n cannot make a product divisible by n. */
  lemma CancelFactor(a: nat, p: int, n: nat)
    requires n > 1 && IsGcd(1, a, n) && p % n != 0
    ensures (a * p) % n != 0
  {
    hide IsGcd;
    var g, x, y := Gcd.Bezout(a, n);
    GcdUnique(1, g, a, n);
    if (a * p) % n == 0 {
      var k := (a * p) / n;
      DivMod(a * p, n);
      assert p == (x * k + y * p) * n by {
        Distr(x * a, y * n, p);
        Assoc(x, a, p);
        Assoc(x, k, n);
        Assoc(y, n, p);
        Distr(x * k, y * p, n);
      }
      DivUnique(p, n, x * k + y * p, 0);
    }
  }

  /** A concrete failure: (-2)^2 mod 7 is 4, the code answers 3. */
  lemma NegativeBaseFails()
    ensures ExpResult(-1, 2, 2, 7) == 3 && IPow(-2, 2) % 7 == 4
  {
    assert IPow(2, 2) == 4 by { PowerOne(2); assert IPow(2, 2) == 2 * IPow(2, 1); }
    assert IPow(-2, 2) == 4 by { PowerOne(-2); assert IPow(-2, 2) == -2 * IPow(-2, 1); }
  }
}
