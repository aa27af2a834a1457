/** Signed big integers: allocation, copying, comparison, addition, subtraction, multiplication. */
module Mpi {
  import opened Arith
  import opened Limbs

  type Sign = s: int | s == 1 || s == -1 witness 1

  function Neg(s: Sign): Sign { if s == 1 then -1 else 1 }

  function Signed(s: Sign, v: int): int { if s == 1 then v else -v }

  /** mbedtls_mpi: a sign and a growable row of limbs, which may hold leading zeros. */
  class Mpi {
    var s: Sign
    var p: seq<Limb>

    constructor ()
      ensures s == 1 && p == []
    {
      s, p := 1, [];
    }

    ghost function Value(): int
      reads this
    {
      Signed(s, Val(p))
    }
  }

  /** Number of limbs below the leading zeros: the scan that opens most functions. */
  method SigLimbs(q: seq<Limb>) returns (n: nat)
    ensures n == Sig(q)
  {
    n := |q|;
    while n > 0 && q[n - 1] == 0
      invariant Sig(q) <= n <= |q|
    {
      n := n - 1;
    }
  }

  method Grow(X: Mpi, nblimbs: nat)
    modifies X`p
    ensures X.p == old(X.p) + Zeros(Max(0, nblimbs - old(|X.p|)))
    ensures |X.p| == Max(old(|X.p|), nblimbs)
    ensures Val(X.p) == old(Val(X.p))
  {
    ValAppendZeros(X.p, Max(0, nblimbs - |X.p|));
    X.p := X.p + Zeros(Max(0, nblimbs - |X.p|));
  }

  /** The number of limbs `Copy` moves. */
  function CopyLimbs(q: seq<Limb>): (n: nat)
    ensures q != [] ==> 1 <= n <= |q|
  {
    Max(1, Sig(q))
  }

  lemma CopyValue(q: seq<Limb>, n: nat)
    requires q != []
    ensures Val(q[..CopyLimbs(q)] + Zeros(n)) == Val(q)
  {
    ValTop(q, CopyLimbs(q));
    ValAppendZeros(q[..CopyLimbs(q)], n);
  }

  method Copy(X: Mpi, Y: Mpi)
    modifies X
    ensures Val(X.p) == old(Val(Y.p)) && X.Value() == old(Y.Value())
    ensures X.s == if X != Y && old(Y.p) == [] then 1 else old(Y.s)
    ensures |X.p| == if X == Y then old(|X.p|) else if old(Y.p) == [] then 0
                     else Max(old(|X.p|), CopyLimbs(old(Y.p)))
  {
    if X == Y { return; }
    if Y.p == [] {
      X.s, X.p := 1, [];
      return;
    }
    var i := SigLimbs(Y.p);
    if i == 0 { i := 1; }
    X.s := Y.s;
    Grow(X, i);
    CopyValue(Y.p, |X.p| - i);
    X.p := Y.p[..i] + Zeros(|X.p| - i);
  }

  method Lset(X: Mpi, z: int)
    requires -BASE < z < BASE
    modifies X
    ensures X.Value() == z && Val(X.p) == Abs(z)
    ensures X.s == if z < 0 then -1 else 1
    ensures X.p == [Abs(z)] + Zeros(Max(old(|X.p|), 1) - 1)
    ensures |X.p| == Max(old(|X.p|), 1)
  {
    Grow(X, 1);
    ValAppendZeros([Abs(z)], |X.p| - 1);
    ValOne(Abs(z));
    X.p := [Abs(z)] + Zeros(|X.p| - 1);
    X.s := if z < 0 then -1 else 1;
  }

  // ---- comparison ----

  function SignOf(x: int): int { if x < 0 then -1 else if x > 0 then 1 else 0 }

  /** Rows of one length that differ first, from the top, at limb i. */
  lemma CmpAt(x: seq<Limb>, y: seq<Limb>, i: nat)
    requires i < |x| && i < |y|
    requires Val(x[i + 1..]) == Val(y[i + 1..])
    ensures x[i] > y[i] ==> Val(x) > Val(y)
    ensures x[i] == y[i] ==> Val(x[i..]) == Val(y[i..])
  {
    ValHead(x, i);
    ValHead(y, i);
    if x[i] > y[i] {
      CmpHigh(x, y, i);
    }
  }

  lemma CmpHigh(x: seq<Limb>, y: seq<Limb>, i: nat)
    requires i <= |x| && i <= |y| && Val(x[i..]) > Val(y[i..])
    ensures Val(x) > Val(y)
  {
    hide Val, Bp;
    ValSplit(x, i);
    ValSplit(y, i);
    ValBound(y[..i]);
    var h, l := Val(x[i..]), Val(y[i..]);
    MulLess(l, h, Bp(i));
    assert Bp(i) * h >= Bp(i) * l + Bp(i);
  }

  lemma CmpSig(x: seq<Limb>, y: seq<Limb>)
    requires Sig(x) > Sig(y)
    ensures Val(x) > Val(y)
  {
    hide Val, Sig, Bp;
    ValSig(x);
    ValSig(y);
    BpMono(Sig(y), Sig(x) - 1);
  }

  /** The downward scan shared by both comparisons. */
  method CmpLimbs(x: seq<Limb>, y: seq<Limb>, n: nat) returns (r: int)
    requires n <= |x| && n <= |y|
    requires Val(x[n..]) == Val(y[n..])
    ensures r == SignOf(Val(x) - Val(y))
  {
    hide Val;
    var i: nat := n;
    while i > 0
      invariant i <= n && Val(x[i..]) == Val(y[i..])
    {
      CmpAt(x, y, i - 1);
      CmpAt(y, x, i - 1);
      if x[i - 1] > y[i - 1] { return 1; }
      if x[i - 1] < y[i - 1] { return -1; }
      i := i - 1;
    }
    assert x[0..] == x && y[0..] == y;
    return 0;
  }

  lemma TopsAgree(x: seq<Limb>, y: seq<Limb>, n: nat)
    requires Sig(x) == n == Sig(y)
    ensures Val(x[n..]) == 0 == Val(y[n..])
  {
    ValZeros(x[n..]);
    ValZeros(y[n..]);
  }

  method CmpAbs(X: Mpi, Y: Mpi) returns (r: int)
    ensures r == SignOf(Val(X.p) - Val(Y.p))
  {
    hide Val, Sig;
    var i := SigLimbs(X.p);
    var j := SigLimbs(Y.p);
    if i == 0 && j == 0 {
      ValSig(X.p);
      ValSig(Y.p);
      return 0;
    }
    if i > j { CmpSig(X.p, Y.p); return 1; }
    if j > i { CmpSig(Y.p, X.p); return -1; }
    TopsAgree(X.p, Y.p, i);
    r := CmpLimbs(X.p, Y.p, i);
  }

  method CmpMpi(X: Mpi, Y: Mpi) returns (r: int)
    ensures r == SignOf(X.Value() - Y.Value())
  {
    hide Val, Sig;
    var i := SigLimbs(X.p);
    var j := SigLimbs(Y.p);
    if i == 0 && j == 0 {
      ValSig(X.p);
      ValSig(Y.p);
      return 0;
    }
    if i > j { CmpSig(X.p, Y.p); return X.s; }
    if j > i { CmpSig(Y.p, X.p); return Neg(Y.s); }
    ValSig(X.p);
    if X.s > 0 && Y.s < 0 { return 1; }
    if Y.s > 0 && X.s < 0 { return -1; }
    TopsAgree(X.p, Y.p, i);
    r := CmpLimbs(X.p, Y.p, i);
    r := if r > 0 then X.s else if r < 0 then Neg(X.s) else 0;
  }

  method CmpInt(X: Mpi, z: int) returns (r: int)
    requires -BASE < z < BASE
    ensures r == SignOf(X.Value() - z)
  {
    var Y := new Mpi();
    Y.s := if z < 0 then -1 else 1;
    Y.p := [Abs(z)];
    ValOne(Abs(z));
    r := CmpMpi(X, Y);
  }

  // ---- addition ----

  /** Writing digit i so that cin + t enters at weight i and cout leaves at weight i+1. */
  lemma PutDigit(p: seq<Limb>, i: nat, v: Limb, cin: int, t: int, cout: int)
    requires i < |p| && v + cout * BASE == p[i] + cin + t
    ensures Val(p[i := v]) + cout * Bp(i + 1) == Val(p) + cin * Bp(i) + t * Bp(i)
  {
    hide Val, Bp;
    ValUpdate(p, i, v);
    BpSucc(i);
    Assoc(cout, BASE, Bp(i));
    var d := v - p[i];
    assert d + cout * BASE == cin + t;
    Distr(d, cout * BASE, Bp(i));
    Distr(cin, t, Bp(i));
  }

  /** The same for a digit that borrows. */
  lemma PutBorrow(p: seq<Limb>, i: nat, v: Limb, cin: int, t: int, cout: int)
    requires i < |p| && v - cout * BASE == p[i] - cin - t
    ensures Val(p[i := v]) - cout * Bp(i + 1) == Val(p) - cin * Bp(i) - t * Bp(i)
  {
    hide Val, Bp;
    PutDigit(p, i, v, -cin, -t, -cout);
  }

  method AddLimb(v: Limb, c: Limb) returns (w: Limb, cout: Limb)
    ensures w + cout * BASE == v + c && cout <= 1
    ensures c <= 1 && v == 0 ==> cout == 0
  {
    w := Wrap(v + c);
    cout := if w < c then 1 else 0;
  }

  /** Adds the carry and then the other digit; each addition carries when its wrapped sum is below what was added. */
  method AddDigit(v: Limb, c: Limb, t: Limb) returns (w: Limb, cout: Limb)
    requires c <= 1
    ensures w + cout * BASE == v + c + t && cout <= 1
  {
    var x, c1 := AddLimb(v, c);
    var c2;
    w, c2 := AddLimb(x, t);
    cout := c1 + c2;
  }

  /** Rippling the last carry, growing X when it leaves the top limb. */
  method AddCarry(X: Mpi, i0: nat, c0: Limb)
    requires i0 <= |X.p| && c0 <= 1
    modifies X`p
    ensures Val(X.p) == old(Val(X.p)) + c0 * Bp(i0)
    ensures |X.p| >= old(|X.p|)
  {
    hide Val, Bp;
    var i: nat, c: Limb := i0, c0;
    while c != 0
      invariant i <= |X.p| && c <= 1 && |X.p| >= old(|X.p|)
      invariant Val(X.p) + c * Bp(i) == old(Val(X.p)) + c0 * Bp(i0)
      decreases if c == 0 then 0 else |X.p| + 2 - i
    {
      if i >= |X.p| { Grow(X, i + 1); }
      var v, c' := AddLimb(X.p[i], c);
      PutDigit(X.p, i, v, c, 0, c');
      X.p := X.p[i := v];
      c, i := c', i + 1;
    }
  }

  method AddLimbs(X: Mpi, B: Mpi, j: nat) returns (c: Limb)
    requires j <= |X.p| && j <= |B.p|
    modifies X`p
    ensures c <= 1 && |X.p| == old(|X.p|)
    ensures Val(X.p) + c * Bp(j) == old(Val(X.p)) + old(Val(B.p[..j]))
  {
    hide Val, Bp;
    ghost var q := B.p;
    var i := 0;
    c := 0;
    assert q[..0] == [];
    ValZeros([]);
    while i < j
      invariant i <= j && c <= 1 && |X.p| == old(|X.p|)
      invariant forall k :: i <= k < |X.p| ==> X.p[k] == old(X.p)[k]
      invariant X != B ==> B.p == q
      invariant Val(X.p) + c * Bp(i) == old(Val(X.p)) + Val(q[..i])
    {
      var tmp := B.p[i];
      var w, c2 := AddDigit(X.p[i], c, tmp);
      PutDigit(X.p, i, w, c, tmp, c2);
      ValStep(q, i);
      X.p := X.p[i := w];
      c, i := c2, i + 1;
    }
  }

  method AddAbs(X: Mpi, A: Mpi, B: Mpi)
    modifies X
    ensures X.s == 1 && Val(X.p) == old(Val(A.p)) + old(Val(B.p))
    ensures old(|A.p|) > 0 && old(|B.p|) > 0 ==> |X.p| >= Max(1, old(|X.p|))
  {
    hide Val, Bp;
    var A', B' := A, B;
    if X == B' { A', B' := X, A; }
    if X != A' { Copy(X, A'); }
    X.s := 1;
    var j := SigLimbs(B'.p);
    ghost var q := B'.p;
    ValSig(q);
    Grow(X, j);
    assert X == B' ==> X.p == q;
    assert X.p + Zeros(0) == X.p;
    var c := AddLimbs(X, B', j);
    AddCarry(X, j, c);
  }

  // ---- subtraction ----

  method SubLimb(v: Limb, c: Limb) returns (w: Limb, cout: Limb)
    ensures w - cout * BASE == v - c && cout <= 1
    ensures c <= 1 && cout == 1 ==> w == BASE - 1
  {
    cout := if v < c then 1 else 0;
    w := Wrap(v - c);
  }

  /** Subtracts the borrow and then the other digit; each subtraction borrows when it takes away more than there is. */
  method SubDigit(v: Limb, c: Limb, t: Limb) returns (w: Limb, cout: Limb)
    requires c <= 1
    ensures w - cout * BASE == v - c - t && cout <= 1
  {
    var x, z := SubLimb(v, c);
    var c2;
    w, c2 := SubLimb(x, t);
    cout := c2 + z;
  }

  /** Rippling the last borrow; it dies inside X because the total stays nonnegative. */
  method SubBorrow(X: Mpi, i0: nat, c0: Limb)
    requires i0 <= |X.p| && c0 <= 1 && c0 * Bp(i0) <= Val(X.p)
    modifies X`p
    ensures Val(X.p) == old(Val(X.p)) - c0 * Bp(i0)
    ensures |X.p| == old(|X.p|)
  {
    hide Val, Bp;
    var i: nat, c: Limb := i0, c0;
    while c != 0
      invariant i <= |X.p| == old(|X.p|) && c <= 1
      invariant Val(X.p) - c * Bp(i) == old(Val(X.p)) - c0 * Bp(i0)
      decreases |X.p| - i
    {
      ValBound(X.p);
      var z, c' := SubLimb(X.p[i], c);
      PutBorrow(X.p, i, z, c, 0, c');
      X.p := X.p[i := z];
      c, i := c', i + 1;
    }
  }

  /** mpi_sub_hlp: X := X - s[..n]. */
  method SubHlp(n: nat, s: seq<Limb>, X: Mpi)
    requires n <= |s| && n <= |X.p| && Val(s[..n]) <= Val(X.p)
    modifies X`p
    ensures Val(X.p) == old(Val(X.p)) - Val(s[..n])
    ensures |X.p| == old(|X.p|)
  {
    hide Val, Bp;
    var i: nat, c: Limb := 0, 0;
    assert s[..0] == [];
    ValZeros([]);
    while i < n
      invariant i <= n && c <= 1 && |X.p| == old(|X.p|)
      invariant Val(X.p) - c * Bp(i) == old(Val(X.p)) - Val(s[..i])
    {
      var w, c' := SubDigit(X.p[i], c, s[i]);
      PutBorrow(X.p, i, w, c, s[i], c');
      ValStep(s, i);
      X.p := X.p[i := w];
      c, i := c', i + 1;
    }
    SubBorrow(X, n, c);
  }

  datatype Status = Success | NegativeValue | DivisionByZero | BadInputData | NotAcceptable

  method SubAbs(X: Mpi, A: Mpi, B: Mpi) returns (ret: Status)
    modifies X
    ensures ret == if old(Val(A.p)) < old(Val(B.p)) then NegativeValue else Success
    ensures ret == NegativeValue ==> unchanged(X)
    ensures ret == Success ==> X.s == 1 && Val(X.p) == old(Val(A.p)) - old(Val(B.p))
    ensures ret == Success && old(|A.p|) > 0 ==> |X.p| >= Max(1, old(|X.p|))
    ensures ret == Success && X == A ==> |X.p| == old(|X.p|)
  {
    hide Val, Bp;
    var r := CmpAbs(A, B);
    if r < 0 { return NegativeValue; }
    var q := B.p;
    if X == B {
      var TB := new Mpi();
      Copy(TB, B);
      q := TB.p;
    }
    if X != A { Copy(X, A); }
    X.s := 1;
    var n := SigLimbs(q);
    ValSig(q);
    SigBound(q, |X.p|);
    ValBound(X.p);
    SubHlp(n, q, X);
    ret := Success;
  }

  // ---- signed operations ----

  /** X := A + B when the signs differ, or A - B when they agree. */
  method Differ(X: Mpi, A: Mpi, B: Mpi, s: Sign)
    modifies X
    ensures X.Value() == Signed(s, old(Val(A.p)) - old(Val(B.p)))
    ensures old(|A.p|) > 0 && old(|B.p|) > 0 ==> |X.p| >= Max(1, old(|X.p|))
    ensures old(Val(A.p)) >= old(Val(B.p)) ==> X.s == s
    ensures old(Val(A.p)) >= old(Val(B.p)) && X == A ==> |X.p| == old(|X.p|)
  {
    hide Val;
    var r := CmpAbs(A, B);
    if r >= 0 {
      var _ := SubAbs(X, A, B);
      X.s := s;
    } else {
      var _ := SubAbs(X, B, A);
      X.s := Neg(s);
    }
  }

  method AddMpi(X: Mpi, A: Mpi, B: Mpi)
    modifies X
    ensures X.Value() == old(A.Value()) + old(B.Value())
    ensures old(|A.p|) > 0 && old(|B.p|) > 0 ==> |X.p| >= Max(1, old(|X.p|))
  {
    hide Val;
    var s := A.s;
    if A.s != B.s {
      Differ(X, A, B, s);
    } else {
      AddAbs(X, A, B);
      X.s := s;
    }
  }

  method SubMpi(X: Mpi, A: Mpi, B: Mpi)
    modifies X
    ensures X.Value() == old(A.Value()) - old(B.Value())
    ensures old(|A.p|) > 0 && old(|B.p|) > 0 ==> |X.p| >= Max(1, old(|X.p|))
    ensures old(A.s) == old(B.s) && old(Val(A.p)) >= old(Val(B.p)) ==> X.s == old(A.s)
    ensures old(A.s) == old(B.s) && old(Val(A.p)) >= old(Val(B.p)) && X == A ==> |X.p| == old(|X.p|)
  {
    hide Val;
    var s := A.s;
    if A.s == B.s {
      Differ(X, A, B, s);
    } else {
      AddAbs(X, A, B);
      X.s := s;
    }
  }

  // ---- multiplication ----

  /** Adds x to the two-limb number r1:r0, as `r0 += x; r1 += (r0 < x)`. */
  method AddInto(r0: Limb, r1: Limb, x: Limb) returns (l: Limb, h: Limb)
    requires r0 + r1 * BASE + x < BASE * BASE
    ensures l + h * BASE == r0 + r1 * BASE + x
  {
    var c;
    l, c := AddLimb(r0, x);
    Distr(r1, c, BASE);
    if r1 + c >= BASE { MulMono(BASE, r1 + c, BASE); }
    h := Wrap(r1 + c);
  }

  lemma HalfWords(x: Limb)
    ensures x == x % RADIX + RADIX * (x / RADIX)
    ensures 0 <= x % RADIX < RADIX && 0 <= x / RADIX < RADIX
  {
    BaseFacts();
    DivMod(x, RADIX);
    DivLess(x, RADIX, RADIX);
    DivGe(x, 0, RADIX);
  }

  lemma HalfProductFits(x: int, y: int)
    requires 0 <= x < RADIX && 0 <= y < RADIX
    ensures 0 <= x * y < BASE
  {
    BaseFacts();
    MulNonneg(x, y);
    MulMono(x, RADIX - 1, y);
    MulMono(y, RADIX - 1, RADIX);
    Distr(RADIX, 1, y);
    Distr(RADIX, 1, RADIX);
  }

  /** Shifting a limb up by half a word keeps its low half. */
  lemma ShiftHalf(x: Limb)
    ensures Wrap(x * RADIX) == (x % RADIX) * RADIX
    ensures x * RADIX == (x % RADIX) * RADIX + (x / RADIX) * BASE
  {
    HalfWords(x);
    BaseFacts();
    Distr(x % RADIX, RADIX * (x / RADIX), RADIX);
    Assoc(RADIX, RADIX, x / RADIX);
    assert RADIX * (x / RADIX) * RADIX == (RADIX * RADIX) * (x / RADIX);
    MulNonneg(x % RADIX, RADIX);
    MulMono(x % RADIX, RADIX - 1, RADIX);
    Distr(RADIX, 1, RADIX);
    ModOfMultiple(x / RADIX, BASE, (x % RADIX) * RADIX);
  }

  lemma SchoolProduct(s0: int, s1: int, b0: int, b1: int, r: int)
    ensures (s0 + r * s1) * (b0 + r * b1)
         == s0 * b0 + (s0 * b1) * r + (s1 * b0) * r + (s1 * b1) * (r * r)
  {
    Distr(s0, r * s1, b0 + r * b1);
    Distr(b0, r * b1, s0);
    Distr(b0, r * b1, r * s1);
  }

  /** The product of two limbs from four half-word products; every operation wraps. */
  method HalfWordProduct(s: Limb, b: Limb) returns (r0: Limb, r1: Limb)
    ensures r0 + r1 * BASE == s * b
  {
    HalfWords(s);
    HalfWords(b);
    var s0, s1, b0, b1 := s % RADIX, s / RADIX, b % RADIX, b / RADIX;
    HalfProductFits(s0, b1);
    HalfProductFits(s0, b0);
    HalfProductFits(s1, b0);
    HalfProductFits(s1, b1);
    BaseFacts();
    SchoolProduct(s0, s1, b0, b1, RADIX);
    MulAddBound(s, b, 0, 0);
    r0, r1 := HalfWordSum(Wrap(s0 * b0), Wrap(s0 * b1), Wrap(s1 * b0), Wrap(s1 * b1), s * b);
  }

  method HalfWordSum(p00: Limb, p01: Limb, p10: Limb, p11: Limb, ghost total: int)
    returns (r0: Limb, r1: Limb)
    requires total == p00 + p01 * RADIX + p10 * RADIX + p11 * BASE < BASE * BASE
    ensures r0 + r1 * BASE == total
  {
    hide Wrap;
    ShiftHalf(p01);
    ShiftHalf(p10);
    HalfWords(p01);
    HalfWords(p10);
    var hx, hy, lx, ly := p01 / RADIX, p10 / RADIX, Wrap(p01 * RADIX), Wrap(p10 * RADIX);
    HighSum(p00, lx, ly, p11, hx, hy);
    r0, r1 := p00, Wrap(p11 + hx);
    r1 := Wrap(r1 + hy);
    r0, r1 := AddInto(r0, r1, lx);
    r0, r1 := AddInto(r0, r1, ly);
  }

  lemma HighSum(p: int, lx: int, ly: int, h: int, hx: int, hy: int)
    requires 0 <= p && 0 <= lx && 0 <= ly && 0 <= h && 0 <= hx && 0 <= hy
    requires p + (lx + hx * BASE) + (ly + hy * BASE) + h * BASE < BASE * BASE
    ensures Wrap(h + hx) == h + hx && Wrap(h + hx + hy) == h + hx + hy
    ensures (h + hx + hy) * BASE == h * BASE + hx * BASE + hy * BASE
  {
    Distr(h, hx, BASE);
    Distr(h + hx, hy, BASE);
    MulCancelLess(h + hx + hy, BASE, BASE);
  }

  /** MULADDC_CORE: s*b + c + d as two limbs. */
  method MulAddc(s: Limb, b: Limb, c: Limb, d: Limb) returns (cout: Limb, dout: Limb)
    ensures dout + cout * BASE == s * b + c + d
  {
    MulAddBound(s, b, c, d);
    dout, cout := HalfWordProduct(s, b);
    dout, cout := AddInto(dout, cout, c);
    dout, cout := AddInto(dout, cout, d);
  }

  lemma LimbProduct(x: int, y: int, m: int)
    requires 0 <= x <= m && 0 <= y <= m
    ensures 0 <= x * y <= m * m
  {
    MulNonneg(x, y);
    MulMono(x, m, y);
    MulMono(y, m, m);
  }

  lemma MulAddBound(s: Limb, b: Limb, c: Limb, d: Limb)
    ensures 0 <= s * b + c + d < BASE * BASE
  {
    LimbProduct(s, b, BASE - 1);
    Distr(BASE, 1, BASE - 1);
    Distr(BASE, 1, BASE);
  }

  /** The closing do-while of mpi_mul_hlp: X += c * BASE^i. */
  method MulCarry(X: Mpi, i0: nat, c0: Limb)
    requires i0 < |X.p| && Val(X.p) + c0 * Bp(i0) < Bp(|X.p|)
    modifies X`p
    ensures Val(X.p) == old(Val(X.p)) + c0 * Bp(i0)
    ensures |X.p| == old(|X.p|)
    ensures X.p[..i0] == old(X.p[..i0])
  {
    hide Val, Bp;
    var v, c := AddLimb(X.p[i0], c0);
    PutDigit(X.p, i0, v, c0, 0, c);
    X.p := X.p[i0 := v];
    var i: nat := i0 + 1;
    while c != 0
      invariant i0 <= i <= |X.p| == old(|X.p|) && 0 <= c <= 1
      invariant X.p[..i0] == old(X.p[..i0])
      invariant Val(X.p) + c * Bp(i) == old(Val(X.p)) + c0 * Bp(i0)
      decreases |X.p| - i
    {
      assert c * Bp(i) == Bp(i);
      v, c := AddLimbAt(X, i);
      i := i + 1;
    }
  }

  method AddLimbAt(X: Mpi, i: nat) returns (v: Limb, c': Limb)
    requires i <= |X.p| && Val(X.p) + Bp(i) < Bp(|X.p|)
    modifies X`p
    ensures i < |X.p| == old(|X.p|) && X.p == old(X.p)[i := v] && c' <= 1
    ensures Val(X.p) + c' * Bp(i + 1) == old(Val(X.p)) + Bp(i)
  {
    hide Val, Bp;
    ValBound(X.p);
    v, c' := AddLimb(X.p[i], 1);
    PutDigit(X.p, i, v, 1, 0, c');
    X.p := X.p[i := v];
  }

  /** mpi_mul_hlp on X shifted by off limbs: X += s[..i] * b * BASE^off. */
  method MulHlp(i: nat, s: seq<Limb>, X: Mpi, off: nat, b: Limb)
    requires i <= |s| && off + i < |X.p|
    requires Val(X.p) + Val(s[..i]) * b * Bp(off) < Bp(|X.p|)
    modifies X`p
    ensures Val(X.p) == old(Val(X.p)) + Val(s[..i]) * b * Bp(off)
    ensures |X.p| == old(|X.p|) && X.p[..off] == old(X.p[..off])
  {
    hide Val, Bp;
    var k: nat, c: Limb := 0, 0;
    assert s[..0] == [];
    ValZeros([]);
    while k < i
      invariant k <= i && |X.p| == old(|X.p|) && X.p[..off] == old(X.p[..off])
      invariant Val(X.p) + c * Bp(off + k) == old(Val(X.p)) + Val(s[..k]) * b * Bp(off)
    {
      var c', d := MulAddc(s[k], b, c, X.p[off + k]);
      MulStep(X.p, s, off, k, b, c, c', d);
      X.p := X.p[off + k := d];
      c, k := c', k + 1;
    }
    MulCarry(X, off + i, c);
  }

  lemma MulStep(p: seq<Limb>, s: seq<Limb>, off: nat, k: nat, b: Limb, c: Limb, c': Limb, d: Limb)
    requires off + k < |p| && k < |s| && d + c' * BASE == s[k] * b + c + p[off + k]
    ensures Val(p[off + k := d]) + c' * Bp(off + k + 1) - Val(s[..k + 1]) * b * Bp(off)
         == Val(p) + c * Bp(off + k) - Val(s[..k]) * b * Bp(off)
  {
    hide Val, Bp;
    PutDigit(p, off + k, d, c, s[k] * b, c');
    ValStep(s, k);
    BpAdd(off, k);
    MulStepWeights(Val(s[..k]), s[k], Bp(k), b, Bp(off));
  }

  lemma MulStepWeights(v: int, x: int, w: int, b: int, z: int)
    ensures (v + x * w) * b * z == v * b * z + x * b * (z * w)
  {
    Distr(v, x * w, b);
    Distr(v * b, x * w * b, z);
    assert x * w * b * z == x * b * (z * w);
  }

  /** No partial product outgrows the limbs set aside for the whole product. */
  lemma MulFits(a: seq<Limb>, q: seq<Limb>, k: nat)
    requires k <= |q|
    ensures Val(a) * Val(q[k..]) * Bp(k) < Bp(Sig(a) + Sig(q))
  {
    hide Val, Bp, Sig;
    ValSplit(q, k);
    ValSig(a);
    ValSig(q);
    BpAdd(Sig(a), Sig(q));
    ProductBelow(Val(a), Val(q), Val(q[k..]), Bp(k), Bp(Sig(a)), Bp(Sig(q)));
  }

  lemma ProductBelow(x: nat, y: nat, h: nat, w: nat, xx: nat, yy: nat)
    requires x < xx && w * h <= y < yy
    ensures x * h * w < xx * yy
  {
    Assoc(x, h, w);
    MulMono(w * h, y, x);
    MulMono(x, xx - 1, y);
    MulLess(y, yy, xx);
    Distr(xx, 1, y);
  }

  lemma MulColumn(a: nat, q: seq<Limb>, k: nat)
    requires k < |q|
    ensures a * Val(q[k + 1..]) * Bp(k + 1) + a * q[k] * Bp(k) == a * Val(q[k..]) * Bp(k)
  {
    hide Val, Bp;
    ValHead(q, k);
    BpSucc(k);
    MulColumnWeights(a, Val(q[k + 1..]), q[k], Bp(k));
  }

  lemma MulColumnWeights(a: int, h: int, x: int, w: int)
    ensures a * h * (BASE * w) + a * x * w == a * (x + BASE * h) * w
  {
    Distr(x, BASE * h, a);
    Distr(a * x, a * (BASE * h), w);
    assert a * (BASE * h) * w == a * h * (BASE * w);
  }

  /** The column loop of the product, over operands that X does not alias. */
  method MulColumns(X: Mpi, a: seq<Limb>, q: seq<Limb>, i: nat, j0: nat)
    requires i == Sig(a) && j0 == Sig(q) && i + j0 <= |X.p| && Val(X.p) == 0
    modifies X`p
    ensures Val(X.p) == Val(a) * Val(q) && |X.p| == old(|X.p|)
  {
    hide Val, Bp, Sig;
    var j: nat := j0;
    ValSig(a);
    ValZeros(q[j0..]);
    while j > 0
      invariant j <= j0 && |X.p| == old(|X.p|)
      invariant Val(X.p) == Val(a) * Val(q[j..]) * Bp(j)
    {
      MulColumn(Val(a), q, j - 1);
      MulFits(a, q, j - 1);
      BpMono(i + j0, |X.p|);
      MulHlp(i, a, X, j - 1, q[j - 1]);
      j := j - 1;
    }
    assert q[0..] == q;
    BpSucc(0);
  }

  method MulMpi(X: Mpi, A: Mpi, B: Mpi)
    modifies X
    ensures X.Value() == old(A.Value()) * old(B.Value())
    ensures Val(X.p) == old(Val(A.p)) * old(Val(B.p))
    ensures old(A.p) != [] && old(B.p) != [] ==> X.s == old(A.s) * old(B.s)
    ensures |X.p| >= Max(1, old(|X.p|))
  {
    hide Val, Bp, Sig;
    var A', B' := A, B;
    if X == A { A' := new Mpi(); Copy(A', A); }
    if X == B { B' := new Mpi(); Copy(B', B); }
    var a, q := A'.p, B'.p;
    var i := SigLimbs(a);
    var j := SigLimbs(q);
    Grow(X, i + j);
    Lset(X, 0);
    MulColumns(X, a, q, i, j);
    X.s := if A'.s == B'.s then 1 else -1;
    SignedMul(A'.s, Val(a), B'.s, Val(q));
  }

  lemma SignedMul(s: Sign, v: int, t: Sign, w: int)
    ensures Signed(s, v) * Signed(t, w) == Signed(if s == t then 1 else -1, v * w)
  {
    assert (-v) * (-w) == v * w && (-v) * w == -(v * w) && v * (-w) == -(v * w);
  }

  method MulInt(X: Mpi, A: Mpi, b: Limb)
    modifies X
    ensures X.Value() == old(A.Value()) * b
    ensures Val(X.p) == old(Val(A.p)) * b
    ensures old(A.p) != [] ==> X.s == old(A.s)
    ensures |X.p| >= Max(1, old(|X.p|))
  {
    hide Val;
    var B := new Mpi();
    B.p := [b];
    ValOne(b);
    MulMpi(X, A, B);
  }
}
