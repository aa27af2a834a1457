/** Bit lengths, trailing zeros and shifts of big integers. */
module Shift {
  import opened Arith
  import opened Limbs
  import opened Mpi

  /** n is the number of bits of v. */
  ghost predicate IsBitLen(v: nat, n: nat) {
    v < Pow2(n) && (n > 0 ==> Pow2(n - 1) <= v)
  }

  lemma IsBitLenUnique(v: nat, m: nat, n: nat)
    requires IsBitLen(v, m) && IsBitLen(v, n)
    ensures m == n
  {
    if m < n { Pow2Mono(m, n - 1); }
    if n < m { Pow2Mono(n, m - 1); }
  }

  lemma {:induction false} BpIsPow2(i: nat)
    ensures Bp(i) == Pow2(i * biL)
  {
    if i == 0 {
      BpSucc(0);
    } else {
      hide Bp, Pow2;
      BpIsPow2(i - 1);
      BpSucc(i - 1);
      OneLimbMore(i - 1);
    }
  }

  lemma OneLimbMore(i: nat)
    ensures 0 <= i * biL && Pow2((i + 1) * biL) == BASE * Pow2(i * biL)
  {
    hide Pow2;
    MulNonneg(i, biL);
    Distr(i, 1, biL);
    Pow2Add(biL, i * biL);
  }

  lemma TopBitTest(x: nat, m: nat)
    requires 0 < m && x < 2 * m
    ensures (x / m) % 2 == 1 <==> m <= x
    ensures (x / m) % 2 == 0 <==> x < m
  {
    if m <= x { DivUnique(x, m, 1, x - m); }
    else { DivUnique(x, m, 0, x); }
  }

  method Clz(x: Limb) returns (j: nat)
    ensures j <= biL && IsBitLen(x, biL - j)
  {
    hide Pow2;
    var mask := Pow2(biL - 1);
    Pow2Succ(biL - 1);
    j := 0;
    while j < biL
      invariant j <= biL && x < Pow2(biL - j)
      invariant j < biL ==> mask == Pow2(biL - j - 1)
    {
      Pow2Succ(biL - j - 1);
      TopBitTest(x, mask);
      if (x / mask) % 2 != 0 { break; }
      if j < biL - 1 { Pow2Succ(biL - j - 2); }
      mask := mask / 2;
      j := j + 1;
    }
  }

  lemma Pow2Succ(n: nat)
    ensures Pow2(n + 1) == 2 * Pow2(n)
  {}

  /** The bits of a row whose limb i is the last nonzero one. */
  lemma BitLenOf(p: seq<Limb>, i: nat, j: nat)
    requires i < |p| && Sig(p) <= i + 1 && IsBitLen(p[i], j) && (i > 0 ==> j > 0)
    ensures IsBitLen(Val(p), i * biL + j)
  {
    hide Val, Bp, Pow2;
    assert Val(p) == Val(p[..i]) + p[i] * Bp(i) by {
      ValTop(p, i + 1);
      ValStep(p, i);
    }
    assert Val(p[..i]) < Bp(i) by { ValBound(p[..i]); }
    if i == 0 && j == 0 { ValZeros([]); }
    BpIsPow2(i);
    WeightedBitLen(Val(p[..i]), p[i], i * biL, j);
  }

  lemma WeightedBitLen(low: nat, x: nat, k: nat, j: nat)
    requires low < Pow2(k) && IsBitLen(x, j) && (j == 0 ==> low == 0 && k == 0)
    ensures IsBitLen(low + x * Pow2(k), k + j)
  {
    if j == 0 { Pow2Zero(); }
    hide Pow2;
    Pow2Add(k, j);
    WeightedBelow(low, x, Pow2(k), Pow2(j));
    if j > 0 {
      Pow2Add(k, j - 1);
      WeightedAbove(low, x, Pow2(k), Pow2(j - 1));
    }
  }

  lemma WeightedBelow(low: int, x: int, w: int, hi: int)
    requires 0 <= low < w && x < hi
    ensures low + x * w < w * hi
  {
    MulLess(x, hi, w);
  }

  lemma WeightedAbove(low: int, x: int, w: int, lo: int)
    requires 0 <= low && 0 < w && lo <= x
    ensures w * lo <= low + x * w
  {
    MulMono(lo, x, w);
  }

  method Bitlen(X: Mpi) returns (n: nat)
    ensures IsBitLen(Val(X.p), n)
  {
    if |X.p| == 0 { return 0; }
    hide Val, Pow2;
    var i := SigLimbs(X.p);
    i := if i == 0 then 0 else i - 1;
    var z := Clz(X.p[i]);
    var j := biL - z;
    if i > 0 { assert j > 0 by { Pow2Zero(); } }
    BitLenOf(X.p, i, j);
    MulNonneg(i, biL);
    n := i * biL + j;
  }

  lemma Pow2Zero()
    ensures Pow2(0) == 1
  {}

  // ---- trailing zeros ----

  /** 2^n is the largest power of two dividing v. */
  ghost predicate IsLsb(v: nat, n: nat) {
    v == (v / Pow2(n)) * Pow2(n) && (v / Pow2(n)) % 2 == 1
  }

  lemma LsbOf(p: seq<Limb>, i: nat, j: nat)
    requires i < |p| && j < biL && (forall k :: 0 <= k < i ==> p[k] == 0)
    requires IsLsb(p[i], j)
    ensures IsLsb(Val(p), i * biL + j)
  {
    hide Val, Bp, Pow2;
    BpIsPow2(i);
    Pow2Add(i * biL, j);
    ValSplit(p, i);
    ValZeros(p[..i]);
    ValHead(p, i);
    var odd, rest := p[i] / Pow2(j), Val(p[i + 1..]);
    Pow2Add(biL - j, j);
    Pow2Succ(biL - j - 1);
    var h := Pow2(biL - j - 1);
    LsbWeights(Bp(i), odd, h, Pow2(j), rest);
    ParityOfSum(odd + 2 * (h * rest), odd, h * rest);
    DivUnique(Val(p), Pow2(i * biL + j), odd + 2 * (h * rest), 0);
  }

  lemma LsbWeights(w: int, odd: int, h: int, u: int, rest: int)
    ensures w * (odd * u + (2 * h * u) * rest) == (odd + 2 * (h * rest)) * (w * u)
  {
    assert (2 * h * u) * rest == 2 * (h * rest) * u;
    Distr(odd, 2 * (h * rest), u);
    Assoc(w, odd + 2 * (h * rest), u);
  }

  lemma LsbStep(v: nat, j: nat)
    requires v == (v / Pow2(j)) * Pow2(j) && (v / Pow2(j)) % 2 == 0
    ensures v == (v / Pow2(j + 1)) * Pow2(j + 1)
  {
    var q := v / Pow2(j);
    Pow2Succ(j);
    assert q == 2 * (q / 2);
    Assoc(q / 2, 2, Pow2(j));
    DivUnique(v, Pow2(j + 1), q / 2, 0);
  }

  /** The first set bit of one limb, if there is one. */
  method LsbLimb(x: Limb) returns (found: bool, j: nat)
    ensures found ==> j < biL && IsLsb(x, j)
    ensures !found ==> x == 0 && j == biL
  {
    hide Pow2;
    Pow2Zero();
    j := 0;
    while j < biL
      invariant j <= biL && x == (x / Pow2(j)) * Pow2(j)
    {
      if (x / Pow2(j)) % 2 != 0 { return true, j; }
      LsbStep(x, j);
      j := j + 1;
    }
    found := false;
    DivUnique(x, BASE, 0, x);
  }

  method Lsb(X: Mpi) returns (count: nat)
    ensures Val(X.p) > 0 ==> IsLsb(Val(X.p), count)
    ensures Val(X.p) == 0 ==> count == 0
  {
    hide Pow2, IsLsb;
    var i := 0;
    count := 0;
    while i < |X.p|
      invariant i <= |X.p| && count == i * biL
      invariant forall k :: 0 <= k < i ==> X.p[k] == 0
    {
      var found, j := LsbLimb(X.p[i]);
      if found {
        LsbOf(X.p, i, j);
        LsbPositive(Val(X.p), count + j);
        return count + j;
      }
      Distr(i, 1, biL);
      count, i := count + j, i + 1;
    }
    ValZeros(X.p);
    count := 0;
  }

  lemma LsbPositive(v: nat, n: nat)
    requires IsLsb(v, n)
    ensures v > 0
  {
    if v == 0 { DivUnique(0, Pow2(n), 0, 0); }
  }

  // ---- left shift ----

  function BitsToLimbs(i: nat): nat { i / biL + (if i % biL != 0 then 1 else 0) }

  lemma BitsToLimbsFits(i: nat, n: nat)
    requires n * biL >= i || n >= BitsToLimbs(i)
    ensures Pow2(i) <= Bp(n)
  {
    BpIsPow2(n);
    DivMod(i, biL);
    if n >= BitsToLimbs(i) {
      MulMono(BitsToLimbs(i), n, biL);
      Distr(i / biL, 1, biL);
    }
    Pow2Mono(i, n * biL);
  }

  lemma BitsToLimbsTight(p: seq<Limb>, i: nat)
    requires IsBitLen(Val(p), i) && i > 0
    ensures Sig(p) == BitsToLimbs(i)
  {
    hide Val, Bp, Pow2;
    var n := BitsToLimbs(i);
    BitsToLimbsFits(i, n);
    SigBound(p, n);
    DivMod(i, biL);
    Distr(i / biL, 1, biL);
    BpIsPow2(n - 1);
    MulNonneg(n - 1, biL);
    Pow2Mono((n - 1) * biL, i - 1);
    SigBound(p, n - 1);
  }

  lemma TopIsZero(p: seq<Limb>, n: nat)
    requires n <= |p| && Val(p) < Bp(n)
    ensures Val(p) == Val(p[..n])
  {
    hide Val, Bp;
    SigBound(p, n);
    ValTop(p, n);
  }

  lemma ValShiftedUp(p: seq<Limb>, r: seq<Limb>, v0: nat)
    requires v0 <= |p| == |r| && Val(p) * Bp(v0) < Bp(|p|)
    requires Val(r[..v0]) == 0 && Val(r[v0..]) == Val(p[..|p| - v0])
    ensures Val(r) == Val(p) * Bp(v0)
  {
    hide Val, Bp;
    var n := |p| - v0;
    BpAdd(n, v0);
    var v := Val(p);
    MulCancelLess(v, Bp(n), Bp(v0));
    assert Val(p[..n]) == v by { TopIsZero(p, n); }
    assert Val(r) == Bp(v0) * v by { ValSplit(r, v0); }
  }

  method MoveLimbsUp(X: Mpi, v0: nat)
    requires v0 <= |X.p|
    modifies X`p
    ensures |X.p| == old(|X.p|) && X.p[v0..] == old(X.p[..|X.p| - v0])
  {
    ghost var q := X.p;
    var i: nat := |X.p|;
    while i > v0
      invariant v0 <= i <= |X.p| == |q|
      invariant forall k :: i <= k < |q| ==> X.p[k] == q[k - v0]
      invariant X.p[..i] == q[..i]
    {
      assert X.p[i - v0 - 1] == X.p[..i][i - v0 - 1];
      X.p := X.p[i - 1 := X.p[i - v0 - 1]];
      i := i - 1;
    }
  }

  method ClearLow(X: Mpi, v0: nat)
    requires v0 <= |X.p|
    modifies X`p
    ensures |X.p| == old(|X.p|) && X.p[v0..] == old(X.p[v0..])
    ensures X.p[..v0] == Zeros(v0)
  {
    var i: nat := v0;
    while i > 0
      invariant i <= v0 <= |X.p| == old(|X.p|) && X.p[v0..] == old(X.p[v0..])
      invariant forall k :: i <= k < v0 ==> X.p[k] == 0
    {
      X.p := X.p[i - 1 := 0];
      i := i - 1;
    }
  }

  method ShiftLimbsUp(X: Mpi, v0: nat)
    requires v0 <= |X.p| && Val(X.p) * Bp(v0) < Bp(|X.p|)
    modifies X`p
    ensures |X.p| == old(|X.p|) && Val(X.p) == old(Val(X.p)) * Bp(v0)
    ensures X.p[..v0] == Zeros(v0)
  {
    hide Val, Bp;
    ghost var q := X.p;
    MoveLimbsUp(X, v0);
    ClearLow(X, v0);
    ValZeros(X.p[..v0]);
    ValShiftedUp(q, X.p, v0);
  }

  lemma DivShrinks(x: nat, d: nat)
    requires 0 < d
    ensures 0 <= x / d <= x
  {
    DivMod(x, d);
    MulMono(1, d, x / d);
  }

  /** Word shifts: `x << k` drops the high bits, `x >> k` the low ones. */
  function Shl(x: Limb, k: nat): Limb { Wrap(x * Pow2(k)) }

  function Shr(x: Limb, k: nat): Limb {
    DivShrinks(x, Pow2(k));
    x / Pow2(k)
  }

  /** One limb of a left shift by t bits: the bits that leave and the bits that stay. */
  lemma ShiftUpLimb(v: Limb, t: nat, r0: int)
    requires 0 < t < biL && 0 <= r0 < Pow2(t)
    ensures Shr(v, biL - t) < Pow2(t)
    ensures Shl(v, t) + r0 < BASE
    ensures Shl(v, t) + r0 + Shr(v, biL - t) * BASE == v * Pow2(t) + r0
  {
    hide Pow2;
    var u, m := Pow2(biL - t), Pow2(t);
    Pow2Add(biL - t, t);
    DivMod(v, u);
    DivLess(v, m, u);
    var hi, lo := v / u, v % u;
    Distr(hi * u, lo, m);
    Assoc(hi, u, m);
    MulNonneg(lo, m);
    MulMono(lo, u - 1, m);
    Distr(u, 1, m);
    ModOfMultiple(hi, BASE, lo * m);
  }

  method ShiftBitsUp(X: Mpi, v0: nat, t1: nat)
    requires 0 < t1 < biL && v0 <= |X.p| && X.p[..v0] == Zeros(v0)
    requires Val(X.p) * Pow2(t1) < Bp(|X.p|)
    modifies X`p
    ensures |X.p| == old(|X.p|) && Val(X.p) == old(Val(X.p)) * Pow2(t1)
  {
    hide Val, Bp, Pow2, Shl, Shr;
    ghost var q := X.p;
    var i: nat, r0: Limb := v0, 0;
    ValZeros(q[..v0]);
    while i < |X.p|
      invariant v0 <= i <= |X.p| == |q| && r0 < Pow2(t1)
      invariant X.p[i..] == q[i..]
      invariant Val(X.p[..i]) + r0 * Bp(i) == Val(q[..i]) * Pow2(t1)
    {
      var v := X.p[i];
      assert v == X.p[i..][0] == q[i];
      ShiftUpLimb(v, t1, r0);
      var r1 := Shr(v, biL - t1);
      var w: Limb := Shl(v, t1) + r0;   // the bits are disjoint
      ShiftUpStep(X.p, q, i, w, r0, r1, Pow2(t1));
      X.p := X.p[i := w];
      r0, i := r1, i + 1;
    }
    assert X.p[..|q|] == X.p && q[..|q|] == q;
    if r0 > 0 { MulMono(1, r0, Bp(|q|)); }
  }

  lemma ShiftUpStep(p: seq<Limb>, q: seq<Limb>, i: nat, w: Limb, r0: int, r1: int, m: nat)
    requires i < |p| == |q| && w + r1 * BASE == q[i] * m + r0
    requires Val(p[..i]) + r0 * Bp(i) == Val(q[..i]) * m
    ensures Val(p[i := w][..i + 1]) + r1 * Bp(i + 1) == Val(q[..i + 1]) * m
  {
    hide Val, Bp;
    ValStep(q, i);
    ValStep(p[i := w], i);
    assert p[i := w][..i] == p[..i];
    BpSucc(i);
    ShiftUpWeights(w, r0, r1, q[i], Bp(i), Val(q[..i]), m);
  }

  lemma ShiftUpWeights(w: int, r0: int, r1: int, x: int, z: int, v: int, m: int)
    requires w + r1 * BASE == x * m + r0
    ensures w * z + r1 * (BASE * z) == (v + x * z) * m - v * m + r0 * z
  {
    Distr(w, r1 * BASE, z);
    Distr(x * m, r0, z);
    Assoc(r1, BASE, z);
    Distr(v, x * z, m);
    assert x * m * z == x * z * m;
  }

  method ShiftL(X: Mpi, count: nat)
    modifies X`p
    ensures Val(X.p) == old(Val(X.p)) * Pow2(count)
    ensures X.Value() == old(X.Value()) * Pow2(count)
    ensures |X.p| >= old(|X.p|)
    ensures old(Val(X.p)) > 0 ==> |X.p| == Max(old(|X.p|), Sig(X.p))
  {
    hide Val, Bp, Pow2, Sig, IsBitLen, BitsToLimbs;
    var v0, t1 := count / biL, count % biL;
    var n := Bitlen(X);
    var i := n + count;
    if |X.p| * biL < i { Grow(X, BitsToLimbs(i)); }
    ghost var v := Val(X.p);
    ShiftFits(v, n, count, |X.p|);
    ShiftLimbsUp(X, v0);
    if t1 > 0 { ShiftBitsUp(X, v0, t1); } else { Pow2Zero(); }
    ShiftWhole(v, n, count, X.p, old(|X.p|));
    SignedScale(X.s, v, Pow2(count));
  }

  lemma SignedScale(s: Sign, v: int, m: int)
    ensures Signed(s, v * m) == Signed(s, v) * m
  {
    assert (-v) * m == -(v * m);
  }

  lemma ShiftSplit(v: nat, count: nat)
    ensures v * Bp(count / biL) * Pow2(count % biL) == v * Pow2(count)
  {
    hide Pow2, Bp;
    var v0, t1 := count / biL, count % biL;
    DivMod(count, biL);
    BpIsPow2(v0);
    Pow2Add(v0 * biL, t1);
    Assoc(v, Bp(v0), Pow2(t1));
  }

  lemma ShiftFits(v: nat, n: nat, count: nat, len: nat)
    requires IsBitLen(v, n) && (len * biL >= n + count || len >= BitsToLimbs(n + count))
    ensures count / biL <= len
    ensures v * Bp(count / biL) < Bp(len)
    ensures v * Bp(count / biL) * Pow2(count % biL) == v * Pow2(count) < Bp(len)
  {
    hide Pow2, Bp;
    var w, m := v * Bp(count / biL), Pow2(count % biL);
    assert w * m == v * Pow2(count) by { ShiftSplit(v, count); }
    assert v * Pow2(count) < Bp(len) by {
      BitsToLimbsFits(n + count, len);
      Pow2Add(n, count);
      MulLess(v, Pow2(n), Pow2(count));
    }
    assert w < Bp(len) by {
      MulNonneg(v, Bp(count / biL));
      MulMono(1, m, w);
    }
    ShiftRoom(n, count, len);
  }

  lemma ShiftRoom(n: nat, count: nat, len: nat)
    requires len * biL >= n + count || len >= BitsToLimbs(n + count)
    ensures count / biL <= len
  {
    DivMono(count, n + count, biL);
    if len * biL >= n + count {
      DivMono(n + count, len * biL, biL);
      DivUnique(len * biL, biL, len, 0);
    }
  }

  lemma ShiftWhole(v: nat, n: nat, count: nat, q: seq<Limb>, before: nat)
    requires IsBitLen(v, n) && Val(q) == v * Pow2(count)
    requires |q| == if before * biL < n + count then Max(before, BitsToLimbs(n + count)) else before
    ensures v > 0 ==> |q| == Max(before, Sig(q))
  {
    hide Val;
    if v > 0 {
      assert n > 0;
      BitLenShift(v, n, count);
      BitsToLimbsTight(q, n + count);
      DivMod(n + count, biL);
      if before * biL >= n + count {
        DivMono(n + count, before * biL, biL);
        DivUnique(before * biL, biL, before, 0);
      }
    }
  }

  lemma BitLenShift(v: nat, n: nat, count: nat)
    requires IsBitLen(v, n) && n > 0
    ensures IsBitLen(v * Pow2(count), n + count)
  {
    hide Pow2;
    Pow2Add(n, count);
    Pow2Add(n - 1, count);
    MulLess(v, Pow2(n), Pow2(count));
    MulMono(Pow2(n - 1), v, Pow2(count));
  }

  // ---- right shift ----

  method MoveLimbsDown(X: Mpi, v0: nat)
    requires v0 <= |X.p|
    modifies X`p
    ensures X.p == old(X.p)[v0..] + Zeros(v0)
  {
    ghost var q := X.p;
    var i: nat := 0;
    while i < |X.p| - v0
      invariant i <= |X.p| - v0 && |X.p| == |q|
      invariant forall k :: 0 <= k < i ==> X.p[k] == q[k + v0]
      invariant X.p[i..] == q[i..]
    {
      assert X.p[i + v0] == X.p[i..][v0];
      X.p := X.p[i := X.p[i + v0]];
      i := i + 1;
    }
    ghost var low := X.p[..i];
    assert low == q[v0..];
    while i < |X.p|
      invariant |q| - v0 <= i <= |X.p| == |q| && X.p[..|q| - v0] == low
      invariant forall k :: |q| - v0 <= k < i ==> X.p[k] == 0
    {
      X.p := X.p[i := 0];
      i := i + 1;
    }
  }

  /** One limb of a right shift by t bits, rem being what the limbs above left over. */
  lemma ShiftDownLimb(v: Limb, t: nat, rem: nat)
    requires 0 < t < biL && rem < Pow2(t)
    ensures Shr(v, t) + rem * Pow2(biL - t) < BASE
    ensures Shl(v, biL - t) == (v % Pow2(t)) * Pow2(biL - t)
    ensures 0 <= v % Pow2(t) < Pow2(t)
    ensures (Shr(v, t) + rem * Pow2(biL - t)) * Pow2(t) + v % Pow2(t) == v + rem * BASE
  {
    hide Pow2;
    var u, m := Pow2(biL - t), Pow2(t);
    Pow2Add(biL - t, t);
    DivMod(v, m);
    DivLess(v, u, m);
    var hi, lo := v / m, v % m;
    Distr(hi * m, lo, u);
    Assoc(hi, m, u);
    MulNonneg(lo, u);
    MulMono(lo, m - 1, u);
    MulMono(rem, m - 1, u);
    Distr(m, 1, u);
    ModOfMultiple(hi, BASE, lo * u);
    Distr(hi, rem * u, m);
    Assoc(rem, u, m);
  }

  lemma ShiftDownStep(p: seq<Limb>, q: seq<Limb>, i: nat, w: Limb, rem: nat, rem': nat, m: nat)
    requires i < |p| == |q| && w * m + rem' == q[i] + rem * BASE
    requires Val(p[i + 1..]) * m + rem == Val(q[i + 1..])
    ensures Val(p[i := w][i..]) * m + rem' == Val(q[i..])
  {
    hide Val;
    ValHead(q, i);
    ValHead(p[i := w], i);
    assert p[i := w][i + 1..] == p[i + 1..];
    var h := Val(p[i + 1..]);
    Distr(w, BASE * h, m);
    Assoc(BASE, h, m);
    Distr(h * m, rem, BASE);
  }

  /** One limb: what it becomes and what it leaves for the limb below. */
  method ShiftLimbDown(p: seq<Limb>, ghost q: seq<Limb>, i: nat, v1: nat, r0: int, ghost rem: nat)
    returns (w: Limb, r1: int, ghost rem': nat)
    requires i < |p| == |q| && p[i] == q[i] && 0 < v1 < biL && rem < Pow2(v1) && r0 == rem * Pow2(biL - v1)
    requires Val(p[i + 1..]) * Pow2(v1) + rem == Val(q[i + 1..])
    ensures rem' < Pow2(v1) && r1 == rem' * Pow2(biL - v1)
    ensures Val(p[i := w][i..]) * Pow2(v1) + rem' == Val(q[i..])
  {
    hide Val, Pow2, Shl, Shr;
    ShiftDownLimb(p[i], v1, rem);
    r1 := Shl(p[i], biL - v1);
    w := Shr(p[i], v1) + r0;   // the bits are disjoint
    rem' := p[i] % Pow2(v1);
    ShiftDownStep(p, q, i, w, rem, rem', Pow2(v1));
  }

  method ShiftBitsDown(X: Mpi, v1: nat)
    requires 0 < v1 < biL
    modifies X`p
    ensures |X.p| == old(|X.p|) && Val(X.p) == old(Val(X.p)) / Pow2(v1)
  {
    hide Val, Pow2, Shl, Shr;
    ghost var q := X.p;
    ghost var rem: nat := 0;
    var i: nat, r0: int := |X.p|, 0;
    ValZeros(q[|q|..]);
    while i > 0
      invariant i <= |X.p| == |q| && X.p[..i] == q[..i]
      invariant rem < Pow2(v1) && r0 == rem * Pow2(biL - v1)
      invariant Val(X.p[i..]) * Pow2(v1) + rem == Val(q[i..])
    {
      assert X.p[i - 1] == X.p[..i][i - 1] == q[i - 1];
      var w, r1;
      w, r1, rem := ShiftLimbDown(X.p, q, i - 1, v1, r0, rem);
      X.p := X.p[i - 1 := w];
      r0, i := r1, i - 1;
      assert X.p[..i] == q[..i];
    }
    assert X.p[0..] == X.p && q[0..] == q;
    DivUnique(Val(q), Pow2(v1), Val(X.p), rem);
  }

  method ShiftR(X: Mpi, count: nat)
    modifies X
    ensures Val(X.p) == old(Val(X.p)) / Pow2(count)
    ensures X.Value() == Signed(old(X.s), old(Val(X.p)) / Pow2(count))
    ensures X.s == old(X.s) || (X.s == 1 && Val(X.p) == 0)
    ensures old(|X.p|) > 0 ==> |X.p| == old(|X.p|)
  {
    hide Val, Bp, Pow2;
    var v0, v1 := count / biL, count % biL;
    ghost var v := Val(X.p);
    ShiftDownSplit(v, count);
    if v0 > |X.p| || (v0 == |X.p| && v1 > 0) {
      ShiftedOut(X.p, count);
      Lset(X, 0);
      return;
    }
    if v0 > 0 {
      ValHigh(X.p, v0);
      ValAppendZeros(X.p[v0..], v0);
      MoveLimbsDown(X, v0);
    } else {
      BpSucc(0);
    }
    if v1 > 0 { ShiftBitsDown(X, v1); } else { Pow2Zero(); }
  }

  lemma ShiftDownSplit(v: nat, count: nat)
    ensures v / Bp(count / biL) / Pow2(count % biL) == v / Pow2(count)
    ensures v / 1 == v
  {
    hide Pow2, Bp;
    var v0, t1 := count / biL, count % biL;
    assert Pow2(count) == Bp(v0) * Pow2(t1) by {
      DivMod(count, biL);
      BpIsPow2(v0);
      Pow2Add(v0 * biL, t1);
    }
    DivDiv(v, Bp(v0), Pow2(t1));
    DivUnique(v, 1, v, 0);
  }

  lemma ShiftedOut(p: seq<Limb>, count: nat)
    requires count / biL >= |p|
    ensures Val(p) / Pow2(count) == 0
  {
    hide Val, Pow2, Bp;
    ValBound(p);
    BpIsPow2(|p|);
    DivMod(count, biL);
    MulMono(|p|, count / biL, biL);
    Pow2Mono(|p| * biL, count);
    DivUnique(Val(p), Pow2(count), 0, Val(p));
  }
}
