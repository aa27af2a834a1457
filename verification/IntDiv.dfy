/** Dividing two limbs by one with half-word arithmetic that wraps at the limb size. */
module IntDiv {
  import opened Arith
  import opened Limbs
  import opened Mpi
  import opened Shift

  function WAdd(x: int, y: int): Limb { Wrap(x + y) }

  function WSub(x: int, y: int): Limb { Wrap(x - y) }

  function WMul(x: int, y: int): Limb { Wrap(x * y) }

  /** u*r + (m - q*d), whatever the intermediate wraps, if the true value is a limb. */
  lemma WrappedRemainder(u: int, r: int, m: int, q: int, d: int)
    requires 0 <= u * r + m - q * d < BASE
    ensures WAdd(WMul(u, r), WSub(m, WMul(q, d))) == u * r + m - q * d
    ensures WSub(WAdd(WMul(u, r), m), WMul(q, d)) == u * r + m - q * d
  {
    hide Wrap;
    var x, z := u * r, q * d;
    assert Wrap(Wrap(x) + Wrap(m - Wrap(z))) == x + m - z by { DifferenceFirst(x, m, z); }
    assert Wrap(Wrap(Wrap(x) + m) - Wrap(z)) == x + m - z by { SumFirst(x, m, z); }
  }

  lemma DifferenceFirst(x: int, m: int, z: int)
    requires 0 <= x + m - z < BASE
    ensures Wrap(Wrap(x) + Wrap(m - Wrap(z))) == x + m - z
  {
    hide Wrap, Cong;
    var a: int, c: int := Wrap(x), Wrap(z);
    var e: int := Wrap(m - c);
    CongWrap(x);
    CongWrap(z);
    CongWrap(m - c);
    CongRefl(m, BASE);
    CongSub(m, m, c, z, BASE);
    CongTrans(e, m - c, m - z, BASE);
    CongAdd(a, x, e, m - z, BASE);
    WrapUnique(a + e, x + m - z);
  }

  lemma SumFirst(x: int, m: int, z: int)
    requires 0 <= x + m - z < BASE
    ensures Wrap(Wrap(Wrap(x) + m) - Wrap(z)) == x + m - z
  {
    hide Wrap, Cong;
    var a: int, c: int := Wrap(x), Wrap(z);
    var e: int := Wrap(a + m);
    CongWrap(x);
    CongWrap(z);
    CongWrap(a + m);
    CongRefl(m, BASE);
    CongAdd(a, x, m, m, BASE);
    CongTrans(e, a + m, x + m, BASE);
    CongSub(e, x + m, c, z, BASE);
    WrapUnique(e - c, x + m - z);
  }

  /** The remainder a trial digit q leaves, with u = q*d1 + r0. */
  lemma TrialRemainder(u: int, x: int, d1: int, d0: int, q: int, r0: int)
    requires u == q * d1 + r0
    ensures u * RADIX + x - q * (d1 * RADIX + d0) == RADIX * r0 + x - q * d0
  {
    Distr(q * d1, r0, RADIX);
    Distr(d1 * RADIX, d0, q);
    Assoc(q, d1, RADIX);
  }

  lemma QuotientAtLeast(a: int, d: int, q: int)
    requires 0 < d && q * d <= a
    ensures q <= a / d
  {
    DivGe(a, q, d);
  }

  lemma QuotientBelow(a: int, d: int, q: int)
    requires 0 < d && a < q * d
    ensures a / d < q
  {
    DivLess(a, q, d);
  }

  /** The first trial digit is never too small. */
  lemma FirstTrialAtLeast(u: int, x: int, d1: int, d0: int, r: int, Q: int)
    requires 0 < r && 0 < d1 && 0 <= d0 && 0 <= x < r && 0 <= Q
    requires Q * (d1 * r + d0) <= u * r + x
    ensures Q <= u / d1
  {
    Distr(d1 * r, d0, Q);
    Assoc(Q, d1, r);
    MulNonneg(Q, d0);
    Distr(u, 1, r);
    MulCancelLess(Q * d1, u + 1, r);
    DivGe(u, Q, d1);
  }

  /** With a normalized divisor it exceeds the radix by at most one. */
  lemma FirstTrialAtMost(u: int, d1: int, d0: int, r: int)
    requires 0 < d1 && r <= 2 * d1 && 0 <= d0 < r && 0 <= u < d1 * r + d0
    ensures u / d1 <= r + 1
  {
    Distr(r, 2, d1);
    DivLess(u, r + 2, d1);
  }

  lemma DigitBelowRadix(u: int, x: int, d: int, r: int)
    requires 0 <= u < d && 0 <= x < r
    ensures 0 <= (u * r + x) / d < r
  {
    MulMono(u + 1, d, r);
    Distr(u, 1, r);
    MulNonneg(u, r);
    DivLess(u * r + x, r, d);
    DivGe(u * r + x, 0, d);
  }

  lemma FirstTrial(u: Limb, x: int, d: Limb, d1: int, d0: int)
    requires d == d1 * RADIX + d0 && RADIX <= 2 * d1 && d1 < RADIX
    requires 0 <= d0 < RADIX && 0 <= x < RADIX && u < d
    ensures 0 <= (u * RADIX + x) / d <= u / d1 <= RADIX + 1 < BASE
    ensures (u * RADIX + x) / d < RADIX
    ensures u == (u / d1) * d1 + u % d1 && 0 <= u % d1 < d1
    ensures WSub(u, WMul(d1, u / d1)) == u % d1
  {
    BaseFacts();
    DigitBelowRadix(u, x, d, RADIX);
    DivMod(u * RADIX + x, d);
    FirstTrialAtLeast(u, x, d1, d0, RADIX, (u * RADIX + x) / d);
    FirstTrialAtMost(u, d1, d0, RADIX);
    DivMod(u, d1);
    MulMono(2, RADIX, RADIX);
  }

  /** One half-word quotient digit: Knuth's trial division by the high half, then correction. */
  method HalfDigit(u: Limb, x: int, d: Limb, d1: int, d0: int) returns (q: int)
    requires d == d1 * RADIX + d0 && RADIX <= 2 * d1 && d1 < RADIX
    requires 0 <= d0 < RADIX && 0 <= x < RADIX && u < d
    ensures q == (u * RADIX + x) / d && 0 <= q < RADIX
  {
    hide Wrap, WAdd, WSub, WMul;
    BaseFacts();
    FirstTrial(u, x, d, d1, d0);
    ghost var Q := (u * RADIX + x) / d;
    q := u / d1;
    var r0: int := WSub(u, WMul(d1, q));
    while q >= RADIX || WMul(q, d0) > WAdd(WMul(RADIX, r0), x)
      invariant Q <= q <= RADIX + 1
      invariant 0 <= r0 < RADIX && u == q * d1 + r0
      decreases q
    {
      TrialTooBig(u, x, d, d1, d0, q, r0);
      Distr(q - 1, 1, d1);
      NoWrapAdd(r0, d1);
      q := q - 1;
      r0 := WAdd(r0, d1);
      if r0 >= RADIX { break; }
    }
    TrialSmallEnough(u, x, d, d1, d0, q, r0);
  }

  lemma NoWrapAdd(x: int, y: int)
    requires 0 <= x < RADIX && 0 <= y < RADIX
    ensures WAdd(x, y) == x + y
  {
    BaseFacts();
    MulMono(2, RADIX, RADIX);
  }

  lemma HalfNoWrap(q: int, d0: int, r0: int, x: int)
    requires 0 <= q < RADIX && 0 <= d0 < RADIX && 0 <= r0 < RADIX && 0 <= x < RADIX
    ensures WMul(q, d0) == q * d0
    ensures WAdd(WMul(RADIX, r0), x) == RADIX * r0 + x
  {
    BaseFacts();
    HalfProductFits(q, d0);
    MulMono(r0, RADIX - 1, RADIX);
    Distr(RADIX, 1, RADIX);
    MulNonneg(RADIX, r0);
  }

  lemma TrialTooBig(u: Limb, x: int, d: Limb, d1: int, d0: int, q: int, r0: int)
    requires d == d1 * RADIX + d0 && 0 < d && 0 <= d0 < RADIX && 0 <= x < RADIX
    requires u == q * d1 + r0 && 0 <= r0 < RADIX && 0 <= q
    requires q >= RADIX || WMul(q, d0) > WAdd(WMul(RADIX, r0), x)
    requires (u * RADIX + x) / d < RADIX
    ensures (u * RADIX + x) / d < q
  {
    if q < RADIX {
      HalfNoWrap(q, d0, r0, x);
      TrialRemainder(u, x, d1, d0, q, r0);
      QuotientBelow(u * RADIX + x, d, q);
    }
  }

  lemma TrialSmallEnough(u: Limb, x: int, d: Limb, d1: int, d0: int, q: int, r0: int)
    requires d == d1 * RADIX + d0 && 0 < d && 0 <= d0 < RADIX && 0 <= x < RADIX
    requires u == q * d1 + r0 && 0 <= r0 && 0 <= q
    requires r0 >= RADIX ==> q <= RADIX
    requires r0 >= RADIX || (q < RADIX && WMul(q, d0) <= WAdd(WMul(RADIX, r0), x))
    ensures q <= (u * RADIX + x) / d
  {
    if r0 >= RADIX {
      MulMono(q, RADIX, d0);
      MulMono(d0, r0, RADIX);
    } else {
      HalfNoWrap(q, d0, r0, x);
    }
    TrialRemainder(u, x, d1, d0, q, r0);
    QuotientAtLeast(u * RADIX + x, d, q);
  }

  lemma ShlExact(x: Limb, k: nat)
    requires x * Pow2(k) < BASE
    ensures Shl(x, k) == x * Pow2(k)
  {
    MulNonneg(x, Pow2(k));
  }

  /** Shifting divisor and dividend left until the divisor's top bit is set. */
  lemma NormalizeDivisor(d: Limb, s: nat)
    requires d > 0 && s <= biL && IsBitLen(d, biL - s)
    ensures s < biL && Shl(d, s) == d * Pow2(s) && BASE <= 2 * (d * Pow2(s))
  {
    hide Pow2, Shl;
    Pow2Zero();
    Pow2Add(biL - s, s);
    MulLess(d, Pow2(biL - s), Pow2(s));
    ShlExact(d, s);
    Pow2Add(biL - s - 1, s);
    Pow2Succ(biL - 1);
    MulMono(Pow2(biL - s - 1), d, Pow2(s));
  }

  /** The high bits of u0 that enter u1, masked away when s is zero. */
  function CarryBits(u0: Limb, s: nat): int
    requires s <= biL
  {
    if s == 0 then 0 else Shr(u0, biL - s)
  }

  /** The number in two limbs, and in two half limbs. */
  function Two(hi: int, lo: int): int { hi * BASE + lo }

  function Halves(q1: int, q0: int): int { q1 * RADIX + q0 }

  lemma NormalizeDividend(u1: Limb, u0: Limb, d: Limb, s: nat)
    requires s < biL && u1 < d && d * Pow2(s) < BASE
    ensures 0 <= Shl(u1, s) + CarryBits(u0, s) < d * Pow2(s)
    ensures Two(Shl(u1, s) + CarryBits(u0, s), Shl(u0, s)) == Two(u1, u0) * Pow2(s)
  {
    hide Pow2, Shl, Shr;
    var m := Pow2(s);
    MulLess(u1, d, m);
    ShlExact(u1, s);
    if s == 0 {
      Pow2Zero();
      ShlExact(u0, 0);
    } else {
      ShiftUpLimb(u0, s, 0);
    }
    Distr(u1 * m, CarryBits(u0, s), BASE);
    Distr(u1 * BASE, u0, m);
    Assoc(u1, m, BASE);
  }

  lemma SplitHalves(x: Limb)
    ensures Shr(x, biH) == x / RADIX
    ensures x == (x / RADIX) * RADIX + x % RADIX
    ensures 0 <= x % RADIX < RADIX && 0 <= x / RADIX < RADIX
    ensures BASE <= 2 * x ==> RADIX <= 2 * (x / RADIX)
  {
    HalfWords(x);
    if BASE <= 2 * x {
      BaseFacts();
      TopHalfLarge(x, x / RADIX, x % RADIX, Pow2(biH - 1));
    }
  }

  lemma TopHalfLarge(x: int, q: int, rem: int, h: int)
    requires (2 * h) * (2 * h) <= 2 * x && x == q * (2 * h) + rem && rem < 2 * h && 0 < h
    ensures 2 * h <= 2 * q
  {
    assert (2 * h) * (2 * h) == 2 * (h * (2 * h));
    Distr(q, 1, 2 * h);
    MulCancelLess(h, q + 1, 2 * h);
  }

  /** Two half digits make the quotient of the whole. */
  lemma TwoDigits(u1: int, x: int, y: int, d: int, q1: int, rax: int, q0: int)
    requires 0 < d && rax == u1 * RADIX + x - q1 * d && 0 <= x && 0 <= y
    ensures Two(u1, Halves(x, y)) - Halves(q1, q0) * d == rax * RADIX + y - q0 * d
  {
    BaseFacts();
    Distr(u1 * RADIX + x, q1 * d, RADIX);
    Distr(u1 * RADIX, x, RADIX);
    Assoc(u1, RADIX, RADIX);
    Distr(q1 * RADIX, q0, d);
    Assoc(q1, RADIX, d);
  }

  /** Undoing the normalization. */
  lemma Denormalize(n: int, d: int, m: int, v: int, e: int, q: int, r: int)
    requires 0 < d && 0 < m && v == n * m && e == d * m && v - q * e == r && 0 <= r < e
    ensures q == n / d && r / m == n % d
  {
    Distr(n, q * d, m);
    Assoc(q, d, m);
    var x := n - q * d;
    if x < 0 { MulMono(x, -1, m); }
    MulCancelLess(x, d, m);
    DivUnique(n, d, q, x);
    DivUnique(r, m, x, 0);
  }

  lemma DigitRemainder(u: int, x: int, d: int, q: int)
    requires 0 < d && q == (u * RADIX + x) / d
    ensures 0 <= u * RADIX + x - q * d < d
  {
    DivMod(u * RADIX + x, d);
  }

  /** The normalized division: d has its top bit set and u1 is below it. */
  method DivNormalized(u1: Limb, u0: Limb, d: Limb) returns (q1: int, q0: int, rem: Limb)
    requires u1 < d && BASE <= 2 * d
    ensures 0 <= q1 < RADIX && 0 <= q0 < RADIX && rem < d
    ensures Two(u1, u0) - Halves(q1, q0) * d == rem
  {
    hide Wrap, WAdd, WSub, WMul, Shr;
    SplitHalves(d);
    SplitHalves(u0);
    var d1, d0 := Shr(d, biH), d % RADIX;
    var msw, lsw := Shr(u0, biH), u0 % RADIX;
    q1 := HalfDigit(u1, msw, d, d1, d0);
    DigitRemainder(u1, msw, d, q1);
    WrappedRemainder(u1, RADIX, msw, q1, d);
    var rAX := WAdd(WMul(u1, RADIX), WSub(msw, WMul(q1, d)));
    q0 := HalfDigit(rAX, lsw, d, d1, d0);
    DigitRemainder(rAX, lsw, d, q0);
    WrappedRemainder(rAX, RADIX, lsw, q0, d);
    rem := WSub(WAdd(WMul(rAX, RADIX), lsw), WMul(q0, d));
    TwoDigits(u1, msw, lsw, d, q1, rAX, q0);
  }

  lemma JoinHalves(q1: int, q0: int)
    requires 0 <= q1 < RADIX && 0 <= q0 < RADIX
    ensures WAdd(WMul(q1, RADIX), q0) == Halves(q1, q0)
  {
    BaseFacts();
    MulNonneg(q1, RADIX);
    MulMono(q1, RADIX - 1, RADIX);
    Distr(RADIX, 1, RADIX);
  }

  method DivBelow(u1: Limb, u0: Limb, d: Limb) returns (quotient: Limb, r: Limb)
    requires u1 < d
    ensures quotient == Two(u1, u0) / d && r == Two(u1, u0) % d
  {
    hide Wrap, WAdd, WMul, Shl, Shr, Pow2, CarryBits, IsBitLen, Two, Halves;
    var s := Clz(d);
    NormalizeDivisor(d, s);
    NormalizeDividend(u1, u0, d, s);
    var v1: Limb, v0, e := Shl(u1, s) + CarryBits(u0, s), Shl(u0, s), Shl(d, s);
    var q1, q0, rem := DivNormalized(v1, v0, e);
    JoinHalves(q1, q0);
    quotient := WAdd(WMul(q1, RADIX), q0);
    r := ShrOf(rem, s);
    Denormalize(Two(u1, u0), d, Pow2(s), Two(v1, v0), e, quotient, rem);
  }

  /** mbedtls_int_div_int: the two-limb number u1:u0 divided by d. */
  method IntDivInt(u1: Limb, u0: Limb, d: Limb) returns (quotient: Limb, r: Limb)
    ensures d == 0 || u1 >= d ==> quotient == BASE - 1 == r
    ensures u1 < d ==> quotient == (u1 * BASE + u0) / d && r == (u1 * BASE + u0) % d
  {
    if d == 0 || u1 >= d { return BASE - 1, BASE - 1; }
    quotient, r := DivBelow(u1, u0, d);
  }

  method ShrOf(x: Limb, k: nat) returns (r: Limb)
    ensures r == x / Pow2(k)
  {
    r := Shr(x, k);
  }
}
