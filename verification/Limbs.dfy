/** Machine words of the big-number code and the integer denoted by a row of them. */
module Limbs {
  import opened Arith

  /** A limb has 32 or 64 bits; which one is left open, so every result holds for both. */
  type LimbBits = w: nat | w == 32 || w == 64 witness 32
  const biL: LimbBits
  const biH: nat := biL / 2
  const RADIX: int := Pow2(biH)
  const BASE: int := Pow2(biL)

  type Limb = x: int | 0 <= x < BASE

  /** Unsigned arithmetic wraps modulo the base. */
  function Wrap(x: int): (r: Limb)
    ensures 0 <= x < BASE ==> r == x
    ensures BASE <= x < 2 * BASE ==> r == x - BASE
    ensures -BASE <= x < 0 ==> r == x + BASE
  {
    WrapCases(x);
    x % BASE
  }

  lemma WrapCases(x: int)
    ensures 0 <= x < BASE ==> x % BASE == x
    ensures BASE <= x < 2 * BASE ==> x % BASE == x - BASE
    ensures -BASE <= x < 0 ==> x % BASE == x + BASE
  {
    if 0 <= x < BASE { DivUnique(x, BASE, 0, x); }
    if BASE <= x < 2 * BASE { DivUnique(x, BASE, 1, x - BASE); }
    if -BASE <= x < 0 { DivUnique(x, BASE, -1, x + BASE); }
  }

  lemma BaseFacts()
    ensures RADIX * RADIX == BASE
    ensures RADIX >= 65536 && RADIX == 2 * Pow2(biH - 1)
    ensures BASE >= 0x1_0000_0000 && BASE == 2 * Pow2(biL - 1)
  {
    assert Pow2(16) == 65536 by { Pow2Add(8, 8); assert Pow2(8) == 256; }
    Pow2Mono(16, biH);
    assert biL == biH + biH;
    Pow2Add(biH, biH);
    MulMono(65536, RADIX, RADIX);
  }

  lemma CongWrap(x: int)
    ensures Cong(Wrap(x), x, BASE)
  {
    CongMod(x, BASE);
  }

  /** A value that is a limb is what any congruent number wraps to. */
  lemma WrapUnique(x: int, y: int)
    requires Cong(x, y, BASE) && 0 <= y < BASE
    ensures Wrap(x) == y
  {
    hide Cong;
    CongWrap(x);
    CongTrans(Wrap(x), x, y, BASE);
    CongUnique(Wrap(x), y, BASE);
    DivUnique(y, BASE, 0, y);
  }

  /** BASE^i */
  function Bp(i: nat): (r: nat)
    ensures r >= 1
  {
    IPow(BASE, i)
  }

  lemma BpAdd(i: nat, j: nat)
    ensures Bp(i + j) == Bp(i) * Bp(j)
  {
    IPowAdd(BASE, i, j);
  }

  lemma BpSucc(i: nat)
    ensures Bp(i + 1) == BASE * Bp(i)
    ensures Bp(0) == 1 && Bp(1) == BASE
  {
    assert IPow(BASE, 1) == BASE * IPow(BASE, 0);
  }

  lemma {:induction false} BpMono(i: nat, j: nat)
    requires i <= j
    ensures Bp(i) <= Bp(j)
  {
    BpAdd(i, j - i);
    MulMono(1, Bp(j - i), Bp(i));
  }

  /** The integer denoted by the limbs, least significant first. */
  function Val(s: seq<Limb>): nat
  {
    if |s| == 0 then 0 else (MulNonneg(BASE, Val(s[1..])); s[0] + BASE * Val(s[1..]))
  }

  lemma {:induction false} ValSplit(s: seq<Limb>, i: nat)
    requires i <= |s|
    ensures Val(s) == Val(s[..i]) + Bp(i) * Val(s[i..])
  {
    if i == 0 {
      assert s[0..] == s && s[..0] == [];
    } else {
      var t := s[1..];
      ValSplit(t, i - 1);
      assert s[..i][1..] == t[..i - 1];
      assert s[i..] == t[i - 1..];
      assert s[..i][0] == s[0];
      BpSucc(i - 1);
      Distr(Val(t[..i - 1]), Bp(i - 1) * Val(t[i - 1..]), BASE);
      Assoc(BASE, Bp(i - 1), Val(t[i - 1..]));
    }
  }

  lemma ValOne(x: Limb)
    ensures Val([x]) == x
  {
    assert [x][1..] == [];
  }

  /** One more limb of a prefix. */
  lemma ValStep(s: seq<Limb>, i: nat)
    requires i < |s|
    ensures Val(s[..i + 1]) == Val(s[..i]) + s[i] * Bp(i)
  {
    hide Val, Bp;
    var t := s[..i + 1];
    ValSplit(t, i);
    assert t[..i] == s[..i] && t[i..] == [s[i]];
    ValOne(s[i]);
  }

  lemma ValHead(s: seq<Limb>, i: nat)
    requires i < |s|
    ensures Val(s[i..]) == s[i] + BASE * Val(s[i + 1..])
  {
    assert s[i..][1..] == s[i + 1..];
  }

  lemma {:induction false} ValUpdate(s: seq<Limb>, i: nat, v: Limb)
    requires i < |s|
    ensures Val(s[i := v]) == Val(s) + (v - s[i]) * Bp(i)
  {
    hide Val, Bp;
    var t := s[i := v];
    ValSplit(s, i);
    ValSplit(t, i);
    assert s[..i] == t[..i] && s[i + 1..] == t[i + 1..];
    ValHead(s, i);
    ValHead(t, i);
    assert t[i] == v;
    Distr(s[i], BASE * Val(s[i + 1..]), Bp(i));
    Distr(v, BASE * Val(s[i + 1..]), Bp(i));
    Distr(v, s[i], Bp(i));
  }

  lemma ValCons(s: seq<Limb>)
    requires |s| > 0
    ensures Val(s) == s[0] + BASE * Val(s[1..])
  {}

  lemma DigitBelow(x: Limb, v: nat, w: nat)
    requires v < w
    ensures x + BASE * v < BASE * w
  {
    MulMono(v + 1, w, BASE);
    Distr(v, 1, BASE);
  }

  lemma ValEmpty()
    ensures Val([]) == 0
  {}

  lemma {:induction false} ValBound(s: seq<Limb>)
    ensures Val(s) < Bp(|s|)
  {
    hide Val, Bp;
    if |s| == 0 {
      ValEmpty();
    } else {
      ValBound(s[1..]);
      ValCons(s);
      BpSucc(|s| - 1);
      DigitBelow(s[0], Val(s[1..]), Bp(|s| - 1));
    }
  }

  lemma {:induction false} ValZeros(s: seq<Limb>)
    requires forall k :: 0 <= k < |s| ==> s[k] == 0
    ensures Val(s) == 0
  {
    if |s| != 0 { ValZeros(s[1..]); }
  }

  /** Limbs above i that are all zero do not count. */
  lemma ValTop(s: seq<Limb>, i: nat)
    requires i <= |s| && forall k :: i <= k < |s| ==> s[k] == 0
    ensures Val(s) == Val(s[..i])
  {
    ValSplit(s, i);
    ValZeros(s[i..]);
  }

  lemma ValHigh(s: seq<Limb>, i: nat)
    requires i <= |s|
    ensures Val(s) / Bp(i) == Val(s[i..])
    ensures Val(s) % Bp(i) == Val(s[..i])
  {
    hide Val, Bp;
    ValSplit(s, i);
    ValBound(s[..i]);
    DivUnique(Val(s), Bp(i), Val(s[i..]), Val(s[..i]));
  }

  /** Number of limbs up to the highest nonzero one. */
  function Sig(s: seq<Limb>): (n: nat)
    ensures n <= |s|
    ensures n > 0 ==> s[n - 1] != 0
    ensures forall k :: n <= k < |s| ==> s[k] == 0
  {
    if |s| == 0 then 0
    else if s[|s| - 1] != 0 then |s|
    else Sig(s[..|s| - 1])
  }

  lemma ValSig(s: seq<Limb>)
    ensures Val(s) == Val(s[..Sig(s)])
    ensures Val(s) < Bp(Sig(s))
    ensures Sig(s) > 0 ==> Bp(Sig(s) - 1) <= Val(s)
    ensures Val(s) == 0 <==> Sig(s) == 0
  {
    var n := Sig(s);
    ValTop(s, n);
    ValBound(s[..n]);
    if n > 0 {
      ValStep(s, n - 1);
      MulMono(1, s[n - 1], Bp(n - 1));
    }
  }

  /** A value below BASE^n needs at most n limbs. */
  lemma SigBound(s: seq<Limb>, n: nat)
    ensures Val(s) < Bp(n) <==> Sig(s) <= n
  {
    ValSig(s);
    if Sig(s) <= n { BpMono(Sig(s), n); }
    else { BpMono(n, Sig(s) - 1); }
  }

  function Zeros(n: nat): (s: seq<Limb>)
    ensures |s| == n && forall k :: 0 <= k < n ==> s[k] == 0
  {
    seq(n, _ => 0)
  }

  lemma ValAppendZeros(s: seq<Limb>, n: nat)
    ensures Val(s + Zeros(n)) == Val(s)
  {
    ValTop(s + Zeros(n), |s|);
    assert (s + Zeros(n))[..|s|] == s;
  }

  lemma ParityOfSum(v: int, x: int, h: int)
    requires v == x + 2 * h
    ensures v % 2 == x % 2
  {}

  lemma ValParity(s: seq<Limb>)
    requires |s| > 0
    ensures s[0] % 2 == Val(s) % 2
  {
    assert BASE == 2 * Pow2(biL - 1);
    Assoc(2, Pow2(biL - 1), Val(s[1..]));
    ParityOfSum(Val(s), s[0], Pow2(biL - 1) * Val(s[1..]));
  }
}
