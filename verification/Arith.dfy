/** Integer facts used by every bignum proof: products, powers, divisibility and congruence. */
module Arith {

  /** Multiplication behind a name, so that existentials over a factor have a trigger. */
  function Times(k: int, d: int): int { k * d }

  ghost predicate Divides(d: int, a: int) {
    exists k :: Times(k, d) == a
  }

  /** a and b leave the same residue modulo m. */
  ghost predicate Cong(a: int, b: int, m: int) {
    Divides(m, a - b)
  }

  function IPow(a: int, e: nat): (r: int)
    ensures a > 0 ==> r > 0
  {
    if e == 0 then 1 else a * IPow(a, e - 1)
  }

  function Pow2(n: nat): (r: nat)
    ensures r >= 1
  {
    if n == 0 then 1 else 2 * Pow2(n - 1)
  }

  function Abs(x: int): nat { if x < 0 then -x else x }

  function Max(x: int, y: int): int { if x < y then y else x }

  function Min(x: int, y: int): int { if x < y then x else y }

  // ---- products ----

  lemma MulMono(x: int, y: int, z: int)
    requires x <= y && 0 <= z
    ensures x * z <= y * z
  {
    assert (y - x) * z >= 0;
  }

  lemma MulLess(x: int, y: int, z: int)
    requires x < y && 0 < z
    ensures x * z < y * z
    ensures x * z + z <= y * z
  {
    MulMono(x + 1, y, z);
    assert (x + 1) * z == x * z + z;
  }

  lemma MulCancelLess(x: int, y: int, z: int)
    requires x * z < y * z && 0 < z
    ensures x < y
  {
    if y <= x { MulMono(y, x, z); }
  }

  lemma MulCancelLe(x: int, y: int, z: int)
    requires x * z <= y * z && 0 < z
    ensures x <= y
  {
    if y < x { MulLess(y, x, z); }
  }

  lemma MulCancel(x: int, y: int, z: int)
    requires x * z == y * z && 0 < z
    ensures x == y
  {
    MulCancelLe(x, y, z);
    MulCancelLe(y, x, z);
  }

  lemma Distr(x: int, y: int, z: int)
    ensures (x + y) * z == x * z + y * z
    ensures z * (x + y) == z * x + z * y
    ensures (x - y) * z == x * z - y * z
    ensures z * (x - y) == z * x - z * y
  {}

  lemma Assoc(x: int, y: int, z: int)
    ensures x * (y * z) == (x * y) * z
    ensures x * (y * z) == y * (x * z)
    ensures x * (y * z) == (x * z) * y
  {}

  lemma MulPos(x: int, y: int)
    requires 0 < x && 0 < y
    ensures 0 < x * y
    ensures x <= x * y && y <= x * y
  {
    MulMono(1, y, x);
    MulMono(1, x, y);
  }

  lemma MulNonneg(x: int, y: int)
    requires 0 <= x && 0 <= y
    ensures 0 <= x * y
  {}

  // ---- quotient and remainder ----

  lemma DivMod(a: int, d: int)
    requires 0 < d
    ensures a == (a / d) * d + a % d
    ensures 0 <= a % d < d
    ensures 0 <= a ==> 0 <= a / d
  {}

  lemma DivUnique(a: int, d: int, q: int, r: int)
    requires 0 < d && a == q * d + r && 0 <= r < d
    ensures a / d == q && a % d == r
  {
    DivMod(a, d);
    var q' := a / d;
    Distr(q, q', d);
    if q < q' { MulMono(q + 1, q', d); Distr(q, 1, d); }
    if q' < q { MulMono(q' + 1, q, d); Distr(q', 1, d); }
  }

  lemma ModOfMultiple(k: int, d: int, r: int)
    requires 0 < d && 0 <= r < d
    ensures (k * d + r) % d == r
    ensures (k * d + r) / d == k
  {
    DivUnique(k * d + r, d, k, r);
  }

  /** Nested floor division. */
  lemma DivDiv(a: nat, x: int, y: int)
    requires 0 < x && 0 < y
    ensures 0 < x * y
    ensures a / x / y == a / (x * y)
  {
    MulPos(x, y);
    DivMod(a, x);
    var q := a / x;
    DivMod(q, y);
    var r := (q % y) * x + a % x;
    calc {
      a;
      q * x + a % x;
      ((q / y) * y + q % y) * x + a % x;
      { Distr((q / y) * y, q % y, x); }
      ((q / y) * y) * x + (q % y) * x + a % x;
      { Assoc(q / y, x, y); }
      (q / y) * (x * y) + r;
    }
    MulMono(q % y, y - 1, x);
    MulNonneg(q % y, x);
    Distr(y, 1, x);
    DivUnique(a, x * y, q / y, r);
  }

  lemma DivMono(a: int, b: int, d: int)
    requires a <= b && 0 < d
    ensures a / d <= b / d
  {
    DivMod(a, d);
    DivMod(b, d);
    if b / d < a / d {
      MulMono(b / d + 1, a / d, d);
      Distr(b / d, 1, d);
    }
  }

  lemma DivLess(a: int, b: int, d: int)
    requires 0 < d && a < b * d
    ensures a / d < b
  {
    DivMod(a, d);
    if b <= a / d { MulMono(b, a / d, d); }
  }

  lemma DivGe(a: int, b: int, d: int)
    requires 0 < d && b * d <= a
    ensures b <= a / d
  {
    DivMod(a, d);
    if a / d < b { MulMono(a / d + 1, b, d); Distr(a / d, 1, d); }
  }

  // ---- powers ----

  lemma {:induction false} Pow2Add(m: nat, n: nat)
    ensures Pow2(m + n) == Pow2(m) * Pow2(n)
  {
    if m != 0 {
      Pow2Add(m - 1, n);
      Assoc(2, Pow2(m - 1), Pow2(n));
      assert Pow2(m + n) == 2 * Pow2(m - 1 + n);
    }
  }

  lemma {:induction false} Pow2Mono(m: nat, n: nat)
    requires m <= n
    ensures Pow2(m) <= Pow2(n)
  {
    if m < n { Pow2Mono(m, n - 1); }
  }

  lemma {:induction false} IPowAdd(a: int, m: nat, n: nat)
    ensures IPow(a, m + n) == IPow(a, m) * IPow(a, n)
  {
    if m != 0 {
      IPowAdd(a, m - 1, n);
      Assoc(a, IPow(a, m - 1), IPow(a, n));
      assert IPow(a, m + n) == a * IPow(a, m - 1 + n);
    }
  }

  // ---- divisibility and congruence ----

  lemma DividesIntro(d: int, k: int, a: int)
    requires a == k * d
    ensures Divides(d, a)
  {
    assert Times(k, d) == a;
  }

  lemma DividesElim(d: int, a: int) returns (k: int)
    requires Divides(d, a)
    ensures a == k * d
  {
    k :| Times(k, d) == a;
  }

  lemma DividesLinear(d: int, a: int, b: int, x: int, y: int)
    requires Divides(d, a) && Divides(d, b)
    ensures Divides(d, x * a + y * b)
  {
    var i := DividesElim(d, a);
    var j := DividesElim(d, b);
    Assoc(x, i, d);
    Assoc(y, j, d);
    Distr(x * i, y * j, d);
    DividesIntro(d, x * i + y * j, x * a + y * b);
  }

  lemma DividesLe(d: int, a: int)
    requires Divides(d, a) && 0 < d && 0 < a
    ensures d <= a
  {
    var k := DividesElim(d, a);
    if k <= 0 { MulMono(k, 0, d); }
    MulMono(1, k, d);
  }

  lemma CongIntro(a: int, b: int, m: int, k: int)
    requires a == b + k * m
    ensures Cong(a, b, m)
  {
    DividesIntro(m, k, a - b);
  }

  lemma CongElim(a: int, b: int, m: int) returns (k: int)
    requires Cong(a, b, m)
    ensures a == b + k * m
  {
    k := DividesElim(m, a - b);
  }

  lemma CongRefl(a: int, m: int)
    ensures Cong(a, a, m)
  {
    CongIntro(a, a, m, 0);
  }

  lemma CongSym(a: int, b: int, m: int)
    requires Cong(a, b, m)
    ensures Cong(b, a, m)
  {
    var k := CongElim(a, b, m);
    assert (-k) * m == -(k * m);
    CongIntro(b, a, m, -k);
  }

  lemma CongTrans(a: int, b: int, c: int, m: int)
    requires Cong(a, b, m) && Cong(b, c, m)
    ensures Cong(a, c, m)
  {
    var i := CongElim(a, b, m);
    var j := CongElim(b, c, m);
    Distr(i, j, m);
    CongIntro(a, c, m, i + j);
  }

  lemma CongAdd(a: int, b: int, c: int, d: int, m: int)
    requires Cong(a, b, m) && Cong(c, d, m)
    ensures Cong(a + c, b + d, m)
  {
    var i := CongElim(a, b, m);
    var j := CongElim(c, d, m);
    Distr(i, j, m);
    CongIntro(a + c, b + d, m, i + j);
  }

  lemma CongSub(a: int, b: int, c: int, d: int, m: int)
    requires Cong(a, b, m) && Cong(c, d, m)
    ensures Cong(a - c, b - d, m)
  {
    var i := CongElim(a, b, m);
    var j := CongElim(c, d, m);
    Distr(i, j, m);
    CongIntro(a - c, b - d, m, i - j);
  }

  lemma CongScale(a: int, b: int, c: int, m: int)
    requires Cong(a, b, m)
    ensures Cong(a * c, b * c, m)
    ensures Cong(c * a, c * b, m)
  {
    var i := CongElim(a, b, m);
    Distr(b, i * m, c);
    Assoc(i, m, c);
    CongIntro(a * c, b * c, m, i * c);
  }

  lemma CongMul(a: int, b: int, c: int, d: int, m: int)
    requires Cong(a, b, m) && Cong(c, d, m)
    ensures Cong(a * c, b * d, m)
  {
    CongScale(a, b, c, m);
    CongScale(c, d, b, m);
    CongTrans(a * c, b * c, b * d, m);
  }

  /** A congruent value inside [0, m) is the residue. */
  lemma CongUnique(a: int, b: int, m: int)
    requires 0 < m && Cong(a, b, m) && 0 <= a < m
    ensures a == b % m
  {
    CongSym(a, b, m);
    var k := CongElim(b, a, m);
    DivUnique(b, m, k, a);
  }

  lemma CongMod(a: int, m: int)
    requires 0 < m
    ensures Cong(a % m, a, m) && Cong(a, a % m, m)
  {
    DivMod(a, m);
    CongIntro(a, a % m, m, a / m);
    CongSym(a, a % m, m);
  }

  // ---- greatest common divisor ----

  /** g is the greatest common divisor of a and b (0 when both are 0). */
  ghost predicate IsGcd(g: int, a: int, b: int) {
    g >= 0 && Divides(g, a) && Divides(g, b) &&
    forall d :: Divides(d, a) && Divides(d, b) ==> Divides(d, g)
  }

  lemma GcdUnique(g: int, h: int, a: int, b: int)
    requires IsGcd(g, a, b) && IsGcd(h, a, b)
    ensures g == h
  {
    assert Divides(g, h) && Divides(h, g);
    if g == 0 { var k := DividesElim(g, h); }
    else if h == 0 { var k := DividesElim(h, g); }
    else { DividesLe(g, h); DividesLe(h, g); }
  }
}
