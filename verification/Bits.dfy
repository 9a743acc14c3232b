/** Powers of two on machine words. */
module Bits {
  import opened Common

  function Pow2(n: nat): (r: nat)
    ensures r >= 1
  {
    if n == 0 then 1 else 2 * Pow2(n - 1)
  }

  lemma {:induction false} Pow2Add(a: nat, b: nat)
    ensures Pow2(a + b) == Pow2(a) * Pow2(b)
  {
    if a > 0 {
      Pow2Add(a - 1, b);
    }
  }

  lemma Pow2Step(n: nat)
    ensures Pow2(0) == 1 && Pow2(n + 1) == 2 * Pow2(n)
  {
  }

  lemma Pow2Word()
    ensures Pow2(64) == WORD_END && Pow2(63) == WORD_END / 2 && Pow2(62) == WORD_END / 4
  {
    hide Pow2;
    Pow2Step(0);
    Pow2Add(1, 1);
    Pow2Add(2, 2);
    Pow2Add(4, 4);
    Pow2Add(8, 8);
    Pow2Add(16, 16);
    Pow2Add(32, 32);
    Pow2Step(63);
    Pow2Step(62);
  }

  lemma {:induction false} Pow2Less(a: nat, b: nat)
    requires a < b
    ensures 2 * Pow2(a) <= Pow2(b)
  {
    if a + 1 < b {
      Pow2Less(a, b - 1);
    }
  }

  // ---------------------------------------------------------------- quotients by a variable

  lemma {:induction false} AtLeast(p: nat, d: nat)
    ensures d >= 1 ==> p * d >= p
  {
    if d > 1 {
      AtLeast(p, d - 1);
      assert p * d == p * (d - 1) + p;
    }
  }

  lemma Steps(p: nat, x: nat, y: nat)
    ensures x < y ==> p * x + p <= p * y
    ensures y < x ==> p * y + p <= p * x
  {
    if x < y {
      AtLeast(p, y - x);
      assert p * y == p * x + p * (y - x);
    } else if y < x {
      AtLeast(p, x - y);
      assert p * x == p * y + p * (x - y);
    }
  }

  lemma Quotient(a: nat, q: nat, p: nat)
    requires p > 0 && p * q <= a < p * q + p
    ensures a / p == q
  {
    assert a == p * (a / p) + a % p;
    Steps(p, a / p, q);
  }

  lemma DivMod(w: nat, p: nat, q: nat, r: nat)
    requires r < p && w == p * q + r
    ensures w / p == q && w % p == r
  {
    assert w == p * (w / p) + w % p;
    Steps(p, w / p, q);
  }

  lemma Pow2Divides(n: nat)
    requires n <= 64
    ensures WORD_END == Pow2(n) * (WORD_END / Pow2(n))
  {
    Pow2Word();
    Pow2Add(n, 64 - n);
    hide Pow2;
    var p, q := Pow2(n), Pow2(64 - n);
    assert WORD_END == p * q;
    Quotient(WORD_END, q, p);
  }

  // ---------------------------------------------------------------- digits of base 256

  lemma Spread(a: nat, b: nat, q: nat, r: nat, p: nat)
    requires p == a * b
    ensures a * (b * q + r) == p * q + a * r
  {
    assert a * (b * q + r) == a * (b * q) + a * r;
    assert a * (b * q) == (a * b) * q;
  }

  lemma TwoSteps(x: nat, a: nat, b: nat, p: nat, y: nat, q: nat, r1: nat, r2: nat)
    requires a > 0 && b > 0 && p == a * b && x == a * y + r1 && r1 < a && y == b * q + r2 && r2 < b
    ensures p > 0 && x / p == q
  {
    Spread(a, b, q, r2, p);
    Steps(a, r2, b);
    DivMod(x, p, q, a * r2 + r1);
  }

  /** Dividing twice divides by the product. */
  lemma DivDiv(x: nat, a: nat, b: nat, p: nat)
    requires a > 0 && b > 0 && p == a * b
    ensures p > 0 && x / p == x / a / b
  {
    var y := x / a;
    assert x == a * y + x % a;
    var q := y / b;
    assert y == b * q + y % b;
    TwoSteps(x, a, b, p, y, q, x % a, y % b);
  }

  lemma Regroup(m: nat, q: nat, g: nat)
    requires g == 256 * m
    ensures g * q == 256 * (m * q)
  {
  }

  lemma LowDigit(k: nat, d: nat)
    ensures (256 * k + d) % 256 == d % 256
  {
  }

  lemma DigitBelow(x: nat, u: nat, m: nat, g: nat, b: nat, q: nat, lo: nat, d: nat, e: nat)
    requires u > 0 && g == 256 * m && b == u * g && x == b * q + lo && lo == u * d + e && e < u
    ensures x / u % 256 == d % 256
  {
    Spread(u, g, q, d, b);
    var k, n := m * q, g * q + d;
    Regroup(m, q, g);
    assert x == u * n + e;
    DivMod(x, u, n, e);
    LowDigit(k, d);
  }

  lemma Divide(x: nat, p: nat) returns (q: nat, r: nat)
    requires p > 0
    ensures q == x / p && r == x % p && x == p * q + r && r < p
  {
    q, r := x / p, x % p;
  }

  /** A digit below a block boundary depends on what is below the boundary. */
  lemma LowerDigit(x: nat, u: nat, m: nat, g: nat, b: nat)
    requires u > 0 && b > 0 && g == 256 * m && b == u * g
    ensures x / u % 256 == x % b / u % 256
  {
    var q, lo := Divide(x, b);
    var d, e := Divide(lo, u);
    DigitBelow(x, u, m, g, b, q, lo, d, e);
  }

  /** A digit above another depends on what is above that one. */
  lemma UpperDigit(x: nat, u: nat, m: nat, g: nat, b: nat)
    requires u > 0 && m > 0 && g == 256 * m && b == u * g
    ensures b > 0 && x / b == x / u / 256 / m
  {
    DivDiv(x, u, g, b);
    DivDiv(x / u, 256, m, g);
  }
}
