/** Division and remainder of integers by a positive number, and their laws. */
module DivMod {

  lemma MulSign(p: int, d: int)
    requires p > 0
    ensures d >= 1 ==> p * d >= p
    ensures d <= -1 ==> p * d <= -p
  {
  }

  /** Quotient and remainder are determined by the equation they satisfy. */
  lemma DivModUnique(x: int, p: int, q: int, r: int)
    requires p > 0 && x == p * q + r && 0 <= r < p
    ensures x / p == q && x % p == r
  {
    var d := x / p - q;
    assert x == p * (x / p) + x % p;
    assert p * d == r - x % p by {
      assert p * d == p * (x / p) - p * q;
    }
    MulSign(p, d);
  }

  lemma DivModEquation(x: int, p: int)
    requires p > 0
    ensures x == p * (x / p) + x % p && 0 <= x % p < p
  {
  }

  lemma MulMono(a: nat, x: int, y: int)
    requires x <= y
    ensures a * x <= a * y
  {
  }

  lemma DivMono(a: int, b: int, p: int)
    requires a <= b && p > 0
    ensures a / p <= b / p
  {
    DivModEquation(a, p);
    DivModEquation(b, p);
    MulSign(p, a / p - b / p);
  }

  lemma DivShift(x: int, p: int)
    requires p > 0
    ensures (x + p) / p == x / p + 1
  {
    DivModEquation(x, p);
    assert p * (x / p + 1) == p * (x / p) + p;
    DivModUnique(x + p, p, x / p + 1, x % p);
  }

  lemma ModSmall(x: int, p: int)
    requires 0 <= x < p
    ensures x % p == x
  {
    DivModUnique(x, p, 0, x);
  }

  /** Multiples of the modulus do not matter. */
  lemma ModShift(x: int, p: int, k: int)
    requires p > 0
    ensures (x + p * k) % p == x % p
  {
    DivModEquation(x, p);
    var q := x / p + k;
    assert p * q == p * (x / p) + p * k;
    DivModUnique(x + p * k, p, q, x % p);
  }

  lemma ModAdd(x: int, y: int, p: int)
    requires p > 0
    ensures (x % p + y) % p == (x + y) % p
    ensures (y + x % p) % p == (y + x) % p
  {
    DivModEquation(x, p);
    ModShift(x % p + y, p, x / p);
  }

  lemma ModMul(x: int, y: int, p: int)
    requires p > 0
    ensures ((x % p) * y) % p == (x * y) % p
    ensures (y * (x % p)) % p == (y * x) % p
  {
    DivModEquation(x, p);
    var q, r := x / p, x % p;
    assert x * y == r * y + p * (q * y) by {
      assert (p * q + r) * y == p * q * y + r * y;
      assert p * q * y == p * (q * y);
    }
    ModShift(r * y, p, q * y);
    assert x * y == y * x && r * y == y * r;
  }

  /** Powers of an integer. */
  function Pow(b: int, e: nat): int {
    if e == 0 then 1 else b * Pow(b, e - 1)
  }

  lemma {:induction false} PowPositive(b: int, e: nat)
    requires b > 0
    ensures Pow(b, e) > 0
  {
    if e > 0 {
      PowPositive(b, e - 1);
      MulSign(b, Pow(b, e - 1));
    }
  }

  lemma {:induction false} PowMod(b: int, e: nat, p: int)
    requires p > 0
    ensures Pow(b % p, e) % p == Pow(b, e) % p
  {
    if e > 0 {
      PowMod(b, e - 1, p);
      var c, x, y := b % p, Pow(b, e - 1), Pow(b % p, e - 1);
      ModMul(b, y, p);
      ModMul(y, b, p);
      ModMul(x, b, p);
    }
  }

  /** Squaring the base halves the exponent. */
  lemma {:induction false} PowSquare(b: int, e: nat)
    ensures Pow(b, e) == (if e % 2 == 1 then b else 1) * Pow(b * b, e / 2)
  {
    if e >= 2 {
      PowSquare(b, e - 2);
      var f, s, h := if e % 2 == 1 then b else 1, b * b, Pow(b * b, e / 2 - 1);
      assert Pow(b, e) == b * (b * Pow(b, e - 2));
      assert Pow(s, e / 2) == s * h;
      assert b * (b * (f * h)) == f * (s * h);
    }
  }
}
