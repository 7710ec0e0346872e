/**
 * The integers modulo a prime are a field. The inverse of a is a^(p-2): Fermat's little theorem is
 * proved here from the permutation k -> a k mod p of the numbers 1..p-1.
 */
module PrimeFields {
  import opened DivMod
  import opened Fields

  ghost predicate IsPrime(p: nat) {
    2 <= p && forall m :: 2 <= m < p ==> p % m != 0
  }

  // ----- Euclid's lemma -----

  lemma {:induction false} EuclidBelow(p: nat, a: nat, b: int)
    requires IsPrime(p) && 0 < a < p && (a * b) % p == 0
    ensures b % p == 0
    decreases a
  {
    if a > 1 {
      var q, r := p / a, p % a;
      DivModEquation(p, a);
      // r b == p b - q (a b)
      assert r * b == p * b - q * (a * b) by {
        assert (p - a * q) * b == p * b - (a * q) * b;
        assert (a * q) * b == q * (a * b);
      }
      var m := (a * b) / p;
      DivModEquation(a * b, p);
      assert q * (a * b) == p * (q * m) by {
        assert a * b == p * m;
        assert q * (p * m) == p * (q * m);
      }
      assert r * b == 0 + p * (b - q * m) by {
        assert p * (b - q * m) == p * b - p * (q * m);
      }
      ModShift(0, p, b - q * m);
      EuclidBelow(p, r, b);
    }
  }

  lemma EuclidLemma(p: nat, a: int, b: int)
    requires IsPrime(p) && (a * b) % p == 0 && a % p != 0
    ensures b % p == 0
  {
    DivModEquation(a, p);
    ModMul(a, b, p);
    EuclidBelow(p, a % p, b);
  }

  /** A factor that the prime does not divide can be cancelled. */
  lemma ModCancel(p: nat, a: int, x: int, y: int)
    requires IsPrime(p) && a % p != 0 && (a * x) % p == (a * y) % p
    ensures x % p == y % p
  {
    var u, v := a * x, a * y;
    DivModEquation(u, p);
    DivModEquation(v, p);
    assert a * (x - y) == 0 + p * (u / p - v / p) by {
      assert p * (u / p - v / p) == p * (u / p) - p * (v / p);
      assert a * (x - y) == u - v;
    }
    ModShift(0, p, u / p - v / p);
    EuclidLemma(p, a, x - y);
    DivModEquation(x - y, p);
    ModShift(y, p, (x - y) / p);
  }

  // ----- products of permutations -----

  function Product(s: seq<nat>): nat {
    if s == [] then 1 else Product(s[..|s| - 1]) * s[|s| - 1]
  }

  function Factorial(n: nat): nat {
    if n == 0 then 1 else Factorial(n - 1) * n
  }

  /** The list holds different numbers between 1 and n. */
  ghost predicate DifferentUpTo(s: seq<nat>, n: nat) {
    && (forall i :: 0 <= i < |s| ==> 1 <= s[i] <= n)
    && (forall i, j :: 0 <= i < j < |s| ==> s[i] != s[j])
  }

  function Remove(s: seq<nat>, i: nat): (r: seq<nat>)
    requires i < |s|
    ensures |r| == |s| - 1
  {
    s[..i] + s[i + 1..]
  }

  lemma RemoveDifferent(s: seq<nat>, n: nat, i: nat)
    requires DifferentUpTo(s, n) && i < |s| && s[i] == n
    ensures n > 0 && DifferentUpTo(Remove(s, i), n - 1)
  {
    var r := Remove(s, i);
    forall k | 0 <= k < |r|
      ensures 1 <= r[k] <= n - 1
    {
      assert r[k] == s[if k < i then k else k + 1];
    }
    forall j, k | 0 <= j < k < |r|
      ensures r[j] != r[k]
    {
      assert r[j] == s[if j < i then j else j + 1] && r[k] == s[if k < i then k else k + 1];
    }
  }

  lemma {:induction false} DifferentAtMost(s: seq<nat>, n: nat)
    requires DifferentUpTo(s, n)
    ensures |s| <= n
    decreases n
  {
    if s == [] {
    } else if n in s {
      var i :| 0 <= i < |s| && s[i] == n;
      RemoveDifferent(s, n, i);
      DifferentAtMost(Remove(s, i), n - 1);
    } else {
      assert 1 <= s[0] <= n;
      DifferentAtMost(s, n - 1);
    }
  }

  lemma LargestOccurs(s: seq<nat>, n: nat) returns (i: nat)
    requires DifferentUpTo(s, n) && |s| == n > 0
    ensures i < |s| && s[i] == n
  {
    if n !in s {
      DifferentAtMost(s, n - 1);
    }
    i :| 0 <= i < |s| && s[i] == n;
  }

  lemma {:induction false} ProductRemove(s: seq<nat>, i: nat)
    requires i < |s|
    ensures Product(s) == s[i] * Product(Remove(s, i))
    decreases |s|
  {
    var n := |s| - 1;
    if i == n {
      assert Remove(s, i) == s[..n];
    } else {
      var t := s[..n];
      ProductRemove(t, i);
      var r := Remove(s, i);
      assert r[..|r| - 1] == Remove(t, i) && r[|r| - 1] == s[n];
      var x, y, z := s[i], Product(Remove(t, i)), s[n];
      assert (x * y) * z == x * (y * z);
    }
  }

  /** n different numbers between 1 and n multiply to n factorial. */
  lemma {:induction false} PermutationProduct(s: seq<nat>, n: nat)
    requires DifferentUpTo(s, n) && |s| == n
    ensures Product(s) == Factorial(n)
    decreases n
  {
    if n > 0 {
      hide Product, Remove;
      var i := LargestOccurs(s, n);
      var r := Remove(s, i);
      RemoveDifferent(s, n, i);
      hide DifferentUpTo;
      PermutationProduct(r, n - 1);
      ProductRemove(s, i);
      assert Product(s) == n * Factorial(n - 1);
    } else {
      assert s == [];
    }
  }

  // ----- Fermat's little theorem -----

  ghost function Multiples(a: nat, p: nat, n: nat): (r: seq<nat>)
    requires p > 0
    ensures |r| == n
    ensures forall i :: 0 <= i < n ==> r[i] == (a * (i + 1)) % p
  {
    seq(n, i requires 0 <= i < n => (a * (i + 1)) % p)
  }

  lemma MultiplesDifferent(a: nat, p: nat)
    requires IsPrime(p) && a % p != 0
    ensures DifferentUpTo(Multiples(a, p, p - 1), p - 1)
  {
    var s := Multiples(a, p, p - 1);
    forall i | 0 <= i < |s|
      ensures 1 <= s[i] <= p - 1
    {
      DivModEquation(a * (i + 1), p);
      ModSmall(i + 1, p);
      if s[i] == 0 {
        EuclidLemma(p, a, i + 1);
      }
    }
    forall i, j | 0 <= i < j < |s|
      ensures s[i] != s[j]
    {
      ModSmall(i + 1, p);
      ModSmall(j + 1, p);
      if s[i] == s[j] {
        ModCancel(p, a, i + 1, j + 1);
      }
    }
  }

  lemma Regroup(u: int, v: int, a: int, n: int)
    ensures (u * v) * (a * n) == (a * u) * (v * n)
  {
    assert (u * v) * (a * n) == u * (v * (a * n));
    assert v * (a * n) == a * (v * n);
    assert u * (a * (v * n)) == (a * u) * (v * n);
  }

  lemma ModProduct(x: int, y: int, z: int, p: int)
    requires p > 0 && x % p == y % p
    ensures (x * (z % p)) % p == (y * z) % p
  {
    ModMul(z, x, p);
    ModMul(x, z, p);
    ModMul(y, z, p);
  }

  lemma {:induction false} MultiplesProduct(a: nat, p: nat, n: nat)
    requires p > 0
    ensures Product(Multiples(a, p, n)) % p == (Pow(a, n) * Factorial(n)) % p
  {
    if n > 0 {
      MultiplesProduct(a, p, n - 1);
      var s := Multiples(a, p, n);
      assert s[..n - 1] == Multiples(a, p, n - 1);
      var x, y, z := Product(s[..n - 1]), Pow(a, n - 1) * Factorial(n - 1), a * n;
      assert Product(s) == x * (z % p);
      Regroup(Pow(a, n - 1), Factorial(n - 1), a, n);
      ModProduct(x, y, z, p);
    }
  }

  lemma {:induction false} FactorialUnit(p: nat, n: nat)
    requires IsPrime(p) && n < p
    ensures Factorial(n) % p != 0
  {
    if n == 0 {
      ModSmall(1, p);
    } else {
      FactorialUnit(p, n - 1);
      ModSmall(n, p);
      if Factorial(n) % p == 0 {
        EuclidLemma(p, Factorial(n - 1), n);
      }
    }
  }

  /** Fermat's little theorem. */
  lemma FermatLittle(p: nat, a: nat)
    requires IsPrime(p) && a % p != 0
    ensures Pow(a, p - 1) % p == 1
  {
    var f, n := Factorial(p - 1), Pow(a, p - 1);
    MultiplesDifferent(a, p);
    PermutationProduct(Multiples(a, p, p - 1), p - 1);
    MultiplesProduct(a, p, p - 1);
    FactorialUnit(p, p - 1);
    assert (f * n) % p == (f * 1) % p by {
      assert f * n == n * f;
    }
    ModCancel(p, f, n, 1);
    ModSmall(1, p);
  }

  // ----- the field -----

  ghost function PrimeField(p: nat): Field
    requires p >= 2
  {
    Field(
      p,
      (x, y) => (x + y) % p,
      x => if x < p then (p - x) % p else 0,
      (x, y) => (x * y) % p,
      x => ModInverse(x, p))
  }

  /** a^(m-2) mod m */
  ghost function ModInverse(a: nat, m: nat): (r: nat)
    requires m >= 2
    ensures r < m
  {
    DivModEquation(Pow(a, m - 2), m);
    Pow(a, m - 2) % m
  }

  lemma ModInverseInverts(a: nat, m: nat)
    requires IsPrime(m) && a % m != 0
    ensures (a * ModInverse(a, m)) % m == 1
  {
    FermatLittle(m, a);
    ModMul(Pow(a, m - 2), a, m);
  }

  lemma PrimeFieldIsField(p: nat)
    requires IsPrime(p)
    ensures IsField(PrimeField(p))
  {
    forall x: nat, y: nat, z: nat
      ensures LawsAt(PrimeField(p), x, y, z)
    {
      if x < p && y < p && z < p {
        PrimeLaws(p, x, y, z);
      }
    }
  }

  lemma PrimeLaws(p: nat, x: nat, y: nat, z: nat)
    requires IsPrime(p) && x < p && y < p && z < p
    ensures LawsAt(PrimeField(p), x, y, z)
  {
    AdditiveLaws(p, x, y, z);
    NegationLaw(p, x);
    MultiplicativeLaws(p, x, y, z);
  }

  lemma AdditiveLaws(p: nat, x: nat, y: nat, z: nat)
    requires p > 0 && x < p && y < p && z < p
    ensures 0 <= (x + y) % p < p
    ensures ((x + y) % p + z) % p == (x + (y + z) % p) % p
    ensures (x + 0) % p == x
  {
    DivModEquation(x + y, p);
    ModAdd(x + y, z, p);
    ModAdd(y + z, x, p);
    assert (x + y) + z == x + (y + z);
    ModSmall(x, p);
  }

  lemma NegationLaw(p: nat, x: nat)
    requires 0 <= x < p
    ensures 0 <= (p - x) % p < p && (x + (p - x) % p) % p == 0
  {
    var n := p - x;
    DivModEquation(n, p);
    ModAdd(n, x, p);
    DivModUnique(x + n, p, 1, 0);
  }

  lemma MultiplicativeLaws(p: nat, x: nat, y: nat, z: nat)
    requires IsPrime(p) && x < p && y < p && z < p
    ensures 0 <= (x * y) % p < p && (x * y) % p == (y * x) % p
    ensures (((x * y) % p) * z) % p == (x * ((y * z) % p)) % p
    ensures (x * 1) % p == x
    ensures (x * ((y + z) % p)) % p == ((x * y) % p + (x * z) % p) % p
    ensures x != 0 ==> (x * ModInverse(x, p)) % p == 1
  {
    DivModEquation(x * y, p);
    ModMul(x * y, z, p);
    ModMul(y * z, x, p);
    assert (x * y) * z == x * (y * z);
    ModSmall(x, p);
    ModMul(y + z, x, p);
    assert x * (y + z) == x * y + x * z;
    ModAdd(x * y, x * z, p);
    ModAdd(x * z, (x * y) % p, p);
    if x != 0 {
      ModInverseInverts(x, p);
    }
  }
}
