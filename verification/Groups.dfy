/**
 * Commutative groups written additively, and multiplication of their elements by numbers. The
 * curve groups G1 and G2 enter the model only through these laws.
 */
module Groups {
  import opened DivMod
  import opened PrimeFields

  datatype Group<!P> = Group(zero: P, add: (P, P) -> P)

  ghost predicate GroupLawsAt<P>(g: Group<P>, x: P, y: P, z: P) {
    && g.add(x, y) == g.add(y, x)
    && g.add(g.add(x, y), z) == g.add(x, g.add(y, z))
    && g.add(x, g.zero) == x
  }

  /** n x == x + ... + x */
  function Times<P>(g: Group<P>, n: nat, x: P): P {
    if n == 0 then g.zero else g.add(Times(g, n - 1, x), x)
  }

  ghost predicate Annihilates<P>(g: Group<P>, order: nat, x: P) {
    Times(g, order, x) == g.zero
  }

  /** A group of prime order: every element is annihilated by the order. */
  ghost predicate IsGroup<P(!new)>(g: Group<P>, order: nat) {
    && IsPrime(order)
    && (forall x: P, y: P, z: P :: GroupLawsAt(g, x, y, z))
    && (forall x: P :: Annihilates(g, order, x))
  }

  lemma AddLaws<P(!new)>(g: Group<P>, order: nat, x: P, y: P, z: P)
    requires IsGroup(g, order)
    ensures g.add(x, y) == g.add(y, x)
    ensures g.add(g.add(x, y), z) == g.add(x, g.add(y, z))
    ensures g.add(x, g.zero) == x && g.add(g.zero, x) == x
  {
    assert GroupLawsAt(g, x, y, z);
    assert GroupLawsAt(g, x, g.zero, z);
  }

  lemma AddSwap<P(!new)>(g: Group<P>, order: nat, a: P, b: P, c: P, d: P)
    requires IsGroup(g, order)
    ensures g.add(g.add(a, b), g.add(c, d)) == g.add(g.add(a, c), g.add(b, d))
  {
    AddLaws(g, order, a, b, g.add(c, d));
    AddLaws(g, order, b, c, d);
    AddLaws(g, order, c, b, d);
    AddLaws(g, order, a, c, g.add(b, d));
  }

  lemma {:induction false} TimesAdd<P(!new)>(g: Group<P>, order: nat, m: nat, n: nat, x: P)
    requires IsGroup(g, order)
    ensures Times(g, m + n, x) == g.add(Times(g, m, x), Times(g, n, x))
    decreases n
  {
    AddLaws(g, order, Times(g, m, x), g.zero, g.zero);
    if n > 0 {
      TimesAdd(g, order, m, n - 1, x);
      AddLaws(g, order, Times(g, m, x), Times(g, n - 1, x), x);
    }
  }

  lemma {:induction false} TimesZero<P(!new)>(g: Group<P>, order: nat, n: nat)
    requires IsGroup(g, order)
    ensures Times(g, n, g.zero) == g.zero
  {
    if n > 0 {
      TimesZero(g, order, n - 1);
      AddLaws(g, order, g.zero, g.zero, g.zero);
    }
  }

  lemma {:induction false} TimesTimes<P(!new)>(g: Group<P>, order: nat, m: nat, n: nat, x: P)
    requires IsGroup(g, order)
    ensures Times(g, m * n, x) == Times(g, m, Times(g, n, x))
    decreases m
  {
    if m > 0 {
      TimesTimes(g, order, m - 1, n, x);
      assert m * n == (m - 1) * n + n;
      TimesAdd(g, order, (m - 1) * n, n, x);
    }
  }

  lemma {:induction false} TimesSum<P(!new)>(g: Group<P>, order: nat, n: nat, x: P, y: P)
    requires IsGroup(g, order)
    ensures Times(g, n, g.add(x, y)) == g.add(Times(g, n, x), Times(g, n, y))
  {
    if n == 0 {
      AddLaws(g, order, g.zero, g.zero, g.zero);
    } else {
      TimesSum(g, order, n - 1, x, y);
      AddSwap(g, order, Times(g, n - 1, x), Times(g, n - 1, y), x, y);
    }
  }

  /** Scalars matter only modulo the group order. */
  lemma TimesMod<P(!new)>(g: Group<P>, order: nat, n: nat, x: P)
    requires IsGroup(g, order)
    ensures Times(g, n % order, x) == Times(g, n, x)
  {
    var q, r := n / order, n % order;
    DivModEquation(n, order);
    assert n == q * order + r && q >= 0;
    TimesAdd(g, order, q * order, r, x);
    TimesTimes(g, order, q, order, x);
    assert Annihilates(g, order, x);
    TimesZero(g, order, q);
    AddLaws(g, order, Times(g, r, x), g.zero, g.zero);
  }

  lemma AddCancel<P(!new)>(g: Group<P>, order: nat, a: P, c: P)
    requires IsGroup(g, order) && g.add(a, c) == c
    ensures a == g.zero
  {
    var n := Times(g, order - 1, c);
    assert Annihilates(g, order, c);
    AddLaws(g, order, n, c, g.zero);
    AddLaws(g, order, a, c, n);
    AddLaws(g, order, a, g.zero, g.zero);
  }

  lemma SmallMultipleNonzero<P(!new)>(g: Group<P>, order: nat, d: nat, x: P)
    requires IsGroup(g, order) && x != g.zero && 0 < d < order
    ensures Times(g, d, x) != g.zero
  {
    ModSmall(d, order);
    ModInverseInverts(d, order);
    var i := ModInverse(d, order);
    TimesTimes(g, order, i, d, x);
    TimesMod(g, order, i * d, x);
    TimesZero(g, order, i);
    assert i * d == d * i;
    AddLaws(g, order, x, g.zero, g.zero);
    assert Times(g, 1, x) == g.add(Times(g, 0, x), x) == x;
  }

  /** In a group of prime order, a non-zero element tells scalars apart modulo the order. */
  lemma TimesInjective<P(!new)>(g: Group<P>, order: nat, s: nat, t: nat, x: P)
    requires IsGroup(g, order) && x != g.zero
    ensures Times(g, s, x) == Times(g, t, x) <==> s % order == t % order
  {
    TimesMod(g, order, s, x);
    TimesMod(g, order, t, x);
    DivModEquation(s, order);
    DivModEquation(t, order);
    var a, b := s % order, t % order;
    if a < b {
      TimesDiffer(g, order, a, b, x);
    } else if b < a {
      TimesDiffer(g, order, b, a, x);
    }
  }

  lemma TimesDiffer<P(!new)>(g: Group<P>, order: nat, a: nat, b: nat, x: P)
    requires IsGroup(g, order) && x != g.zero && a < b < order
    ensures Times(g, a, x) != Times(g, b, x)
  {
    TimesAdd(g, order, b - a, a, x);
    SmallMultipleNonzero(g, order, b - a, x);
    if Times(g, a, x) == Times(g, b, x) {
      AddCancel(g, order, Times(g, b - a, x), Times(g, a, x));
    }
  }
}
