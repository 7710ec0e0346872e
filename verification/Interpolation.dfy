/**
 * Polynomials over a finite field: a coefficient list of length n is determined by its values at n
 * points, every list of n values is reached, and the Lagrange combination of the values at
 * any sufficiently many points is the constant coefficient.
 */
module Interpolation {
  import opened Fields

  /** The value at `x` of c0 + c1 x + c2 x^2 + ... */
  ghost function Eval(f: Field, cs: seq<nat>, x: nat): (r: nat)
    requires IsField(f) && Elems(f, cs) && Elem(f, x)
    ensures Elem(f, r)
  {
    if cs == [] then 0 else Add(f, cs[0], Mul(f, x, Eval(f, cs[1..], x)))
  }

  ghost predicate Distinct(xs: seq<nat>) {
    forall i, j :: 0 <= i < j < |xs| ==> xs[i] != xs[j]
  }

  // ----- Lagrange weights at 0 -----

  /** o / (o - x): the factor that the other point `o` contributes to the weight of `x` at 0. */
  ghost function Ratio(f: Field, o: nat, x: nat): (r: nat)
    requires IsField(f) && Elem(f, o) && Elem(f, x)
    ensures Elem(f, r)
  {
    Mul(f, o, Inv(f, Sub(f, o, x)))
  }

  ghost function Weight(f: Field, others: seq<nat>, x: nat): (r: nat)
    requires IsField(f) && Elems(f, others) && Elem(f, x)
    ensures Elem(f, r)
  {
    if others == [] then 1
    else Mul(f, Weight(f, others[..|others| - 1], x), Ratio(f, others[|others| - 1], x))
  }

  ghost function Without(xs: seq<nat>, i: nat): (r: seq<nat>)
    requires i < |xs|
    ensures |r| == |xs| - 1
  {
    xs[..i] + xs[i + 1..]
  }

  /** The first `k` points other than the i-th. */
  ghost function Others(xs: seq<nat>, i: nat, k: nat): (r: seq<nat>)
    requires i < |xs| && k <= |xs|
  {
    if k <= i then xs[..k] else xs[..i] + xs[i + 1..k]
  }

  /** Numerator and denominator of a weight, multiplied up separately, one point at a time. */
  lemma WeightStep(f: Field, others: seq<nat>, o: nat, x: nat, numerator: nat, denominator: nat)
    requires IsField(f) && Elems(f, others) && Elem(f, o) && Elem(f, x) && o != x
    requires Elem(f, numerator) && Elem(f, denominator) && denominator != 0
    requires Weight(f, others, x) == Mul(f, numerator, Inv(f, denominator))
    ensures Mul(f, denominator, Sub(f, o, x)) != 0
    ensures Weight(f, others + [o], x)
         == Mul(f, Mul(f, numerator, o), Inv(f, Mul(f, denominator, Sub(f, o, x))))
  {
    var d := Sub(f, o, x);
    var all := others + [o];
    assert all[..|all| - 1] == others;
    SubBasics(f, o, x);
    InvOfProduct(f, denominator, d);
    MulSwap(f, numerator, Inv(f, denominator), o, Inv(f, d));
  }

  lemma WeightStart(f: Field, x: nat)
    requires IsField(f) && Elem(f, x)
    ensures Weight(f, [], x) == Mul(f, 1, Inv(f, 1))
  {
    Ring(f, 1, 0, 0);
  }

  /** The Lagrange basis polynomial of the i-th point, evaluated at 0. */
  ghost function Basis(f: Field, xs: seq<nat>, i: nat): (r: nat)
    requires IsField(f) && Elems(f, xs) && i < |xs|
    ensures Elem(f, r)
  {
    Weight(f, Without(xs, i), xs[i])
  }

  /** The first `k` terms of the Lagrange combination of the values `ys` at the points `xs`. */
  ghost function Combination(f: Field, xs: seq<nat>, ys: seq<nat>, k: nat): (r: nat)
    requires IsField(f) && Elems(f, xs) && Elems(f, ys) && k <= |xs| == |ys|
    ensures Elem(f, r)
  {
    if k == 0 then 0
    else Add(f, Combination(f, xs, ys, k - 1), Mul(f, ys[k - 1], Basis(f, xs, k - 1)))
  }

  /** The values of the polynomial `cs` at the points `xs`. */
  ghost function Values(f: Field, cs: seq<nat>, xs: seq<nat>): (ys: seq<nat>)
    requires IsField(f) && Elems(f, cs) && Elems(f, xs)
    ensures |ys| == |xs| && Elems(f, ys)
    ensures forall i :: 0 <= i < |xs| ==> ys[i] == Eval(f, cs, xs[i])
  {
    seq(|xs|, i requires 0 <= i < |xs| => Eval(f, cs, xs[i]))
  }

  /** The first `k` terms of the Lagrange combination of the values of `cs`. */
  ghost function PolySum(f: Field, xs: seq<nat>, cs: seq<nat>, k: nat): (r: nat)
    requires IsField(f) && Elems(f, xs) && Elems(f, cs) && k <= |xs|
    ensures Elem(f, r)
  {
    if k == 0 then 0
    else Add(f, PolySum(f, xs, cs, k - 1), Mul(f, Eval(f, cs, xs[k - 1]), Basis(f, xs, k - 1)))
  }

  lemma {:induction false} PolySumIsCombination(f: Field, xs: seq<nat>, cs: seq<nat>, k: nat)
    requires IsField(f) && Elems(f, xs) && Elems(f, cs) && k <= |xs|
    ensures PolySum(f, xs, cs, k) == Combination(f, xs, Values(f, cs, xs), k)
  {
    if k > 0 {
      PolySumIsCombination(f, xs, cs, k - 1);
    }
  }

  // ----- the weights of all points sum to 1 -----

  lemma RatioSum(f: Field, a: nat, b: nat)
    requires IsField(f) && Elem(f, a) && Elem(f, b) && a != b
    ensures Ratio(f, a, b) == Mul(f, a, Neg(f, Inv(f, Sub(f, b, a))))
    ensures Add(f, Ratio(f, b, a), Ratio(f, a, b)) == 1
  {
    var d := Sub(f, b, a);
    var w := Inv(f, d);
    SubBasics(f, b, a);
    NegSub(f, b, a);
    InvNeg(f, d);
    NegMul(f, a, w);
    NegMul(f, w, a);
    Ring(f, w, b, Neg(f, a));
    Ring(f, b, w, 0);
    Ring(f, a, w, 0);
    Ring(f, d, w, 0);
  }

  /** The weight of a point splits over which of two further points `a`, `b` is present. */
  lemma RatioSplit(f: Field, a: nat, b: nat, x: nat)
    requires IsField(f) && Elem(f, a) && Elem(f, b) && Elem(f, x)
    requires a != b && a != x && b != x
    ensures Mul(f, Ratio(f, b, x), Ratio(f, a, x))
         == Add(f, Mul(f, Ratio(f, b, a), Ratio(f, a, x)), Mul(f, Ratio(f, a, b), Ratio(f, b, x)))
  {
    var da, db, d := Sub(f, a, x), Sub(f, b, x), Sub(f, b, a);
    var u, v, w := Inv(f, da), Inv(f, db), Inv(f, d);
    SubBasics(f, a, x);
    SubBasics(f, b, x);
    SubBasics(f, b, a);
    RatioSum(f, a, b);
    var ab := Mul(f, b, a);
    MulSwap(f, b, v, a, u);
    MulSwap(f, b, w, a, u);
    MulSwap(f, a, Neg(f, w), b, v);
    Ring(f, a, b, 0);
    NegMul(f, w, v);
    NegMul(f, w, u);
    // ab (w u) + ab (-(w v)) == ab (w (u - v)) == ab (w ((u v) d)) == ab (v u)
    Ring(f, ab, Mul(f, w, u), Neg(f, Mul(f, w, v)));
    MulSub(f, w, u, v);
    InvDifference(f, da, db);
    SubShift(f, b, a, x);
    var uv := Mul(f, u, v);
    Ring(f, uv, d, w);
    Ring(f, w, Mul(f, uv, d), 0);
    Ring(f, d, w, 0);
    Ring(f, uv, 1, 0);
    Ring(f, u, v, 0);
  }

  lemma RatioTimes(f: Field, o: nat, x: nat)
    requires IsField(f) && Elem(f, o) && Elem(f, x) && o != x
    ensures Mul(f, Sub(f, o, x), Ratio(f, o, x)) == o
  {
    var d := Sub(f, o, x);
    SubBasics(f, o, x);
    Ring(f, o, Inv(f, d), d);
    Ring(f, d, Inv(f, d), 0);
    Ring(f, d, Ratio(f, o, x), 0);
    Ring(f, Inv(f, d), d, 0);
    Ring(f, o, 0, 0);
  }

  lemma BasisSnoc(f: Field, xs: seq<nat>, x: nat, i: nat)
    requires IsField(f) && Elems(f, xs) && Elem(f, x) && i <= |xs|
    ensures Basis(f, xs + [x], i)
         == if i == |xs| then Weight(f, xs, x) else Mul(f, Basis(f, xs, i), Ratio(f, x, xs[i]))
  {
    var ys := xs + [x];
    if i == |xs| {
      assert Without(ys, i) == xs;
    } else {
      var w := Without(ys, i);
      assert w == Without(xs, i) + [x];
      assert w[..|w| - 1] == Without(xs, i);
    }
  }

  /** Adding two points: the weights are mixed from those with only one of them added. */
  lemma {:induction false} NevilleStep(f: Field, xs: seq<nat>, a: nat, b: nat, cs: seq<nat>, k: nat)
    requires IsField(f) && Elems(f, xs) && Elem(f, a) && Elem(f, b) && Elems(f, cs)
    requires a != b && a !in xs && b !in xs && k <= |xs|
    ensures PolySum(f, xs + [b] + [a], cs, k)
         == Add(f, Mul(f, Ratio(f, b, a), PolySum(f, xs + [a], cs, k)),
                   Mul(f, Ratio(f, a, b), PolySum(f, xs + [b], cs, k)))
  {
    hide Add, Neg, Mul, Inv, IsField, LawsAt;
    var p, q := Ratio(f, b, a), Ratio(f, a, b);
    if k == 0 {
      MulZero(f, p);
      MulZero(f, q);
      Ring(f, 0, 0, 0);
    } else {
      NevilleStep(f, xs, a, b, cs, k - 1);
      var i := k - 1;
      var x, v, l := xs[i], Eval(f, cs, xs[i]), Basis(f, xs, i);
      BasisSnoc(f, xs + [b], a, i);
      BasisSnoc(f, xs, a, i);
      BasisSnoc(f, xs, b, i);
      var ra, rb := Ratio(f, a, x), Ratio(f, b, x);
      RatioSplit(f, a, b, x);
      var tA, tB := Mul(f, v, Mul(f, l, ra)), Mul(f, v, Mul(f, l, rb));
      assert Mul(f, v, Mul(f, Mul(f, l, rb), ra)) == Add(f, Mul(f, p, tA), Mul(f, q, tB)) by {
        var vl := Mul(f, v, l);
        Ring(f, l, rb, ra);
        Ring(f, v, l, Mul(f, rb, ra));
        Ring(f, vl, Mul(f, p, ra), Mul(f, q, rb));
        PullOut(f, v, l, p, ra);
        PullOut(f, v, l, q, rb);
      }
      var sA, sB := PolySum(f, xs + [a], cs, i), PolySum(f, xs + [b], cs, i);
      Ring(f, p, sA, tA);
      Ring(f, q, sB, tB);
      AddSwap(f, Mul(f, p, sA), Mul(f, q, sB), Mul(f, p, tA), Mul(f, q, tB));
    }
  }

  /** (v l) (p r) == p (v (l r)) */
  lemma PullOut(f: Field, v: nat, l: nat, p: nat, r: nat)
    requires IsField(f) && Elem(f, v) && Elem(f, l) && Elem(f, p) && Elem(f, r)
    ensures Mul(f, Mul(f, v, l), Mul(f, p, r)) == Mul(f, p, Mul(f, v, Mul(f, l, r)))
  {
    var vl := Mul(f, v, l);
    Ring(f, vl, p, r);
    Ring(f, p, vl, r);
    Ring(f, v, l, r);
  }

  lemma {:induction false} WeightsSumToOne(f: Field, xs: seq<nat>, a: nat)
    requires IsField(f) && Elems(f, xs) && Elem(f, a)
    requires Distinct(xs + [a])
    ensures PolySum(f, xs + [a], [1], |xs| + 1) == 1
    decreases |xs|
  {
    hide Add, Neg, Mul, Inv, LawsAt;
    assert (xs + [a])[|xs|] == a;
    ConstantEval(f, 1, a);
    BasisSnoc(f, xs, a, |xs|);
    if xs == [] {
      Ring(f, 1, 0, 0);
    } else {
      var n := |xs| - 1;
      var ys, b := xs[..n], xs[n];
      assert xs == ys + [b];
      assert Distinct(ys + [a]) && Distinct(ys + [b]) && a !in ys && b !in ys && a != b by {
        forall i | 0 <= i < |ys|
          ensures ys[i] != a && ys[i] != b && a != b
        {
          assert (xs + [a])[i] == ys[i] && (xs + [a])[n] == b;
        }
        assert (xs + [a])[n] == b;
        forall i, j | 0 <= i < j < |ys|
          ensures ys[i] != ys[j]
        {
          assert (xs + [a])[i] == ys[i] && (xs + [a])[j] == ys[j];
        }
      }
      WeightsSumToOne(f, ys, a);
      WeightsSumToOne(f, ys, b);
      NevilleStep(f, ys, a, b, [1], n);
      var p, q := Ratio(f, b, a), Ratio(f, a, b);
      var wa, wb := Weight(f, ys, a), Weight(f, ys, b);
      BasisSnoc(f, ys + [b], a, n);
      BasisSnoc(f, ys, b, n);
      BasisSnoc(f, ys, a, n);
      ConstantEval(f, 1, b);
      assert (ys + [b])[..n] == ys && (ys + [b])[n] == b && (ys + [a])[n] == a && (ys + [b] + [a])[n] == b;
      RatioSum(f, a, b);
      Ring(f, wa, 0, 0);
      Ring(f, wb, 0, 0);
      Ring(f, Mul(f, wb, q), 0, 0);
      Ring(f, Mul(f, wa, p), 0, 0);
      MixToOne(f, p, q, PolySum(f, ys + [a], [1], n), PolySum(f, ys + [b], [1], n), wa, wb);
    }
  }

  /** ((p s + q t) + v q) + u p == 1, when p + q == s + u == t + v == 1 */
  lemma MixToOne(f: Field, p: nat, q: nat, s: nat, t: nat, u: nat, v: nat)
    requires IsField(f) && Elem(f, p) && Elem(f, q) && Elem(f, s) && Elem(f, t) && Elem(f, u) && Elem(f, v)
    requires Add(f, p, q) == 1 && Add(f, s, u) == 1 && Add(f, t, v) == 1
    ensures Add(f, Add(f, Add(f, Mul(f, p, s), Mul(f, q, t)), Mul(f, v, q)), Mul(f, u, p)) == 1
  {
    Ring(f, u, p, 0);
    Ring(f, v, q, 0);
    Ring(f, p, s, u);
    Ring(f, q, t, v);
    Ring(f, p, 1, 0);
    Ring(f, q, 1, 0);
    AddSwap(f, Mul(f, p, s), Mul(f, q, t), Mul(f, p, u), Mul(f, q, v));
    Ring(f, Mul(f, p, u), Mul(f, q, v), 0);
    Ring(f, Add(f, Mul(f, p, s), Mul(f, q, t)), Mul(f, q, v), Mul(f, p, u));
  }

  lemma ConstantEval(f: Field, c: nat, x: nat)
    requires IsField(f) && Elem(f, c) && Elem(f, x)
    ensures Eval(f, [c], x) == c
  {
    MulZero(f, x);
    Ring(f, c, 0, 0);
    assert [c][1..] == [];
    assert Eval(f, [], x) == 0;
  }

  // ----- the Lagrange combination is the constant coefficient -----

  /** With the last point `x` removed or kept, the combination of c + X q splits into those of q. */
  lemma {:induction false} HornerStep(f: Field, xs: seq<nat>, x: nat, c: nat, q: seq<nat>, k: nat)
    requires IsField(f) && Elems(f, xs) && Elem(f, x) && Elem(f, c) && Elems(f, q)
    requires x !in xs && k <= |xs|
    ensures PolySum(f, xs + [x], [c] + q, k)
         == Add(f, Mul(f, c, PolySum(f, xs + [x], [1], k)),
                   Mul(f, x, Sub(f, PolySum(f, xs + [x], q, k), PolySum(f, xs, q, k))))
  {
    hide Add, Neg, Mul, Inv, IsField, LawsAt;
    var all := xs + [x];
    if k == 0 {
      MulZero(f, c);
      MulZero(f, x);
      SubBasics(f, 0, 0);
      Ring(f, 0, 0, 0);
    } else {
      var i := k - 1;
      HornerStep(f, xs, x, c, q, i);
      var z, l, l' := all[i], Basis(f, all, i), Basis(f, xs, i);
      var v := Eval(f, q, z);
      assert ([c] + q)[1..] == q;
      BasisSnoc(f, xs, x, i);
      ConstantEval(f, 1, z);
      Ring(f, l, 0, 0);
      // (c + z v) l == c l + x (v l - v l')
      assert Mul(f, Mul(f, z, v), l) == Mul(f, x, Sub(f, Mul(f, v, l), Mul(f, v, l'))) by {
        ShrinkTerm(f, x, z, v, l');
      }
      var t := Sub(f, Mul(f, v, l), Mul(f, v, l'));
      Ring(f, l, c, Mul(f, z, v));
      Ring(f, Add(f, c, Mul(f, z, v)), l, 0);
      Ring(f, c, l, 0);
      Ring(f, Mul(f, z, v), l, 0);
      var s1, sq, sq' := PolySum(f, all, [1], i), PolySum(f, all, q, i), PolySum(f, xs, q, i);
      AddSwap(f, Mul(f, c, s1), Mul(f, x, Sub(f, sq, sq')), Mul(f, c, l), Mul(f, x, t));
      Ring(f, c, s1, l);
      Ring(f, x, Sub(f, sq, sq'), t);
      AddSwap(f, Sub(f, sq, sq'), sq', t, Mul(f, v, l'));
      SubBasics(f, sq, sq');
      SubBasics(f, Mul(f, v, l), Mul(f, v, l'));
      SubUnique(f, Add(f, sq, Mul(f, v, l)), Add(f, sq', Mul(f, v, l')), Add(f, Sub(f, sq, sq'), t));
    }
  }

  /** (z v)(l r) == x (v (l r) - v l) when r == x / (x - z) */
  lemma ShrinkTerm(f: Field, x: nat, z: nat, v: nat, l: nat)
    requires IsField(f) && Elem(f, x) && Elem(f, z) && Elem(f, v) && Elem(f, l) && x != z
    ensures Mul(f, Mul(f, z, v), Mul(f, l, Ratio(f, x, z)))
         == Mul(f, x, Sub(f, Mul(f, v, Mul(f, l, Ratio(f, x, z))), Mul(f, v, l)))
  {
    var r, d, m := Ratio(f, x, z), Sub(f, x, z), Mul(f, v, l);
    Ring(f, v, l, r);
    SubBasics(f, x, z);
    RatioTimes(f, x, z);
    // z r == x (r - 1), because (x - z) r == x
    Ring(f, r, d, z);
    Ring(f, r, d, 0);
    Ring(f, r, z, 0);
    Ring(f, r, x, 0);
    Ring(f, x, r, 0);
    Ring(f, x, Mul(f, z, r), 0);
    MulSub(f, x, r, 1);
    Ring(f, Mul(f, z, r), x, 0);
    SubUnique(f, Mul(f, x, r), x, Mul(f, z, r));
    assert Mul(f, z, r) == Mul(f, x, Sub(f, r, 1));
    // multiply by m == v l
    MulSub(f, m, r, 1);
    Ring(f, m, 0, 0);
    Ring(f, z, v, Mul(f, l, r));
    Ring(f, z, m, r);
    Ring(f, m, z, r);
    Ring(f, z, m, 0);
    Ring(f, m, x, Sub(f, r, 1));
    Ring(f, x, m, Sub(f, r, 1));
    Ring(f, m, x, 0);
  }

  /**
   * Reconstruction: at any distinct points, at least as many as coefficients, the Lagrange
   * combination of a polynomial's values is its constant coefficient.
   */
  lemma {:induction false} ReconstructPoly(f: Field, xs: seq<nat>, cs: seq<nat>)
    requires IsField(f) && Elems(f, xs) && Elems(f, cs)
    requires Distinct(xs) && |cs| <= |xs|
    ensures PolySum(f, xs, cs, |xs|) == if cs == [] then 0 else cs[0]
    decreases |cs|
  {
    hide Add, Neg, Mul, Inv, IsField, LawsAt;
    if cs == [] {
      ZeroSum(f, xs, |xs|);
    } else {
      var n := |xs| - 1;
      var ys, x, c, q := xs[..n], xs[n], cs[0], cs[1..];
      assert xs == ys + [x];
      WeightsSumToOne(f, ys, x);
      ReconstructPoly(f, xs, q);
      if q == [] {
        ZeroSum(f, ys, n);
      } else {
        ReconstructPoly(f, ys, q);
      }
      AddCoefficient(f, ys, x, c, q);
      assert cs == [c] + q;
    }
  }

  lemma AddCoefficient(f: Field, ys: seq<nat>, x: nat, c: nat, q: seq<nat>)
    requires IsField(f) && Elems(f, ys) && Elem(f, x) && Elem(f, c) && Elems(f, q) && x !in ys
    requires PolySum(f, ys + [x], [1], |ys| + 1) == 1
    requires PolySum(f, ys + [x], q, |ys| + 1) == PolySum(f, ys, q, |ys|)
    ensures PolySum(f, ys + [x], [c] + q, |ys| + 1) == c
  {
    hide Add, Neg, Mul, Inv, IsField, LawsAt;
    var n, xs, cs := |ys|, ys + [x], [c] + q;
    var l, v := Basis(f, xs, n), Eval(f, q, x);
    var s, p, r := PolySum(f, xs, [1], n), PolySum(f, xs, q, n), PolySum(f, ys, q, n);
    assert xs[n] == x;
    assert Add(f, s, l) == 1 by {
      ConstantEval(f, 1, x);
      Ring(f, l, 0, 0);
      assert PolySum(f, xs, [1], n + 1) == Add(f, s, Mul(f, Eval(f, [1], xs[n]), l));
    }
    assert Add(f, p, Mul(f, v, l)) == r;
    assert Eval(f, cs, x) == Add(f, c, Mul(f, x, v)) by {
      assert cs[1..] == q;
    }
    assert PolySum(f, xs, cs, n) == Add(f, Mul(f, c, s), Mul(f, x, Sub(f, p, r))) by {
      HornerStep(f, ys, x, c, q, n);
    }
    CollectTerms(f, c, x, s, p, r, l, v);
  }

  /** (c s + x (p - r)) + (c + x v) l == c, when s + l == 1 and p + v l == r */
  lemma CollectTerms(f: Field, c: nat, x: nat, s: nat, p: nat, r: nat, l: nat, v: nat)
    requires IsField(f) && Elem(f, c) && Elem(f, x) && Elem(f, s) && Elem(f, p) && Elem(f, r)
    requires Elem(f, l) && Elem(f, v)
    requires Add(f, s, l) == 1 && Add(f, p, Mul(f, v, l)) == r
    ensures Add(f, Add(f, Mul(f, c, s), Mul(f, x, Sub(f, p, r))), Mul(f, Add(f, c, Mul(f, x, v)), l)) == c
  {
    var d, vl := Sub(f, p, r), Mul(f, v, l);
    Ring(f, l, c, Mul(f, x, v));
    Ring(f, Add(f, c, Mul(f, x, v)), l, 0);
    Ring(f, c, l, 0);
    Ring(f, Mul(f, x, v), l, 0);
    Ring(f, x, v, l);
    AddSwap(f, Mul(f, c, s), Mul(f, x, d), Mul(f, c, l), Mul(f, x, vl));
    Ring(f, c, s, l);
    Ring(f, x, d, vl);
    assert Add(f, d, vl) == 0 by {
      SubBasics(f, p, r);
      Ring(f, d, r, vl);
      Ring(f, vl, r, 0);
      Ring(f, d, vl, r);
      Ring(f, r, 0, 0);
      Ring(f, Add(f, d, vl), r, 0);
      AddCancel(f, r, Add(f, d, vl), 0);
    }
    MulZero(f, x);
    Ring(f, c, 0, 0);
  }

  lemma {:induction false} ZeroSum(f: Field, xs: seq<nat>, k: nat)
    requires IsField(f) && Elems(f, xs) && k <= |xs|
    ensures PolySum(f, xs, [], k) == 0
  {
    if k > 0 {
      ZeroSum(f, xs, k - 1);
      MulZero(f, Basis(f, xs, k - 1));
      Ring(f, 0, 0, 0);
    }
  }

  /** Reconstruction, stated on the shares rather than on the polynomial behind them. */
  lemma Reconstruct(f: Field, xs: seq<nat>, ys: seq<nat>, cs: seq<nat>)
    requires IsField(f) && Elems(f, xs) && Elems(f, ys) && Elems(f, cs)
    requires Distinct(xs) && 1 <= |cs| <= |xs| == |ys|
    requires forall i :: 0 <= i < |xs| ==> ys[i] == Eval(f, cs, xs[i])
    ensures Combination(f, xs, ys, |xs|) == cs[0]
  {
    ReconstructPoly(f, xs, cs);
    PolySumIsCombination(f, xs, cs, |xs|);
    assert ys == Values(f, cs, xs);
  }

  // ----- coefficient lists and values determine each other -----

  /** The quotient of the polynomial by X - x. */
  ghost function Quotient(f: Field, cs: seq<nat>, x: nat): (r: seq<nat>)
    requires IsField(f) && Elems(f, cs) && Elem(f, x) && cs != []
    ensures Elems(f, r) && |r| == |cs| - 1
  {
    if |cs| == 1 then [] else [Eval(f, cs[1..], x)] + Quotient(f, cs[1..], x)
  }

  /** The polynomial with quotient `q` by X - x and value `y` at x. */
  ghost function Rebuild(f: Field, q: seq<nat>, x: nat, y: nat): (r: seq<nat>)
    requires IsField(f) && Elems(f, q) && Elem(f, x) && Elem(f, y)
    ensures Elems(f, r) && |r| == |q| + 1
  {
    if q == [] then [y] else [Sub(f, y, Mul(f, x, q[0]))] + Rebuild(f, q[1..], x, q[0])
  }

  /** p(z) == p(x) + (z - x) Quotient(p, x)(z) */
  lemma {:induction false} QuotientEval(f: Field, cs: seq<nat>, x: nat, z: nat)
    requires IsField(f) && Elems(f, cs) && Elem(f, x) && Elem(f, z) && cs != []
    ensures Eval(f, cs, z)
         == Add(f, Eval(f, cs, x), Mul(f, Sub(f, z, x), Eval(f, Quotient(f, cs, x), z)))
  {
    var c, r := cs[0], cs[1..];
    var d := Sub(f, z, x);
    if r == [] {
      assert cs == [c];
      ConstantEval(f, c, x);
      ConstantEval(f, c, z);
      MulZero(f, d);
      Ring(f, c, 0, 0);
      assert Eval(f, Quotient(f, cs, x), z) == 0;
    } else {
      QuotientEval(f, r, x, z);
      var rx, rz := Eval(f, r, x), Eval(f, r, z);
      var q := Quotient(f, r, x);
      assert Quotient(f, cs, x)[0] == rx && Quotient(f, cs, x)[1..] == q;
      var qz := Eval(f, q, z);
      var m := Mul(f, d, qz);
      // z rz == x rx + (d rx + z (d qz)) == x rx + d (rx + z qz)
      assert Mul(f, z, rz) == Add(f, Mul(f, x, rx), Mul(f, d, Add(f, rx, Mul(f, z, qz)))) by {
        Ring(f, z, rx, m);
        Ring(f, d, rx, Mul(f, z, qz));
        Ring(f, z, d, qz);
        Ring(f, d, z, qz);
        SubBasics(f, z, x);
        Ring(f, rx, x, d);
        Ring(f, x, rx, 0);
        Ring(f, d, rx, 0);
        Ring(f, z, rx, 0);
        Ring(f, Mul(f, x, rx), Mul(f, d, rx), Mul(f, d, Mul(f, z, qz)));
      }
      Ring(f, c, Mul(f, x, rx), Mul(f, d, Add(f, rx, Mul(f, z, qz))));
    }
  }

  lemma {:induction false} RebuildInverts(f: Field, q: seq<nat>, x: nat, y: nat)
    requires IsField(f) && Elems(f, q) && Elem(f, x) && Elem(f, y)
    ensures Quotient(f, Rebuild(f, q, x, y), x) == q
    ensures Eval(f, Rebuild(f, q, x, y), x) == y
  {
    var cs := Rebuild(f, q, x, y);
    if q == [] {
      ConstantEval(f, y, x);
    } else {
      RebuildInverts(f, q[1..], x, q[0]);
      assert cs[1..] == Rebuild(f, q[1..], x, q[0]);
      assert q == [q[0]] + q[1..];
      SubBasics(f, y, Mul(f, x, q[0]));
    }
  }

  lemma {:induction false} QuotientInjective(f: Field, a: seq<nat>, b: seq<nat>, x: nat)
    requires IsField(f) && Elems(f, a) && Elems(f, b) && Elem(f, x)
    requires a != [] && b != []
    requires Quotient(f, a, x) == Quotient(f, b, x) && Eval(f, a, x) == Eval(f, b, x)
    ensures a == b
  {
    assert |a| == |b|;
    var ra, rb := a[1..], b[1..];
    if |a| == 1 {
      assert ra == [] && rb == [];
      assert a == [a[0]] && b == [b[0]];
      ConstantEval(f, a[0], x);
      ConstantEval(f, b[0], x);
    } else {
      assert Quotient(f, a, x)[0] == Eval(f, ra, x) && Quotient(f, a, x)[1..] == Quotient(f, ra, x);
      assert Quotient(f, b, x)[0] == Eval(f, rb, x) && Quotient(f, b, x)[1..] == Quotient(f, rb, x);
      QuotientInjective(f, ra, rb, x);
      var m := Mul(f, x, Eval(f, ra, x));
      Ring(f, a[0], m, 0);
      Ring(f, b[0], m, 0);
      AddCancel(f, m, a[0], b[0]);
      assert a == [a[0]] + ra && b == [b[0]] + rb;
    }
  }

  ghost predicate Explains(f: Field, cs: seq<nat>, xs: seq<nat>, ys: seq<nat>)
    requires IsField(f) && Elems(f, xs)
  {
    Elems(f, cs) && |xs| == |ys| && forall i :: 0 <= i < |xs| ==> Eval(f, cs, xs[i]) == ys[i]
  }

  /** Two polynomials with n coefficients that agree at n points are equal. */
  lemma {:induction false} InterpolationUnique(f: Field, xs: seq<nat>, ys: seq<nat>, a: seq<nat>, b: seq<nat>)
    requires IsField(f) && Elems(f, xs) && Distinct(xs)
    requires |a| == |b| == |xs| && Explains(f, a, xs, ys) && Explains(f, b, xs, ys)
    ensures a == b
    decreases |xs|
  {
    if xs != [] {
      var n := |xs| - 1;
      var zs, x := xs[..n], xs[n];
      var qa, qb := Quotient(f, a, x), Quotient(f, b, x);
      forall i | 0 <= i < n
        ensures Eval(f, qa, zs[i]) == Eval(f, qb, zs[i])
      {
        var z := zs[i];
        var d := Sub(f, z, x);
        QuotientEval(f, a, x, z);
        QuotientEval(f, b, x, z);
        SubBasics(f, z, x);
        AddCancel(f, ys[n], Mul(f, d, Eval(f, qa, z)), Mul(f, d, Eval(f, qb, z)));
        MulCancel(f, d, Eval(f, qa, z), Eval(f, qb, z));
      }
      var vs := Values(f, qa, zs);
      assert Explains(f, qa, zs, vs) && Explains(f, qb, zs, vs);
      InterpolationUnique(f, zs, vs, qa, qb);
      QuotientInjective(f, a, b, x);
    }
  }

  /** Any n values at n distinct points are those of some polynomial with n coefficients. */
  lemma {:induction false} InterpolationExists(f: Field, xs: seq<nat>, ys: seq<nat>) returns (cs: seq<nat>)
    requires IsField(f) && Elems(f, xs) && Elems(f, ys) && Distinct(xs) && |xs| == |ys|
    ensures |cs| == |xs| && Explains(f, cs, xs, ys)
    decreases |xs|
  {
    if xs == [] {
      cs := [];
    } else {
      var n := |xs| - 1;
      var zs, x, y := xs[..n], xs[n], ys[n];
      var vs := seq(n, i requires 0 <= i < n => DividedDifference(f, xs[i], ys[i], x, y));
      assert Distinct(zs) && Elems(f, vs);
      var q := InterpolationExists(f, zs, vs);
      cs := Rebuild(f, q, x, y);
      RebuildInverts(f, q, x, y);
      forall i | 0 <= i < |xs|
        ensures Eval(f, cs, xs[i]) == ys[i]
      {
        if i < n {
          QuotientEval(f, cs, x, xs[i]);
          assert zs[i] == xs[i] && Eval(f, q, xs[i]) == vs[i];
          DividedDifferenceUndone(f, xs[i], ys[i], x, y);
        }
      }
    }
  }

  /** (yz - y) / (z - x) */
  ghost function DividedDifference(f: Field, z: nat, yz: nat, x: nat, y: nat): (r: nat)
    requires IsField(f) && Elem(f, z) && Elem(f, yz) && Elem(f, x) && Elem(f, y)
    ensures Elem(f, r)
  {
    Mul(f, Sub(f, yz, y), Inv(f, Sub(f, z, x)))
  }

  lemma DividedDifferenceUndone(f: Field, z: nat, yz: nat, x: nat, y: nat)
    requires IsField(f) && Elem(f, z) && Elem(f, yz) && Elem(f, x) && Elem(f, y) && z != x
    ensures Add(f, y, Mul(f, Sub(f, z, x), DividedDifference(f, z, yz, x, y))) == yz
  {
    var d, e := Sub(f, z, x), Sub(f, yz, y);
    SubBasics(f, z, x);
    SubBasics(f, yz, y);
    Ring(f, d, Inv(f, d), e);
    Ring(f, Inv(f, d), e, 0);
    Ring(f, e, Inv(f, d), 0);
    Ring(f, e, 0, 0);
  }

  /**
   * Secrecy: whatever values `ys` are seen at distinct non-zero points, every constant coefficient
   * is still possible, and each is explained by exactly one choice of the |xs| higher coefficients.
   */
  lemma SecretUndetermined(f: Field, xs: seq<nat>, ys: seq<nat>, secret: nat)
    returns (higher: seq<nat>)
    requires IsField(f) && Elems(f, xs) && Elems(f, ys) && Distinct(xs) && |xs| == |ys|
    requires Elem(f, secret) && 0 !in xs
    ensures |higher| == |xs| && Explains(f, [secret] + higher, xs, ys)
    ensures forall other: seq<nat> ::
      |other| == |xs| && Explains(f, [secret] + other, xs, ys) ==> other == higher
  {
    var points, values := [0] + xs, [secret] + ys;
    assert Distinct(points) by {
      forall i, j | 0 <= i < j < |points|
        ensures points[i] != points[j]
      {
        assert points[j] == xs[j - 1];
        if i > 0 {
          assert points[i] == xs[i - 1];
        }
      }
    }
    var cs := InterpolationExists(f, points, values);
    assert Eval(f, cs, points[0]) == values[0];
    EvalAtZero(f, cs);
    higher := cs[1..];
    assert cs == [secret] + higher;
    forall i | 0 <= i < |xs|
      ensures Eval(f, cs, xs[i]) == ys[i]
    {
      assert points[i + 1] == xs[i] && values[i + 1] == ys[i];
    }
    forall other: seq<nat> | |other| == |xs| && Explains(f, [secret] + other, xs, ys)
      ensures other == higher
    {
      var os := [secret] + other;
      EvalAtZero(f, os);
      forall i | 0 <= i < |points|
        ensures Eval(f, os, points[i]) == values[i]
      {
        if i > 0 {
          assert points[i] == xs[i - 1] && values[i] == ys[i - 1];
        }
      }
      InterpolationUnique(f, points, values, cs, os);
      assert os[1..] == other;
    }
  }

  lemma EvalAtZero(f: Field, cs: seq<nat>)
    requires IsField(f) && Elems(f, cs) && cs != []
    ensures Eval(f, cs, 0) == cs[0]
  {
    MulZero(f, Eval(f, cs[1..], 0));
    Ring(f, cs[0], 0, 0);
  }
}
