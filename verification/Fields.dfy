/**
 * Finite fields whose elements are the numbers below `order`, with 0 and 1 as neutral elements.
 * Both secret-sharing schemes are instances: GF(2^8) and the integers modulo a prime.
 */
module Fields {

  datatype Field = Field(
    order: nat,
    add: (nat, nat) -> nat,
    neg: nat -> nat,
    mul: (nat, nat) -> nat,
    inv: nat -> nat)

  /** The field laws at three elements. */
  ghost predicate LawsAt(f: Field, x: nat, y: nat, z: nat) {
    x < f.order && y < f.order && z < f.order ==>
      && f.add(x, y) < f.order
      && f.neg(x) < f.order
      && f.mul(x, y) < f.order
      && f.inv(x) < f.order
      && f.add(x, y) == f.add(y, x)
      && f.add(f.add(x, y), z) == f.add(x, f.add(y, z))
      && f.add(x, 0) == x
      && f.add(x, f.neg(x)) == 0
      && f.mul(x, y) == f.mul(y, x)
      && f.mul(f.mul(x, y), z) == f.mul(x, f.mul(y, z))
      && f.mul(x, 1) == x
      && f.mul(x, f.add(y, z)) == f.add(f.mul(x, y), f.mul(x, z))
      && (x != 0 ==> f.mul(x, f.inv(x)) == 1)
  }

  ghost predicate IsField(f: Field) {
    && 2 <= f.order
    && forall x: nat, y: nat, z: nat :: LawsAt(f, x, y, z)
  }

  ghost predicate Elem(f: Field, x: nat) {
    x < f.order
  }

  ghost predicate Elems(f: Field, s: seq<nat>) {
    forall i :: 0 <= i < |s| ==> s[i] < f.order
  }

  ghost function Add(f: Field, x: nat, y: nat): (r: nat)
    requires IsField(f) && Elem(f, x) && Elem(f, y)
    ensures Elem(f, r)
  {
    assert LawsAt(f, x, y, 0);
    f.add(x, y)
  }

  ghost function Neg(f: Field, x: nat): (r: nat)
    requires IsField(f) && Elem(f, x)
    ensures Elem(f, r)
  {
    assert LawsAt(f, x, 0, 0);
    f.neg(x)
  }

  ghost function Sub(f: Field, x: nat, y: nat): (r: nat)
    requires IsField(f) && Elem(f, x) && Elem(f, y)
    ensures Elem(f, r)
  {
    Add(f, x, Neg(f, y))
  }

  ghost function Mul(f: Field, x: nat, y: nat): (r: nat)
    requires IsField(f) && Elem(f, x) && Elem(f, y)
    ensures Elem(f, r)
  {
    assert LawsAt(f, x, y, 0);
    f.mul(x, y)
  }

  ghost function Inv(f: Field, x: nat): (r: nat)
    requires IsField(f) && Elem(f, x)
    ensures Elem(f, r)
  {
    assert LawsAt(f, x, 0, 0);
    f.inv(x)
  }

  // ----- the laws, restated over the total operations -----

  lemma Ring(f: Field, x: nat, y: nat, z: nat)
    requires IsField(f) && Elem(f, x) && Elem(f, y) && Elem(f, z)
    ensures Add(f, x, y) == Add(f, y, x)
    ensures Add(f, Add(f, x, y), z) == Add(f, x, Add(f, y, z))
    ensures Add(f, x, 0) == x && Add(f, 0, x) == x
    ensures Add(f, x, Neg(f, x)) == 0
    ensures Mul(f, x, y) == Mul(f, y, x)
    ensures Mul(f, Mul(f, x, y), z) == Mul(f, x, Mul(f, y, z))
    ensures Mul(f, x, 1) == x && Mul(f, 1, x) == x
    ensures Mul(f, x, Add(f, y, z)) == Add(f, Mul(f, x, y), Mul(f, x, z))
    ensures x != 0 ==> Mul(f, x, Inv(f, x)) == 1
  {
    assert LawsAt(f, x, y, z);
    assert LawsAt(f, x, 0, 0);
    assert LawsAt(f, 0, x, 0);
    assert LawsAt(f, 1, x, 0);
    assert LawsAt(f, x, 1, 0);
  }

  lemma AddSwap(f: Field, a: nat, b: nat, c: nat, d: nat)
    requires IsField(f) && Elem(f, a) && Elem(f, b) && Elem(f, c) && Elem(f, d)
    ensures Add(f, Add(f, a, b), Add(f, c, d)) == Add(f, Add(f, a, c), Add(f, b, d))
  {
    Ring(f, a, b, Add(f, c, d));
    Ring(f, b, c, d);
    Ring(f, c, b, d);
    Ring(f, a, c, Add(f, b, d));
  }

  lemma MulSwap(f: Field, a: nat, b: nat, c: nat, d: nat)
    requires IsField(f) && Elem(f, a) && Elem(f, b) && Elem(f, c) && Elem(f, d)
    ensures Mul(f, Mul(f, a, b), Mul(f, c, d)) == Mul(f, Mul(f, a, c), Mul(f, b, d))
  {
    Ring(f, a, b, Mul(f, c, d));
    Ring(f, b, c, d);
    Ring(f, c, b, d);
    Ring(f, a, c, Mul(f, b, d));
  }

  lemma AddCancel(f: Field, a: nat, b: nat, c: nat)
    requires IsField(f) && Elem(f, a) && Elem(f, b) && Elem(f, c)
    requires Add(f, a, b) == Add(f, a, c)
    ensures b == c
  {
    var n := Neg(f, a);
    Ring(f, a, n, 0);
    Ring(f, n, a, b);
    Ring(f, n, a, c);
    Ring(f, b, 0, 0);
    Ring(f, c, 0, 0);
  }

  lemma MulZero(f: Field, x: nat)
    requires IsField(f) && Elem(f, x)
    ensures Mul(f, x, 0) == 0 && Mul(f, 0, x) == 0
  {
    var z := Mul(f, x, 0);
    Ring(f, x, 0, 0);
    Ring(f, z, 0, 0);
    Ring(f, 0, 0, 0);
    AddCancel(f, z, z, 0);
  }

  lemma SubBasics(f: Field, x: nat, y: nat)
    requires IsField(f) && Elem(f, x) && Elem(f, y)
    ensures Add(f, Sub(f, x, y), y) == x && Add(f, y, Sub(f, x, y)) == x
    ensures Sub(f, x, y) == 0 <==> x == y
    ensures Sub(f, Add(f, x, y), y) == x
  {
    var n := Neg(f, y);
    Ring(f, x, n, y);
    Ring(f, n, y, 0);
    Ring(f, y, n, 0);
    Ring(f, x, 0, 0);
    Ring(f, y, 0, 0);
    Ring(f, x, y, n);
    Ring(f, Sub(f, x, y), y, 0);
  }

  /** Subtraction is determined by the sum it undoes. */
  lemma SubUnique(f: Field, x: nat, y: nat, d: nat)
    requires IsField(f) && Elem(f, x) && Elem(f, y) && Elem(f, d)
    requires Add(f, d, y) == x
    ensures Sub(f, x, y) == d
  {
    SubBasics(f, d, y);
  }

  lemma MulSub(f: Field, x: nat, y: nat, z: nat)
    requires IsField(f) && Elem(f, x) && Elem(f, y) && Elem(f, z)
    ensures Mul(f, x, Sub(f, y, z)) == Sub(f, Mul(f, x, y), Mul(f, x, z))
  {
    SubBasics(f, y, z);
    Ring(f, x, Sub(f, y, z), z);
    SubUnique(f, Mul(f, x, y), Mul(f, x, z), Mul(f, x, Sub(f, y, z)));
  }

  lemma NegMul(f: Field, x: nat, y: nat)
    requires IsField(f) && Elem(f, x) && Elem(f, y)
    ensures Mul(f, x, Neg(f, y)) == Neg(f, Mul(f, x, y))
    ensures Mul(f, Neg(f, x), y) == Neg(f, Mul(f, x, y))
  {
    Ring(f, x, y, Neg(f, y));
    Ring(f, y, x, Neg(f, x));
    Ring(f, Neg(f, x), y, 0);
    Ring(f, y, 0, 0);
    Ring(f, x, 0, 0);
    MulZero(f, x);
    MulZero(f, y);
    var p := Mul(f, x, y);
    Ring(f, p, 0, 0);
    AddCancel(f, p, Mul(f, x, Neg(f, y)), Neg(f, p));
    AddCancel(f, p, Mul(f, Neg(f, x), y), Neg(f, p));
  }

  lemma MulCancel(f: Field, a: nat, b: nat, c: nat)
    requires IsField(f) && Elem(f, a) && Elem(f, b) && Elem(f, c)
    requires a != 0 && Mul(f, a, b) == Mul(f, a, c)
    ensures b == c
  {
    var i := Inv(f, a);
    Ring(f, a, i, 0);
    Ring(f, i, a, b);
    Ring(f, i, a, c);
    Ring(f, b, 0, 0);
    Ring(f, c, 0, 0);
  }

  lemma NoZeroDivisors(f: Field, a: nat, b: nat)
    requires IsField(f) && Elem(f, a) && Elem(f, b)
    requires a != 0 && b != 0
    ensures Mul(f, a, b) != 0
  {
    MulZero(f, a);
    if Mul(f, a, b) == 0 {
      MulCancel(f, a, b, 0);
    }
  }

  lemma InvOfProduct(f: Field, a: nat, b: nat)
    requires IsField(f) && Elem(f, a) && Elem(f, b)
    requires a != 0 && b != 0
    ensures Mul(f, a, b) != 0 && Inv(f, Mul(f, a, b)) == Mul(f, Inv(f, a), Inv(f, b))
  {
    NoZeroDivisors(f, a, b);
    var p, i := Mul(f, a, b), Mul(f, Inv(f, a), Inv(f, b));
    MulSwap(f, a, b, Inv(f, a), Inv(f, b));
    Ring(f, a, 0, 0);
    Ring(f, b, 0, 0);
    Ring(f, 1, 0, 0);
    Ring(f, p, 0, 0);
    MulCancel(f, p, Inv(f, p), i);
  }

  lemma NegSub(f: Field, x: nat, y: nat)
    requires IsField(f) && Elem(f, x) && Elem(f, y)
    ensures Sub(f, y, x) == Neg(f, Sub(f, x, y))
  {
    var d, e := Sub(f, x, y), Sub(f, y, x);
    SubBasics(f, x, y);
    SubBasics(f, y, x);
    Ring(f, d, e, x);
    Ring(f, x, 0, 0);
    Ring(f, x, Add(f, d, e), 0);
    AddCancel(f, x, Add(f, d, e), 0);
    Ring(f, d, 0, 0);
    AddCancel(f, d, e, Neg(f, d));
  }

  lemma InvNeg(f: Field, x: nat)
    requires IsField(f) && Elem(f, x) && x != 0
    ensures Neg(f, x) != 0 && Inv(f, Neg(f, x)) == Neg(f, Inv(f, x))
  {
    var n, i := Neg(f, x), Inv(f, x);
    Ring(f, x, n, 0);
    NegMul(f, x, i);
    NegMul(f, n, i);
    Ring(f, 1, Neg(f, 1), 0);
    Ring(f, Neg(f, 1), 1, 0);
    var m := Neg(f, Neg(f, 1));
    Ring(f, Neg(f, 1), m, 0);
    AddCancel(f, Neg(f, 1), m, 1);
    Ring(f, n, 0, 0);
    MulCancel(f, n, Inv(f, n), Neg(f, i));
  }

  /** (x - z) - (y - z) == x - y */
  lemma SubShift(f: Field, x: nat, y: nat, z: nat)
    requires IsField(f) && Elem(f, x) && Elem(f, y) && Elem(f, z)
    ensures Sub(f, Sub(f, x, z), Sub(f, y, z)) == Sub(f, x, y)
  {
    var d := Sub(f, x, y);
    SubBasics(f, x, y);
    Ring(f, d, y, Neg(f, z));
    SubUnique(f, Sub(f, x, z), Sub(f, y, z), d);
  }

  /** 1/x - 1/y == (y - x) / (x y) */
  lemma InvDifference(f: Field, x: nat, y: nat)
    requires IsField(f) && Elem(f, x) && Elem(f, y) && x != 0 && y != 0
    ensures Sub(f, Inv(f, x), Inv(f, y)) == Mul(f, Mul(f, Inv(f, x), Inv(f, y)), Sub(f, y, x))
  {
    var u, v := Inv(f, x), Inv(f, y);
    MulSub(f, Mul(f, u, v), y, x);
    Ring(f, u, v, y);
    Ring(f, y, v, 0);
    Ring(f, v, y, 0);
    Ring(f, u, 0, 0);
    Ring(f, v, u, x);
    Ring(f, u, v, 0);
    Ring(f, u, x, 0);
    Ring(f, x, u, 0);
    Ring(f, v, 0, 0);
  }
}
