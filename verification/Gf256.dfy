/**
 * The field GF(2^8) of section 4.2 of FIPS 197: bytes are polynomials over GF(2), added by
 * exclusive or and multiplied modulo x^8 + x^4 + x^3 + x + 1 (0x11b). The element 3 generates
 * its multiplicative group.
 */
module Gf256 {
  import opened Fields

  const POLYNOMIAL: nat := 0x11b
  const GENERATOR: nat := 3

  /** Bitwise exclusive or. */
  function Xor(a: nat, b: nat): nat
    decreases a, b
  {
    if a == 0 && b == 0 then 0 else 2 * Xor(a / 2, b / 2) + (a + b) % 2
  }

  /** Multiplication of a byte by x: a shift, reduced when it overflows. */
  function Xtime(a: nat): nat {
    if 2 * a < 256 then 2 * a else Xor(2 * a, POLYNOMIAL)
  }

  /** Shift-and-add multiplication, reducing at every shift. */
  function GfMul(a: nat, b: nat): nat
    decreases b
  {
    if b == 0 then 0 else Xor(if b % 2 == 1 then a else 0, GfMul(Xtime(a), b / 2))
  }

  /** Multiplication of polynomials over GF(2), not reduced. */
  ghost function Carryless(a: nat, b: nat): nat
    decreases b
  {
    if b == 0 then 0 else Xor(if b % 2 == 1 then a else 0, Carryless(2 * a, b / 2))
  }

  // ----- exclusive or -----

  lemma {:induction false} XorAssoc(a: nat, b: nat, c: nat)
    ensures Xor(Xor(a, b), c) == Xor(a, Xor(b, c))
    decreases a + b + c
  {
    if a + b + c > 0 {
      XorAssoc(a / 2, b / 2, c / 2);
      var x, y := Xor(a, b), Xor(b, c);
      XorHalves(a, b);
      XorHalves(b, c);
      XorHalves(x, c);
      XorHalves(a, y);
      Parity(x, a + b, c);
      Parity(y, b + c, a);
    }
  }

  lemma Parity(x: nat, y: nat, z: nat)
    requires x % 2 == y % 2
    ensures (x + z) % 2 == (y + z) % 2 && (z + x) % 2 == (z + y) % 2
  {
  }

  lemma XorHalves(a: nat, b: nat)
    ensures Xor(a, b) / 2 == Xor(a / 2, b / 2) && Xor(a, b) % 2 == (a + b) % 2
    ensures Xor(a, b) == 2 * Xor(a / 2, b / 2) + (a + b) % 2
  {
  }

  lemma {:induction false} XorComm(a: nat, b: nat)
    ensures Xor(a, b) == Xor(b, a)
    decreases a + b
  {
    if a + b > 0 {
      XorComm(a / 2, b / 2);
    }
  }

  lemma {:induction false} XorZero(a: nat)
    ensures Xor(a, 0) == a && Xor(0, a) == a
  {
    if a > 0 {
      XorZero(a / 2);
    }
  }

  lemma {:induction false} XorSelf(a: nat)
    ensures Xor(a, a) == 0
  {
    if a > 0 {
      XorSelf(a / 2);
    }
  }

  lemma XorSwap(a: nat, b: nat, c: nat, d: nat)
    ensures Xor(Xor(a, b), Xor(c, d)) == Xor(Xor(a, c), Xor(b, d))
  {
    hide Xor;
    XorAssoc(a, b, Xor(c, d));
    XorAssoc(b, c, d);
    XorComm(b, c);
    XorAssoc(c, b, d);
    XorAssoc(a, c, Xor(b, d));
  }

  function Pow2(k: nat): (r: nat)
    ensures r >= 1
  {
    if k == 0 then 1 else 2 * Pow2(k - 1)
  }

  lemma Halve(a: nat, h: nat)
    ensures (a + 2 * h) / 2 == a / 2 + h && (a + 2 * h) % 2 == a % 2
  {
  }

  lemma {:induction false} XorBelow(a: nat, b: nat, k: nat)
    requires a < Pow2(k) && b < Pow2(k)
    ensures Xor(a, b) < Pow2(k)
    ensures Xor(a + Pow2(k), b) == Xor(a, b) + Pow2(k)
  {
    hide Xor;
    if k == 0 {
      XorZero(0);
      XorZero(1);
    } else {
      XorBelow(a / 2, b / 2, k - 1);
      Halve(a, Pow2(k - 1));
      XorHalves(a, b);
      XorHalves(a + Pow2(k), b);
      Parity(a + Pow2(k), a, b);
    }
  }

  /** Exclusive or works below, and separately at, any bit position. */
  lemma XorTop(a: nat, b: nat, k: nat)
    requires a < Pow2(k) && b < Pow2(k)
    ensures Xor(a, b) < Pow2(k)
    ensures Xor(a + Pow2(k), b) == Xor(a, b) + Pow2(k)
    ensures Xor(a, b + Pow2(k)) == Xor(a, b) + Pow2(k)
    ensures Xor(a + Pow2(k), b + Pow2(k)) == Xor(a, b)
  {
    hide Xor;
    var p := Pow2(k);
    XorBelow(a, b, k);
    XorBelow(b, a, k);
    XorComm(a, b);
    XorComm(b + p, a);
    XorBelow(0, a, k);
    XorBelow(0, b, k);
    XorZero(a);
    XorZero(b);
    XorSwap(p, a, p, b);
    XorSelf(p);
    XorZero(Xor(a, b));
  }

  lemma ByteXor(a: nat, b: nat)
    requires a < 256 && b < 256
    ensures Xor(a, b) < 256
    ensures Xor(a, b) == 0 ==> a == b
  {
    hide Xor;
    assert Pow2(8) == 256;
    XorTop(a, b, 8);
    if Xor(a, b) == 0 {
      XorAssoc(a, b, b);
      XorSelf(b);
      XorZero(a);
      XorZero(b);
    }
  }

  // ----- shift and multiplication are linear -----

  lemma XtimeByte(a: nat)
    requires a < 256
    ensures Xtime(a) < 256
  {
    if 128 <= a {
      assert Pow2(8) == 256;
      XorTop(2 * a - 256, 0x1b, 8);
    }
  }

  lemma XtimeLinear(a: nat, b: nat)
    requires a < 256 && b < 256
    ensures Xtime(Xor(a, b)) == Xor(Xtime(a), Xtime(b))
  {
    hide Xor;
    var p, q, m := 2 * a, 2 * b, POLYNOMIAL;
    XorDouble(a, b);
    TopBit(a, b);
    XorAssoc(p, m, q);
    XorComm(m, q);
    XorAssoc(p, q, m);
    XorSwap(p, m, q, m);
    XorSelf(m);
    XorZero(Xor(p, q));
  }

  lemma XorDouble(a: nat, b: nat)
    ensures Xor(2 * a, 2 * b) == 2 * Xor(a, b)
  {
    hide Xor;
    XorHalves(2 * a, 2 * b);
  }

  lemma TopBit(a: nat, b: nat)
    requires a < 256 && b < 256
    ensures 128 <= Xor(a, b) <==> (128 <= a) != (128 <= b)
  {
    hide Xor;
    assert Pow2(7) == 128;
    var x, y := if 128 <= a then a - 128 else a, if 128 <= b then b - 128 else b;
    XorTop(x, y, 7);
  }

  lemma {:induction false} GfMulByte(a: nat, b: nat)
    requires a < 256
    ensures GfMul(a, b) < 256
    decreases b
  {
    if b > 0 {
      XtimeByte(a);
      GfMulByte(Xtime(a), b / 2);
      ByteXor(if b % 2 == 1 then a else 0, GfMul(Xtime(a), b / 2));
    }
  }

  lemma {:induction false} GfMulZero(b: nat)
    ensures GfMul(0, b) == 0
  {
    if b > 0 {
      assert Xtime(0) == 0;
      GfMulZero(b / 2);
      XorZero(0);
    }
  }

  lemma {:induction false} GfMulLeftLinear(a: nat, c: nat, b: nat)
    requires a < 256 && c < 256
    ensures GfMul(Xor(a, c), b) == Xor(GfMul(a, b), GfMul(c, b))
    decreases b
  {
    hide Xor;
    if b == 0 {
      XorZero(0);
    } else {
      var e := b % 2 == 1;
      XtimeByte(a);
      XtimeByte(c);
      XtimeLinear(a, c);
      GfMulLeftLinear(Xtime(a), Xtime(c), b / 2);
      XorZero(0);
      XorSwap(if e then a else 0, if e then c else 0, GfMul(Xtime(a), b / 2), GfMul(Xtime(c), b / 2));
    }
  }

  lemma {:induction false} GfMulRightLinear(a: nat, b: nat, c: nat)
    requires a < 256
    ensures GfMul(a, Xor(b, c)) == Xor(GfMul(a, b), GfMul(a, c))
    decreases b + c
  {
    hide Xor;
    if b == 0 || c == 0 {
      XorZero(b);
      XorZero(c);
      XorZero(GfMul(a, b));
      XorZero(GfMul(a, c));
    } else {
      XtimeByte(a);
      GfMulRightLinear(Xtime(a), b / 2, c / 2);
      XorHalves(b, c);
      var x, y := SelectBit(a, b), SelectBit(a, c);
      SelectLinear(a, b, c);
      var g, h := GfMul(Xtime(a), b / 2), GfMul(Xtime(a), c / 2);
      XorSwap(x, g, y, h);
      var d := Xor(b, c);
      assert GfMul(a, d) == Xor(SelectBit(a, d), GfMul(Xtime(a), d / 2)) by {
        XorZero(0);
      }
    }
  }

  /** The contribution of the lowest bit of `b` to a product. */
  function SelectBit(a: nat, b: nat): nat {
    if b % 2 == 1 then a else 0
  }

  lemma SelectLinear(a: nat, b: nat, c: nat)
    ensures SelectBit(a, Xor(b, c)) == Xor(SelectBit(a, b), SelectBit(a, c))
  {
    hide Xor;
    XorHalves(b, c);
    ParityOfSum(b, c);
    XorZero(0);
    XorZero(a);
    XorSelf(a);
  }

  lemma ParityOfSum(b: nat, c: nat)
    ensures (b + c) % 2 == if b % 2 == c % 2 then 0 else 1
  {
  }

  lemma {:induction false} GfMulXtime(a: nat, b: nat)
    requires a < 256
    ensures GfMul(Xtime(a), b) == Xtime(GfMul(a, b))
    decreases b
  {
    if b > 0 {
      XtimeByte(a);
      GfMulXtime(Xtime(a), b / 2);
      GfMulByte(Xtime(a), b / 2);
      XtimeLinear(if b % 2 == 1 then a else 0, GfMul(Xtime(a), b / 2));
    }
  }

  lemma GfMulOne(a: nat)
    ensures GfMul(a, 1) == a && (a < 256 ==> GfMul(1, a) == a)
  {
    XorZero(a);
    assert GfMul(Xtime(a), 0) == 0;
    if a < 256 {
      GfMulCommutes(a, 1);
    }
  }

  /** A polynomial that acts as zero on 1 acts as zero on every byte. */
  lemma {:induction false} VanishesEverywhere(a: nat, m: nat)
    requires a < 256 && GfMul(1, m) == 0
    ensures GfMul(a, m) == 0
  {
    hide Xor;
    if a == 0 {
      GfMulZero(m);
    } else if a > 1 {
      var h, e := a / 2, a % 2;
      VanishesEverywhere(h, m);
      VanishesEverywhere(e, m);
      ShiftIn(h, e);
      XtimeByte(h);
      GfMulLeftLinear(Xtime(h), e, m);
      GfMulXtime(h, m);
      assert Xtime(0) == 0;
      XorZero(0);
    }
  }

  /** The polynomial 0x11b acts as zero. */
  lemma PolynomialVanishes(a: nat)
    requires a < 256
    ensures GfMul(a, POLYNOMIAL) == 0
  {
    hide Xor;
    var top, low, m := 256, 27, POLYNOMIAL;
    assert m == Xor(top, low) by {
      assert Pow2(8) == 256;
      XorTop(0, low, 8);
      XorZero(low);
    }
    assert Xtime(128) == low by {
      XorAssoc(top, top, low);
      XorSelf(top);
      XorZero(low);
    }
    assert GfMul(1, top) == low by {
      assert Xtime(1) == 2 && top / 2 == 128;
      XorZero(GfMul(2, 128));
      GfMulXtime(1, 128);
      OneTimes(128);
    }
    OneTimes(low);
    GfMulRightLinear(1, top, low);
    XorSelf(low);
    VanishesEverywhere(a, m);
  }

  lemma ShiftIn(h: nat, e: nat)
    requires h < 128 && e < 2
    ensures 2 * h + e == Xor(Xtime(h), e)
  {
    XorZero(h);
  }

  lemma GfMulOfXtime(a: nat, b: nat)
    requires a < 256 && b < 256
    ensures GfMul(a, Xtime(b)) == Xtime(GfMul(a, b))
  {
    assert GfMul(a, 2 * b) == GfMul(Xtime(a), b) by {
      XorZero(GfMul(Xtime(a), b));
    }
    GfMulXtime(a, b);
    if 256 <= 2 * b {
      GfMulRightLinear(a, 2 * b, POLYNOMIAL);
      PolynomialVanishes(a);
      XorZero(GfMul(a, 2 * b));
    }
  }

  lemma {:induction false} GfMulCommutes(a: nat, b: nat)
    requires a < 256 && b < 256
    ensures GfMul(a, b) == GfMul(b, a)
    decreases a
  {
    hide Xor;
    if a == 0 {
      GfMulZero(b);
    } else {
      var h, e := a / 2, a % 2;
      GfMulCommutes(h, b);
      GfMulXtime(b, h);
      ShiftIn(h, e);
      XtimeByte(h);
      GfMulLeftLinear(Xtime(h), e, b);
      GfMulXtime(h, b);
      XorComm(GfMul(Xtime(h), b), GfMul(e, b));
      if e == 1 {
        OneTimes(b);
      } else {
        GfMulZero(b);
      }
    }
  }

  lemma {:induction false} OneTimes(b: nat)
    requires b < 256
    ensures GfMul(1, b) == b
  {
    if b > 0 {
      var h, e := b / 2, b % 2;
      OneTimes(h);
      GfMulXtime(1, h);
      ShiftIn(h, e);
      XorComm(Xtime(h), e);
    }
  }

  lemma {:induction false} GfMulAssoc(a: nat, b: nat, c: nat)
    requires a < 256 && b < 256
    ensures GfMul(GfMul(a, b), c) == GfMul(a, GfMul(b, c))
    decreases c
  {
    hide Xor;
    if c > 0 {
      var x := if c % 2 == 1 then b else 0;
      XtimeByte(b);
      GfMulAssoc(a, Xtime(b), c / 2);
      GfMulOfXtime(a, b);
      GfMulByte(a, b);
      GfMulRightLinear(a, x, GfMul(Xtime(b), c / 2));
    }
  }

  // ----- the product is the remainder of the carry-less product -----

  lemma {:induction false} CarrylessLeftLinear(a: nat, c: nat, b: nat)
    ensures Carryless(Xor(a, c), b) == Xor(Carryless(a, b), Carryless(c, b))
    decreases b
  {
    hide Xor;
    XorZero(0);
    if b > 0 {
      var e := b % 2 == 1;
      XorDouble(a, c);
      CarrylessLeftLinear(2 * a, 2 * c, b / 2);
      XorSwap(if e then a else 0, if e then c else 0, Carryless(2 * a, b / 2), Carryless(2 * c, b / 2));
    }
  }

  lemma {:induction false} CarrylessRightLinear(a: nat, b: nat, c: nat)
    ensures Carryless(a, Xor(b, c)) == Xor(Carryless(a, b), Carryless(a, c))
    decreases b + c
  {
    hide Xor;
    if b == 0 || c == 0 {
      XorZero(b);
      XorZero(c);
      XorZero(Carryless(a, b));
      XorZero(Carryless(a, c));
    } else {
      CarrylessRightLinear(2 * a, b / 2, c / 2);
      XorHalves(b, c);
      SelectLinear(a, b, c);
      XorSwap(SelectBit(a, b), Carryless(2 * a, b / 2), SelectBit(a, c), Carryless(2 * a, c / 2));
      var d := Xor(b, c);
      assert Carryless(a, d) == Xor(SelectBit(a, d), Carryless(2 * a, d / 2)) by {
        XorZero(0);
      }
    }
  }

  /** The carry-less product of two bytes is a multiple of 0x11b plus their field product. */
  lemma {:induction false} ProductIsRemainder(a: nat, b: nat) returns (q: nat)
    requires a < 256
    ensures GfMul(a, b) < 256
    ensures Carryless(a, b) == Xor(Carryless(POLYNOMIAL, q), GfMul(a, b))
    decreases b
  {
    hide Xor;
    GfMulByte(a, b);
    if b == 0 {
      q := 0;
      XorZero(0);
    } else {
      var h, m := b / 2, POLYNOMIAL;
      var x := if b % 2 == 1 then a else 0;
      XtimeByte(a);
      var q' := ProductIsRemainder(Xtime(a), h);
      var g := GfMul(Xtime(a), h);
      if 2 * a < 256 {
        q := q';
      } else {
        q := Xor(q', h);
        CarrylessRightLinear(m, q', h);
        // 2a == Xtime(a) ^ m
        XorAssoc(2 * a, m, m);
        XorSelf(m);
        XorZero(2 * a);
        CarrylessLeftLinear(Xtime(a), m, h);
        XorAssoc(Carryless(m, q'), g, Carryless(m, h));
        XorComm(g, Carryless(m, h));
        XorAssoc(Carryless(m, q'), Carryless(m, h), g);
      }
      assert Carryless(2 * a, h) == Xor(Carryless(m, q), g);
      XorAssoc(x, Carryless(m, q), g);
      XorComm(x, Carryless(m, q));
      XorAssoc(Carryless(m, q), x, g);
    }
  }

  lemma {:induction false} CarrylessDegree(a: nat, b: nat, k: nat, n: nat)
    requires Pow2(k) <= a < Pow2(k + 1) && Pow2(n) <= b < Pow2(n + 1)
    ensures Pow2(k + n) <= Carryless(a, b) < Pow2(k + n + 1)
    decreases b
  {
    hide Xor;
    if n == 0 {
      assert b == 1 && Carryless(2 * a, 0) == 0;
      XorZero(a);
    } else {
      assert Pow2(k + 1) <= 2 * a < Pow2(k + 2);
      CarrylessDegree(2 * a, b / 2, k + 1, n - 1);
      Pow2Monotone(k + 1, k + n);
      var c := Carryless(2 * a, b / 2);
      XorTop(if b % 2 == 1 then a else 0, c - Pow2(k + n), k + n);
    }
  }

  lemma {:induction false} Pow2Monotone(j: nat, k: nat)
    requires j <= k
    ensures Pow2(j) <= Pow2(k)
    decreases k - j
  {
    if j < k {
      Pow2Monotone(j + 1, k);
    }
  }

  /** Remainders modulo 0x11b are unique. */
  lemma RemainderUnique(p: nat, q: nat, r: nat, q': nat, r': nat)
    requires r < 256 && r' < 256
    requires p == Xor(Carryless(POLYNOMIAL, q), r) == Xor(Carryless(POLYNOMIAL, q'), r')
    ensures r == r'
  {
    hide Xor;
    var m := POLYNOMIAL;
    var x, y, e := Carryless(m, q), Carryless(m, q'), Xor(r, r');
    var d := Xor(q, q');
    CarrylessRightLinear(m, q, q');
    assert Xor(x, y) == e by {
      XorSwap(x, r, y, r');
      XorSelf(p);
      XorAssoc(Xor(x, y), e, e);
      XorSelf(e);
      XorZero(Xor(x, y));
      XorZero(e);
    }
    ByteXor(r, r');
    SmallMultiple(m, d);
  }

  lemma SmallMultiple(m: nat, d: nat)
    requires 256 <= m < 512 && Carryless(m, d) < 256
    ensures Carryless(m, d) == 0
  {
    if d > 0 {
      assert Pow2(8) == 256 && Pow2(9) == 512;
      MultipleIsLarge(m, d, 8);
    }
  }

  lemma MultipleIsLarge(m: nat, d: nat, k: nat)
    requires Pow2(k) <= m < Pow2(k + 1) && d > 0
    ensures Pow2(k) <= Carryless(m, d)
  {
    var n := Log2(d);
    CarrylessDegree(m, d, k, n);
    Pow2Monotone(k, k + n);
  }

  function Log2(d: nat): (n: nat)
    requires d > 0
    ensures Pow2(n) <= d < Pow2(n + 1)
  {
    if d == 1 then 0 else 1 + Log2(d / 2)
  }
}
