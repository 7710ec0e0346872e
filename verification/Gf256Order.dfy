/**
 * The element 3 of GF(2^8) has order 255, so its powers are exactly the non-zero bytes and every
 * non-zero byte has an inverse. This is what makes logarithm and exponent tables possible.
 */
module Gf256Order {
  import opened DivMod
  import opened Fields
  import opened Gf256

  function Power(g: nat, i: nat): nat {
    if i == 0 then 1 else GfMul(Power(g, i - 1), g)
  }

  /** The i-th power of the generator. */
  function Exp(i: nat): nat {
    Power(GENERATOR, i)
  }

  lemma {:induction false} PowerByte(g: nat, i: nat)
    requires g < 256
    ensures Power(g, i) < 256
  {
    if i > 0 {
      PowerByte(g, i - 1);
      GfMulByte(Power(g, i - 1), g);
    }
  }

  lemma {:induction false} PowerAdd(g: nat, i: nat, j: nat)
    requires g < 256
    ensures Power(g, i + j) == GfMul(Power(g, i), Power(g, j))
    decreases j
  {
    PowerByte(g, i);
    if j == 0 {
      GfMulOne(Power(g, i));
    } else {
      PowerAdd(g, i, j - 1);
      PowerByte(g, j - 1);
      GfMulAssoc(Power(g, i), Power(g, j - 1), g);
    }
  }

  lemma ExpNext(i: nat)
    ensures Exp(0) == 1 && Exp(i + 1) == GfMul(Exp(i), GENERATOR)
  {
  }

  // ----- arithmetic with constants: squares and triples, spelled out on the bits they change -----

  lemma XorJoin(x: nat, i: nat, y: nat, j: nat)
    requires i < 2 && j < 2
    ensures Xor(2 * x + i, 2 * y + j) == 2 * Xor(x, y) + (if i == j then 0 else 1)
  {
    hide Xor;
    var a, b := 2 * x + i, 2 * y + j;
    JoinHalves(x, i);
    JoinHalves(y, j);
    Parity(a, i, b);
    Parity(b, j, i);
    XorHalves(a, b);
  }

  lemma JoinHalves(x: nat, i: nat)
    requires i < 2
    ensures (2 * x + i) / 2 == x && (2 * x + i) % 2 == i
  {
  }

  function XtimeBits(a: int): int {
    if a < 128 then 2 * a else Reduced(a - 128)
  }

  /** 2a + 0x1b: bits 0, 1, 3 and 4 flipped. */
  function Reduced(a: int): int {
    2 * a + 1 + (if a % 2 == 0 then 2 else -2)
              + (if a / 4 % 2 == 0 then 8 else -8)
              + (if a / 8 % 2 == 0 then 16 else -16)
  }

  lemma XtimeIsXtimeBits(a: nat)
    requires a < 256
    ensures Xtime(a) == XtimeBits(a)
  {
    hide Xor;
    if 128 <= a {
      assert Pow2(8) == 256;
      XorTop(2 * a - 256, 27, 8);
      XorReduced(a - 128);
    }
  }

  lemma XorReduced(a: nat)
    ensures Xor(2 * a, 27) == Reduced(a)
  {
    hide Xor;
    var b, i := a / 2, a % 2;
    var c, j := b / 2, b % 2;
    var d, k := c / 2, c % 2;
    var e, l := d / 2, d % 2;
    XorWithReduction(e, l, k, j, i);
    assert d == 2 * e + l && c == 2 * d + k && b == 2 * c + j && a == 2 * b + i;
    assert a / 4 == c && a / 8 == d;
  }

  lemma XorWithReduction(e: nat, l: nat, k: nat, j: nat, i: nat)
    requires l < 2 && k < 2 && j < 2 && i < 2
    ensures Xor(2 * (2 * (2 * (2 * (2 * e + l) + k) + j) + i), 27)
         == 2 * (2 * (2 * (2 * (2 * e + 1 - l) + 1 - k) + j) + 1 - i) + 1
  {
    hide Xor;
    var c := 2 * (2 * e + l) + k;
    var b := 2 * c + j;
    var a := 2 * b + i;
    var x := 2 * (2 * e + 1 - l) + 1 - k;
    assert Xor(c, 3) == x by {
      FlipLowBits(e, l, k);
    }
    assert Xor(b, 6) == 2 * x + j by {
      XorJoin(c, j, 3, 0);
    }
    assert Xor(a, 13) == 2 * (2 * x + j) + 1 - i by {
      XorJoin(b, i, 6, 1);
    }
    assert Xor(2 * a, 27) == 2 * (2 * (2 * x + j) + 1 - i) + 1 by {
      XorJoin(a, 0, 13, 1);
    }
  }

  lemma FlipLowBits(e: nat, l: nat, k: nat)
    requires l < 2 && k < 2
    ensures Xor(2 * e + l, 1) == 2 * e + 1 - l
    ensures Xor(2 * (2 * e + l) + k, 3) == 2 * (2 * e + 1 - l) + 1 - k
  {
    hide Xor;
    var d := 2 * e + l;
    XorZero(e);
    XorJoin(e, l, 0, 1);
    XorJoin(d, k, 1, 1);
  }

  /** The lowest bit flipped when `e` is 1. */
  function FlipBit(t: int, e: nat): int {
    if e == 0 then t else if t % 2 == 0 then t + 1 else t - 1
  }

  function SquareBits(s: int, e: nat): int {
    FlipBit(XtimeBits(XtimeBits(s)), e)
  }

  /** The square of a byte, bit by bit. */
  function Square(a: nat): int {
    if a == 0 then 0 else SquareBits(Square(a / 2), a % 2)
  }

  function TripleBits(s: int, e: nat): int {
    FlipTwoBits(XtimeBits(s), e)
  }

  /** The two lowest bits flipped when `e` is 1. */
  function FlipTwoBits(t: int, e: nat): int {
    if e == 0 then t else t + (if t % 2 == 0 then 1 else -1) + (if t / 2 % 2 == 0 then 2 else -2)
  }

  /** Three times a byte, bit by bit. */
  function Triple(a: nat): int {
    if a == 0 then 0 else TripleBits(Triple(a / 2), a % 2)
  }

  lemma {:induction false} SquareIsSquare(a: nat)
    requires a < 256
    ensures GfMul(a, a) == Square(a)
  {
    hide Xor;
    if a == 0 {
    } else {
      var h, e := a / 2, a % 2;
      SquareIsSquare(h);
      SquareOfShift(h, e);
      GfMulByte(h, h);
      var s := GfMul(h, h);
      XtimeIsXtimeBits(s);
      XtimeByte(s);
      XtimeIsXtimeBits(Xtime(s));
      XorZero(Xtime(Xtime(s)));
      LowBit(Xtime(Xtime(s)));
    }
  }

  lemma LowBit(t: nat)
    ensures Xor(t, 1) == FlipBit(t, 1) && Xor(t, 3) == FlipTwoBits(t, 1)
  {
    hide Xor;
    var h, i := t / 2, t % 2;
    var q, j := h / 2, h % 2;
    assert t == 2 * h + i && h == 2 * q + j;
    FlipLowBits(h, i, 0);
    FlipLowBits(q, j, i);
    var u := 2 * (2 * q + j) + i;
    assert u == t;
    assert Xor(u, 3) == 2 * (2 * q + 1 - j) + 1 - i;
  }

  /** (2h + e)^2 == x^2 h^2 + e */
  lemma SquareOfShift(h: nat, e: nat)
    requires h < 128 && e < 2
    ensures GfMul(2 * h + e, 2 * h + e) == Xor(Xtime(Xtime(GfMul(h, h))), e)
  {
    hide Xor;
    var u, a := Xtime(h), 2 * h + e;
    XtimeByte(h);
    ShiftIn(h, e);
    GfMulLeftLinear(u, e, a);
    GfMulRightLinear(u, u, e);
    GfMulRightLinear(e, u, e);
    GfMulCommutes(u, e);
    var uu, ue, ee := GfMul(u, u), GfMul(u, e), GfMul(e, e);
    XorAssoc(uu, ue, Xor(ue, ee));
    XorAssoc(ue, ue, ee);
    XorSelf(ue);
    XorZero(ee);
    GfMulXtime(h, u);
    GfMulOfXtime(h, h);
    if e == 0 {
      GfMulZero(0);
    } else {
      OneTimes(1);
    }
  }

  lemma {:induction false} TripleIsTriple(a: nat, m: nat)
    requires a < 256 && m == 3
    ensures GfMul(a, m) == Triple(a)
  {
    hide Xor;
    if a == 0 {
      GfMulZero(m);
    } else {
      var h, e := a / 2, a % 2;
      TripleIsTriple(h, m);
      ShiftIn(h, e);
      XtimeByte(h);
      GfMulLeftLinear(Xtime(h), e, m);
      GfMulXtime(h, m);
      GfMulByte(h, m);
      var t := Xtime(GfMul(h, m));
      XtimeIsXtimeBits(GfMul(h, m));
      if e == 0 {
        GfMulZero(m);
        XorZero(t);
        assert GfMul(a, m) == t;
      } else {
        OneTimes(m);
        LowBit(t);
        assert GfMul(a, m) == Xor(t, m);
      }
      assert Triple(a) == TripleBits(GfMul(h, m), e);
    }
  }

  /** One bit of the computation of a square. */
  lemma SquareStep(h: nat, e: nat, s: int, r: int)
    requires 0 < h && e < 2 && Square(h) == s && SquareBits(s, e) == r
    ensures Square(2 * h + e) == r
  {
  }

  lemma TripleStep(h: nat, e: nat, s: int, r: int)
    requires 0 < h && e < 2 && Triple(h) == s && TripleBits(s, e) == r
    ensures Triple(2 * h + e) == r
  {
  }

  lemma SquareOf17()
    ensures Square(17) == 26
  {
    SquareStep(1, 0, 1, 4);
    SquareStep(2, 0, 4, 16);
    SquareStep(4, 0, 16, 64);
    SquareStep(8, 1, 64, 26);
  }

  lemma SquareOf26()
    ensures Square(26) == 95
  {
    SquareStep(1, 1, 1, 5);
    SquareStep(3, 0, 5, 20);
    SquareStep(6, 1, 20, 81);
    SquareStep(13, 0, 81, 95);
  }

  lemma SquareOf95()
    ensures Square(95) == 229
  {
    SquareStep(1, 0, 1, 4);
    SquareStep(2, 1, 4, 17);
    SquareStep(5, 1, 17, 69);
    SquareStep(11, 1, 69, 14);
    SquareStep(23, 1, 14, 57);
    SquareStep(47, 1, 57, 229);
  }

  lemma SquareOf229()
    ensures Square(229) == 76
  {
    SquareStep(1, 1, 1, 5);
    SquareStep(3, 1, 5, 21);
    SquareStep(7, 0, 21, 84);
    SquareStep(14, 0, 84, 75);
    SquareStep(28, 1, 75, 54);
    SquareStep(57, 0, 54, 216);
    SquareStep(114, 1, 216, 76);
  }

  lemma SquareOf76()
    ensures Square(76) == 251
  {
    SquareStep(1, 0, 1, 4);
    SquareStep(2, 0, 4, 16);
    SquareStep(4, 1, 16, 65);
    SquareStep(9, 1, 65, 30);
    SquareStep(19, 0, 30, 120);
    SquareStep(38, 0, 120, 251);
  }

  lemma SquareOf251()
    ensures Square(251) == 3
  {
    SquareStep(1, 1, 1, 5);
    SquareStep(3, 1, 5, 21);
    SquareStep(7, 1, 21, 85);
    SquareStep(15, 1, 85, 78);
    SquareStep(31, 0, 78, 35);
    SquareStep(62, 1, 35, 141);
    SquareStep(125, 1, 141, 3);
  }

  lemma TripleOf95()
    ensures Triple(95) == 225
  {
    TripleStep(1, 0, 3, 6);
    TripleStep(2, 1, 6, 15);
    TripleStep(5, 1, 15, 29);
    TripleStep(11, 1, 29, 57);
    TripleStep(23, 1, 57, 113);
    TripleStep(47, 1, 113, 225);
  }

  lemma SquareOf225()
    ensures Square(225) == 92
  {
    SquareStep(1, 1, 1, 5);
    SquareStep(3, 1, 5, 21);
    SquareStep(7, 0, 21, 84);
    SquareStep(14, 0, 84, 75);
    SquareStep(28, 0, 75, 55);
    SquareStep(56, 0, 55, 220);
    SquareStep(112, 1, 220, 92);
  }

  lemma SquareOf92()
    ensures Square(92) == 224
  {
    SquareStep(1, 0, 1, 4);
    SquareStep(2, 1, 4, 17);
    SquareStep(5, 1, 17, 69);
    SquareStep(11, 1, 69, 14);
    SquareStep(23, 0, 14, 56);
    SquareStep(46, 0, 56, 224);
  }

  lemma SquareOf51()
    ensures Square(51) == 114
  {
    SquareStep(1, 1, 1, 5);
    SquareStep(3, 0, 5, 20);
    SquareStep(6, 0, 20, 80);
    SquareStep(12, 1, 80, 90);
    SquareStep(25, 1, 90, 114);
  }

  lemma SquareOf114()
    ensures Square(114) == 216
  {
    SquareStep(1, 1, 1, 5);
    SquareStep(3, 1, 5, 21);
    SquareStep(7, 0, 21, 84);
    SquareStep(14, 0, 84, 75);
    SquareStep(28, 1, 75, 54);
    SquareStep(57, 0, 54, 216);
  }

  lemma TripleOf216()
    ensures Triple(216) == 115
  {
    TripleStep(1, 1, 3, 5);
    TripleStep(3, 0, 5, 10);
    TripleStep(6, 1, 10, 23);
    TripleStep(13, 1, 23, 45);
    TripleStep(27, 0, 45, 90);
    TripleStep(54, 0, 90, 180);
    TripleStep(108, 0, 180, 115);
  }

  lemma SquareOf115()
    ensures Square(115) == 217
  {
    SquareStep(1, 1, 1, 5);
    SquareStep(3, 1, 5, 21);
    SquareStep(7, 0, 21, 84);
    SquareStep(14, 0, 84, 75);
    SquareStep(28, 1, 75, 54);
    SquareStep(57, 1, 54, 217);
  }

  lemma SquareOf217()
    ensures Square(217) == 107
  {
    SquareStep(1, 1, 1, 5);
    SquareStep(3, 0, 5, 20);
    SquareStep(6, 1, 20, 81);
    SquareStep(13, 1, 81, 94);
    SquareStep(27, 0, 94, 99);
    SquareStep(54, 0, 99, 151);
    SquareStep(108, 1, 151, 107);
  }

  lemma TripleOf107()
    ensures Triple(107) == 189
  {
    TripleStep(1, 1, 3, 5);
    TripleStep(3, 0, 5, 10);
    TripleStep(6, 1, 10, 23);
    TripleStep(13, 0, 23, 46);
    TripleStep(26, 1, 46, 95);
    TripleStep(53, 1, 95, 189);
  }

  lemma TripleOf246()
    ensures Triple(246) == 1
  {
    TripleStep(1, 1, 3, 5);
    TripleStep(3, 1, 5, 9);
    TripleStep(7, 1, 9, 17);
    TripleStep(15, 0, 17, 34);
    TripleStep(30, 1, 34, 71);
    TripleStep(61, 1, 71, 141);
    TripleStep(123, 0, 141, 1);
  }

  // ----- the order of the generator -----

  lemma Doubled(n: nat, s: nat) returns (m: nat)
    requires Exp(n) == s
    ensures m == 2 * n && Exp(m) == Square(s)
  {
    m := 2 * n;
    PowerAdd(GENERATOR, n, n);
    PowerByte(GENERATOR, n);
    SquareIsSquare(s);
  }

  lemma Next(n: nat, s: nat) returns (m: nat)
    requires Exp(n) == s
    ensures m == n + 1 && Exp(m) == Triple(s)
  {
    m := n + 1;
    PowerByte(GENERATOR, n);
    TripleIsTriple(s, GENERATOR);
  }

  lemma SmallValues()
    ensures Triple(1) == 3 && Square(3) == 5 && Square(5) == 17
  {
    SquareStep(1, 1, 1, 5);
    SquareStep(1, 0, 1, 4);
    SquareStep(2, 1, 4, 17);
  }

  lemma TripleOf17()
    ensures Triple(17) == 51
  {
    TripleStep(1, 0, 3, 6);
    TripleStep(2, 0, 6, 12);
    TripleStep(4, 0, 12, 24);
    TripleStep(8, 1, 24, 51);
  }

  lemma ExpSmall() returns (n4: nat, n5: nat)
    ensures n4 == 4 && Exp(n4) == 17 && n5 == 5 && Exp(n5) == 51
  {
    SmallValues();
    var n := Next(0, 1);
    n := Doubled(n, 3);
    n4 := Doubled(n, 5);
    TripleOf17();
    n5 := Next(n4, 17);
  }

  lemma Exp16() returns (n: nat)
    ensures n == 16 && Exp(n) == 95
  {
    var n4, n5 := ExpSmall();
    SquareOf17();
    n := Doubled(n4, 17);
    SquareOf26();
    n := Doubled(n, 26);
  }

  /** 3^256 == 3, so 3^255 == 1 */
  lemma Exp255() returns (n: nat)
    ensures n == 255 && Exp(n) == 1
  {
    var m := Exp16();
    SquareOf95();
    m := Doubled(m, 95);
    SquareOf229();
    m := Doubled(m, 229);
    SquareOf76();
    m := Doubled(m, 76);
    SquareOf251();
    m := Doubled(m, 251);
    n := m - 1;
    CancelGenerator(Exp(n)) by {
      PowerByte(GENERATOR, n);
    }
  }

  /** 0xf6 is the inverse of 3. */
  lemma CancelGenerator(a: nat)
    requires a < 256 && GfMul(a, GENERATOR) == GENERATOR
    ensures a == 1
  {
    var g, h := GENERATOR, 246;
    TripleOf246();
    TripleIsTriple(h, g);
    GfMulCommutes(h, g);
    GfMulAssoc(a, g, h);
    GfMulOne(a);
  }

  lemma Exp51NotOne() returns (n: nat)
    ensures n == 51 && Exp(n) != 1
  {
    var u := Exp16();
    TripleOf95();
    u := Next(u, 95);
    SquareOf225();
    var v := Doubled(u, 225);
    SquareOf92();
    var w := Doubled(v, 92);
    n := u + v;
    // 3^68 == 3^51 3^17, so 3^51 == 1 would make 3^68 == 3^17
    PowerAdd(GENERATOR, n, u);
    OneTimes(Exp(u));
  }

  lemma Exp85NotOne() returns (n: nat)
    ensures n == 85 && Exp(n) != 1
  {
    var n4, m := ExpSmall();
    SquareOf51();
    m := Doubled(m, 51);
    SquareOf114();
    m := Doubled(m, 114);
    TripleOf216();
    m := Next(m, 216);
    SquareOf115();
    m := Doubled(m, 115);
    SquareOf217();
    m := Doubled(m, 217);
    TripleOf107();
    n := Next(m, 107);
  }

  lemma Exp15NotOne() returns (n: nat)
    ensures n == 15 && Exp(n) != 1
  {
    var m := Exp16();
    n := m - 1;
    if Exp(n) == 1 {
      OneTimes(GENERATOR);
    }
  }

  /** Exponents matter only modulo a period. */
  lemma {:induction false} DivideBy(p: nat, i: nat) returns (q: nat)
    requires p > 0 && Exp(p) == 1
    ensures i == p * q + i % p && Exp(i % p) == Exp(i)
    decreases i
  {
    hide Power;
    if i < p {
      q := 0;
      DivModUnique(i, p, 0, i);
    } else {
      var j := i - p;
      q := DivideBy(p, j);
      PowerAdd(GENERATOR, j, p);
      GfMulOne(Exp(j));
      SubtractDivisor(i, p, q);
      q := q + 1;
    }
  }

  lemma SubtractDivisor(i: nat, p: nat, q: nat)
    requires 0 < p <= i && i - p == p * q + (i - p) % p
    ensures (i - p) % p == i % p && i == p * (q + 1) + i % p
  {
    assert p * (q + 1) == p * q + p;
    DivModUnique(i, p, q + 1, (i - p) % p);
  }

  /** No power of 3 strictly between 0 and 255 is 1. */
  lemma {:induction false} NoSmallPeriod(k: nat)
    requires 0 < k < 255
    ensures Exp(k) != 1
  {
    if Exp(k) == 1 {
      var n := Exp255();
      var q := DivideBy(k, n);
      var r := n % k;
      if r > 0 {
        NoSmallPeriod(r);
      } else {
        ProperDivisorOf255(k, q);
        NoProperDivisorIsPeriod(k);
      }
    }
  }

  lemma NoProperDivisorIsPeriod(k: nat)
    requires 0 < k && (15 % k == 0 || 51 % k == 0 || 85 % k == 0)
    ensures Exp(k) != 1
  {
    if Exp(k) == 1 {
      var a := Exp15NotOne();
      var b := Exp51NotOne();
      var c := Exp85NotOne();
      var q := DivideBy(k, if a % k == 0 then a else if b % k == 0 then b else c);
    }
  }

  lemma ProperDivisorOf255(k: nat, q: nat)
    requires k * q == 255 && 0 < k < 255
    ensures 15 % k == 0 || 51 % k == 0 || 85 % k == 0
  {
    assert q > 1;
    if 17 <= k {
      assert q <= 15;
      assert q == 3 || q == 5 || q == 15;
    } else {
      assert k == 1 || k == 3 || k == 5 || k == 15;
    }
  }

  lemma ExpCyclic(i: nat)
    ensures Exp(i) == Exp(i % 255)
  {
    var n := Exp255();
    var q := DivideBy(n, i);
  }

  /** 3 has order 255. */
  lemma GeneratorOrder(k: nat)
    ensures Exp(k) == 1 <==> k % 255 == 0
  {
    ExpCyclic(k);
    ExpNext(0);
    if k % 255 != 0 {
      NoSmallPeriod(k % 255);
    }
    hide Power;
  }

  lemma ExpInverse(i: nat)
    requires i <= 255
    ensures GfMul(Exp(i), Exp(255 - i)) == 1
    ensures Exp(i) != 0
  {
    var n := Exp255();
    PowerAdd(GENERATOR, i, n - i);
    GfMulZero(Exp(n - i));
  }

  lemma ExpInjective(i: nat, j: nat)
    requires i < j < 255
    ensures Exp(i) != Exp(j)
  {
    if Exp(i) == Exp(j) {
      var d := j - i;
      PowerAdd(GENERATOR, d, i);
      PowerByte(GENERATOR, d);
      PowerByte(GENERATOR, i);
      PowerByte(GENERATOR, 255 - i);
      ExpInverse(i);
      FixesInvertible(Exp(d), Exp(i), Exp(255 - i));
      NoSmallPeriod(d);
    }
  }

  lemma FixesInvertible(a: nat, b: nat, inverse: nat)
    requires a < 256 && b < 256 && inverse < 256
    requires GfMul(b, inverse) == 1 && GfMul(a, b) == b
    ensures a == 1
  {
    GfMulAssoc(a, b, inverse);
    GfMulOne(a);
  }

  // ----- every non-zero byte is a power of the generator -----

  ghost function Powers(n: nat): set<nat> {
    if n == 0 then {} else Powers(n - 1) + {Exp(n - 1)}
  }

  ghost function UpTo(n: nat): set<nat> {
    if n == 0 then {} else UpTo(n - 1) + {n}
  }

  lemma {:induction false} UpToSize(n: nat)
    ensures |UpTo(n)| == n && forall x :: x in UpTo(n) <==> 0 < x <= n
  {
    if n > 0 {
      UpToSize(n - 1);
    }
  }

  lemma {:induction false} PowersAre(n: nat)
    requires n <= 255
    ensures |Powers(n)| == n
    ensures forall x :: x in Powers(n) ==> 0 < x < 256 && exists i :: 0 <= i < n && Exp(i) == x
  {
    if n > 0 {
      PowersAre(n - 1);
      var i := n - 1;
      ExpInverse(i);
      PowerByte(GENERATOR, i);
      forall j | 0 <= j < i
        ensures Exp(j) != Exp(i)
      {
        ExpInjective(j, i);
      }
    }
  }

  lemma EveryByteIsPower(b: nat)
    requires 0 < b < 256
    ensures exists i :: 0 <= i < 255 && Exp(i) == b
  {
    var n := Exp255();
    PowersAre(n);
    UpToSize(n);
    var p, u := Powers(n), UpTo(n);
    assert p <= u && b in u;
    if b !in p {
      var v := u - {b};
      assert |v| == |u| - 1;
      SubsetSize(p, v);
    }
  }

  lemma {:induction false} SubsetSize(s: set<nat>, t: set<nat>)
    requires s <= t
    ensures |s| <= |t|
  {
    if s != {} {
      var x :| x in s;
      SubsetSize(s - {x}, t - {x});
    }
  }

  /** The discrete logarithm of a non-zero byte. */
  ghost function Log(b: nat): (i: nat)
    requires 0 < b < 256
    ensures i < 255 && Exp(i) == b
  {
    EveryByteIsPower(b);
    var i :| 0 <= i < 255 && Exp(i) == b;
    i
  }

  ghost function GfInv(b: nat): nat {
    if 0 < b < 256 then Exp(255 - Log(b)) else 0
  }

  // ----- the field -----

  ghost function Field256(): Field {
    Field(256, (x, y) => Xor(x, y), x => x, (x, y) => GfMul(x, y), x => GfInv(x))
  }

  /** GF(2^8) satisfies the field laws. */
  lemma Field256IsField()
    ensures IsField(Field256())
  {
    forall x: nat, y: nat, z: nat
      ensures LawsAt(Field256(), x, y, z)
    {
      if x < 256 && y < 256 && z < 256 {
        LawsAt256(x, y, z);
      }
    }
  }

  lemma GfInvInverts(x: nat)
    requires x < 256
    ensures GfInv(x) < 256
    ensures x != 0 ==> GfMul(x, GfInv(x)) == 1
  {
    if x != 0 {
      ExpInverse(Log(x));
      PowerByte(GENERATOR, 255 - Log(x));
    }
  }

  lemma LawsAt256(x: nat, y: nat, z: nat)
    requires x < 256 && y < 256 && z < 256
    ensures LawsAt(Field256(), x, y, z)
  {
    ByteXor(x, y);
    XorComm(x, y);
    XorAssoc(x, y, z);
    XorZero(x);
    XorSelf(x);
    GfMulByte(x, y);
    GfMulCommutes(x, y);
    GfMulAssoc(x, y, z);
    GfMulOne(x);
    GfMulRightLinear(x, y, z);
    GfInvInverts(x);
  }
}
