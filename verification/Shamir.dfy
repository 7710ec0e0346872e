/**
 * Shamir's secret sharing over GF(2^8) (sdk/shamir.ts): the class with its lookup tables, and the
 * theorems that `combine` undoes `split` and that fewer shares than the threshold say nothing.
 */
module Shamir {
  import opened Wrappers
  import opened ByteStrings
  import opened Fields
  import opened Interpolation
  import opened Gf256
  import opened Gf256Order

  /** What a share says: its index and its data. */
  datatype ShareValue = ShareValue(index: nat, data: seq<nat>)

  /** The shares say what is written in `vs`. */
  ghost predicate Show(shares: seq<Share>, vs: seq<ShareValue>)
    reads set k | 0 <= k < |shares| :: shares[k].data
  {
    && |vs| == |shares|
    && forall k :: 0 <= k < |shares| ==> shares[k].index == vs[k].index && shares[k].data[..] == vs[k].data
  }

  /** `shares.map((s) => s.index)` */
  function IndexList(shares: seq<Share>): (r: seq<nat>)
    ensures |r| == |shares|
  {
    seq(|shares|, i requires 0 <= i < |shares| => shares[i].index)
  }

  class Share {
    const index: nat
    const data: array<nat>

    constructor (index: nat, length: nat)
      ensures this.index == index && fresh(data) && data.Length == length
    {
      this.index := index;
      this.data := new nat[length](_ => 0);
    }

    ghost function Value(): ShareValue
      reads data
    {
      ShareValue(index, data[..])
    }
  }

  // ----- what the operations compute -----

  /** The value at `x` of the polynomial with these byte coefficients. */
  ghost function ByteEval(coefficients: seq<nat>, x: nat): (r: nat)
    requires Bytes(coefficients) && IsByte(x)
    ensures IsByte(r)
  {
    Field256IsField();
    Eval(Field256(), coefficients, x)
  }

  /** The share at `index` of one byte of the secret, given the random higher coefficients. */
  ghost function ShareByte(secretByte: nat, higher: seq<nat>, index: nat): (r: nat)
    requires IsByte(secretByte) && Bytes(higher) && IsByte(index)
    ensures IsByte(r)
  {
    assert Bytes([secretByte] + higher);
    ByteEval([secretByte] + higher, index)
  }

  /** One list of `threshold - 1` random bytes for each byte of the secret. */
  ghost predicate ValidRandomness(randomness: seq<seq<nat>>, length: nat, threshold: int) {
    && |randomness| == length
    && forall b :: 0 <= b < length ==> |randomness[b]| == threshold - 1 && Bytes(randomness[b])
  }

  ghost function ShareData(secret: seq<nat>, randomness: seq<seq<nat>>, index: nat): (r: seq<nat>)
    requires Bytes(secret) && IsByte(index) && |randomness| == |secret|
    requires forall b :: 0 <= b < |secret| ==> Bytes(randomness[b])
    ensures |r| == |secret| && Bytes(r)
  {
    seq(|secret|, b requires 0 <= b < |secret| => ShareByte(secret[b], randomness[b], index))
  }

  ghost function Indices(shares: seq<ShareValue>): (r: seq<nat>)
    ensures |r| == |shares|
  {
    seq(|shares|, i requires 0 <= i < |shares| => shares[i].index)
  }

  /** The b-th data byte of every share. */
  ghost function Column(shares: seq<ShareValue>, b: nat): (r: seq<nat>)
    requires forall i :: 0 <= i < |shares| ==> b < |shares[i].data|
    ensures |r| == |shares|
  {
    seq(|shares|, i requires 0 <= i < |shares| => shares[i].data[b])
  }

  ghost predicate SharesOfBytes(shares: seq<ShareValue>) {
    forall i :: 0 <= i < |shares| ==> IsByte(shares[i].index) && Bytes(shares[i].data)
  }

  /** All shares have as many data bytes as the first one. */
  ghost predicate SameLengths(shares: seq<ShareValue>) {
    forall i :: 0 <= i < |shares| ==> |shares[i].data| == |shares[0].data|
  }

  /** The Lagrange combination at 0 of the shares, byte by byte. */
  ghost function Combined(shares: seq<ShareValue>): (r: seq<nat>)
    requires SharesOfBytes(shares) && SameLengths(shares) && shares != []
    ensures |r| == |shares[0].data|
  {
    seq(|shares[0].data|, b requires 0 <= b < |shares[0].data| => CombinedByte(shares, b))
  }

  ghost function CombinedByte(shares: seq<ShareValue>, b: nat): nat
    requires SharesOfBytes(shares)
    requires forall i :: 0 <= i < |shares| ==> b < |shares[i].data|
  {
    Field256IsField();
    IndicesAndColumnAreBytes(shares, b);
    Combination(Field256(), Indices(shares), Column(shares, b), |shares|)
  }

  /** A list has no duplicates exactly when its set of elements is as large as the list. */
  lemma {:induction false} DistinctBySize(xs: seq<nat>)
    ensures |set i | 0 <= i < |xs| :: xs[i]| <= |xs|
    ensures |set i | 0 <= i < |xs| :: xs[i]| == |xs| <==> Distinct(xs)
  {
    if xs != [] {
      var n := |xs| - 1;
      var ys := xs[..n];
      DistinctBySize(ys);
      var s, t := set i | 0 <= i < |xs| :: xs[i], set i | 0 <= i < n :: ys[i];
      assert s == t + {xs[n]} by {
        assert forall i :: 0 <= i < n ==> xs[i] == ys[i];
        forall x | x in t + {xs[n]}
          ensures x in s
        {
          if x in t {
            var i :| 0 <= i < n && ys[i] == x;
            assert xs[i] == x;
          }
        }
      }
      if xs[n] in t {
        var i :| 0 <= i < n && ys[i] == xs[n];
        assert xs[i] == xs[n];
        assert s == t;
      } else {
        assert forall i :: 0 <= i < n ==> ys[i] in t;
        assert Distinct(ys) ==> Distinct(xs);
      }
      if Distinct(xs) {
        assert Distinct(ys);
      }
    }
  }

  lemma IndicesAndColumnAreBytes(shares: seq<ShareValue>, b: nat)
    requires SharesOfBytes(shares)
    requires forall i :: 0 <= i < |shares| ==> b < |shares[i].data|
    ensures Elems(Field256(), Indices(shares)) && Elems(Field256(), Column(shares, b))
  {
    forall i | 0 <= i < |shares|
      ensures Indices(shares)[i] < 256 && Column(shares, b)[i] < 256
    {
      assert IsByte(shares[i].data[b]);
    }
  }

  /** Multiplying up numerator and denominator with table operations is the field's own step. */
  lemma ByteFraction(numerator: nat, denominator: nat, xi: nat, xj: nat)
    requires IsByte(numerator) && IsByte(denominator) && IsByte(xi) && IsByte(xj)
    ensures IsField(Field256())
    ensures Sub(Field256(), xj, xi) == Xor(xi, xj)
    ensures IsByte(Xor(xi, xj)) && IsByte(GfMul(numerator, xj)) && IsByte(GfMul(denominator, Xor(xi, xj)))
  {
    Field256IsField();
    XorComm(xi, xj);
    ByteXor(xi, xj);
    GfMulByte(numerator, xj);
    GfMulByte(denominator, Xor(xi, xj));
  }

  /** One more factor of the i-th basis fraction, computed on bytes. */
  lemma FractionStep(xs: seq<nat>, i: nat, j: nat, numerator: nat, denominator: nat)
    requires Bytes(xs) && Distinct(xs) && i < |xs| && j < |xs| && i != j
    requires IsByte(numerator) && IsByte(denominator) && denominator != 0
    requires IsField(Field256()) && Elems(Field256(), Others(xs, i, j))
    requires Weight(Field256(), Others(xs, i, j), xs[i]) == GfMul(numerator, GfInv(denominator))
    ensures var n, d := GfMul(numerator, xs[j]), GfMul(denominator, Xor(xs[i], xs[j]));
      && IsByte(Xor(xs[i], xs[j])) && IsByte(n) && IsByte(d) && d != 0
      && Elems(Field256(), Others(xs, i, j + 1))
      && Weight(Field256(), Others(xs, i, j + 1), xs[i]) == GfMul(n, GfInv(d))
  {
    hide Xor, GfMul, GfInv, Weight, LawsAt;
    var f := Field256();
    assert IsByte(xs[i]) && IsByte(xs[j]) && xs[i] != xs[j];
    assert Others(xs, i, j + 1) == Others(xs, i, j) + [xs[j]];
    WeightStep(f, Others(xs, i, j), xs[j], xs[i], numerator, denominator);
    ByteFraction(numerator, denominator, xs[i], xs[j]);
  }

  lemma FreshPower(i: nat)
    requires i < 255
    ensures forall k :: 0 <= k < i ==> Exp(k) != Exp(i)
  {
    forall k | 0 <= k < i
      ensures Exp(k) != Exp(i)
    {
      ExpInjective(k, i);
    }
  }

  lemma DivideByLogs(a: nat, b: nat, logA: nat, logB: nat)
    requires 0 < a < 256 && 0 < b < 256 && logA < 255 && logB < 255
    requires Exp(logA) == a && Exp(logB) == b
    ensures Exp((255 + logA - logB) % 255) == GfMul(a, GfInv(b))
  {
    hide Power;
    if logB < Log(b) {
      ExpInjective(logB, Log(b));
    } else if Log(b) < logB {
      ExpInjective(Log(b), logB);
    }
    PowerAdd(GENERATOR, logA, 255 - logB);
    ExpCyclic(255 + logA - logB);
  }

  lemma HornerByte(cs: seq<nat>, i: nat, x: nat)
    requires Bytes(cs) && i < |cs| && IsByte(x) && IsField(Field256())
    ensures IsByte(Eval(Field256(), cs[i + 1..], x))
    ensures Eval(Field256(), cs[i..], x) == Xor(GfMul(Eval(Field256(), cs[i + 1..], x), x), cs[i])
  {
    var rest := Eval(Field256(), cs[i + 1..], x);
    assert cs[i..][1..] == cs[i + 1..];
    GfMulCommutes(x, rest);
    XorComm(cs[i], GfMul(x, rest));
  }

  // ----- the class -----

  class ShamirSecretSharing {
    const logTable: array<nat>
    const expTable: array<nat>

    /** The tables hold the powers of 3 and their logarithms. */
    ghost predicate Valid()
      reads logTable, expTable
    {
      && logTable.Length == 256 && expTable.Length == 256
      && (forall i :: 0 <= i < 255 ==> expTable[i] == Exp(i))
      && (forall b :: 0 < b < 256 ==> logTable[b] < 255 && Exp(logTable[b]) == b)
    }

    constructor ()
      ensures Valid() && fresh(logTable) && fresh(expTable)
      ensures expTable[255] == expTable[0] == 1 && logTable[0] == 0
    {
      hide Power, GfMul, Xor;
      logTable := new nat[256](_ => 0);
      expTable := new nat[256](_ => 0);
      new;
      ExpNext(0);
      var x := 1;
      for i := 0 to 255
        invariant x == Exp(i)
        invariant forall k :: 0 <= k < i ==> expTable[k] == Exp(k)
        invariant forall k :: 0 <= k < i ==> Exp(k) < 256 && logTable[Exp(k)] == k
        invariant logTable[0] == 0
      {
        PowerByte(GENERATOR, i);
        ExpNext(i);
        FreshPower(i);
        ExpInverse(i);
        expTable[i] := x;
        logTable[x] := i;
        x := GfMultiplyNoTable(x, 3);
      }
      expTable[255] := expTable[0];
      forall b | 0 < b < 256
        ensures logTable[b] < 255 && Exp(logTable[b]) == b
      {
        EveryByteIsPower(b);
      }
    }

    static method GfMultiplyNoTable(a: nat, b: nat) returns (r: nat)
      requires IsByte(a) && IsByte(b)
      ensures r == GfMul(a, b)
    {
      hide Xor;
      var result, a', b' := 0, a, b;
      XorZero(GfMul(a, b));
      GfMulByte(a, b);
      while b' > 0
        invariant result < 256 && a' < 256
        invariant GfMul(a, b) == Xor(result, GfMul(a', b'))
      {
        XtimeByte(a');
        ghost var rest := GfMul(Xtime(a'), b' / 2);
        if b' % 2 == 1 {
          XorAssoc(result, a', rest);
          ByteXor(result, a');
          result := Xor(result, a');
        } else {
          XorZero(rest);
        }
        a' := 2 * a';
        if a' / 256 % 2 == 1 {
          a' := Xor(a', POLYNOMIAL);
        }
        b' := b' / 2;
      }
      XorZero(result);
      r := result % 256;
    }

    function GfAdd(a: nat, b: nat): nat {
      Xor(a, b)
    }

    function GfMultiply(a: nat, b: nat): (r: nat)
      requires Valid() && IsByte(a) && IsByte(b)
      reads logTable, expTable
      ensures r == GfMul(a, b)
    {
      GfMulZero(b);
      if a == 0 || b == 0 then 0 else
        var logSum := logTable[a] + logTable[b];
        PowerAdd(GENERATOR, logTable[a], logTable[b]);
        ExpCyclic(logSum);
        expTable[logSum % 255]
    }

    /** Division is multiplication by the inverse; dividing by zero throws. */
    function GfDivide(a: nat, b: nat): (r: Result<nat>)
      requires Valid() && IsByte(a) && IsByte(b)
      reads logTable, expTable
      ensures r == if b == 0 then Failure("Division by zero in GF(2^8)") else Success(GfMul(a, GfInv(b)))
    {
      if b == 0 then Failure("Division by zero in GF(2^8)")
      else if a == 0 then
        GfMulZero(GfInv(b));
        Success(0)
      else
        var logA, logB := logTable[a], logTable[b];
        DivideByLogs(a, b, logA, logB);
        Success(expTable[(255 + logA - logB) % 255])
    }

    method EvaluatePolynomial(coefficients: array<nat>, x: nat) returns (result: nat)
      requires Valid() && IsByte(x)
      requires coefficients.Length > 0 && Bytes(coefficients[..])
      ensures result == ByteEval(coefficients[..], x)
    {
      ghost var cs := coefficients[..];
      Field256IsField();
      if x == 0 {
        EvalAtZero(Field256(), cs);
        return coefficients[0];
      }
      result := 0;
      var i := coefficients.Length - 1;
      assert cs[i + 1..] == [];
      while i >= 0
        invariant -1 <= i < coefficients.Length
        invariant result == Eval(Field256(), cs[i + 1..], x)
      {
        HornerByte(cs, i, x);
        result := GfAdd(GfMultiply(result, x), coefficients[i]);
        i := i - 1;
      }
      assert cs[0..] == cs;
    }

    /** The part of `split` that handles one byte of the secret. */
    method SplitByte(shares: seq<Share>, byteIndex: nat, secretByte: nat, randomCoeffs: seq<nat>, threshold: nat)
      requires Valid() && IsByte(secretByte) && Bytes(randomCoeffs) && |randomCoeffs| == threshold - 1
      requires |shares| <= 255
      requires forall k :: 0 <= k < |shares| ==>
        && shares[k].index == k + 1 && byteIndex < shares[k].data.Length
        && shares[k].data != logTable && shares[k].data != expTable
      requires forall k, l :: 0 <= k < l < |shares| ==> shares[k].data != shares[l].data
      modifies set k | 0 <= k < |shares| :: shares[k].data
      ensures forall k :: 0 <= k < |shares| ==>
        shares[k].data[..] == old(shares[k].data[..])[byteIndex := ShareByte(secretByte, randomCoeffs, k + 1)]
    {
      var coefficients := new nat[threshold](_ => 0);
      coefficients[0] := secretByte;
      for i := 1 to threshold
        modifies coefficients
        invariant coefficients[0] == secretByte
        invariant forall j :: 1 <= j < i ==> coefficients[j] == randomCoeffs[j - 1]
      {
        coefficients[i] := randomCoeffs[i - 1];
      }
      ghost var cs := [secretByte] + randomCoeffs;
      assert coefficients[..] == cs && Bytes(cs);
      for shareIndex := 1 to |shares| + 1
        invariant coefficients[..] == cs
        invariant forall k :: shareIndex - 1 <= k < |shares| ==> shares[k].data[..] == old(shares[k].data[..])
        invariant forall k :: 0 <= k < shareIndex - 1 ==>
          shares[k].data[..] == old(shares[k].data[..])[byteIndex := ShareByte(secretByte, randomCoeffs, k + 1)]
      {
        var value := EvaluatePolynomial(coefficients, shareIndex);
        shares[shareIndex - 1].data[byteIndex] := value;
      }
    }

    method Split(secret: seq<nat>, numShares: int, threshold: int, randomness: seq<seq<nat>>)
      returns (r: Result<seq<Share>>)
      requires Valid() && Bytes(secret)
      requires 2 <= threshold <= numShares <= 255 && |secret| > 0 ==>
                 ValidRandomness(randomness, |secret|, threshold)
      ensures r.Success? <==> 2 <= threshold <= numShares <= 255 && |secret| > 0
      ensures threshold < 2 ==> r == Failure("Threshold must be at least 2")
      ensures 2 <= threshold && numShares < threshold ==> r == Failure("Threshold cannot exceed number of shares")
      ensures 2 <= threshold <= numShares && 255 < numShares ==> r == Failure("Maximum 255 shares supported")
      ensures 2 <= threshold <= numShares <= 255 && |secret| == 0 ==> r == Failure("Secret cannot be empty")
      ensures r.Success? ==>
                && |r.value| == numShares
                && forall k :: 0 <= k < numShares ==>
                     && fresh(r.value[k].data)
                     && r.value[k].Value() == ShareValue(k + 1, ShareData(secret, randomness, k + 1))
    {
      if threshold < 2 {
        return Failure("Threshold must be at least 2");
      }
      if threshold > numShares {
        return Failure("Threshold cannot exceed number of shares");
      }
      if numShares > 255 {
        return Failure("Maximum 255 shares supported");
      }
      if |secret| == 0 {
        return Failure("Secret cannot be empty");
      }
      var shares: seq<Share> := [];
      for shareIndex := 1 to numShares + 1
        invariant |shares| == shareIndex - 1
        invariant forall k :: 0 <= k < |shares| ==>
          shares[k].index == k + 1 && fresh(shares[k].data) && shares[k].data.Length == |secret|
        invariant forall k, l :: 0 <= k < l < |shares| ==> shares[k].data != shares[l].data
      {
        var share := new Share(shareIndex, |secret|);
        shares := shares + [share];
      }
      for byteIndex := 0 to |secret|
        invariant forall k, b :: 0 <= k < numShares && 0 <= b < byteIndex ==>
          shares[k].data[b] == ShareByte(secret[b], randomness[b], k + 1)
      {
        SplitByte(shares, byteIndex, secret[byteIndex], randomness[byteIndex], threshold);
      }
      forall k | 0 <= k < numShares
        ensures shares[k].data[..] == ShareData(secret, randomness, k + 1)
      {
      }
      r := Success(shares);
    }

    /** Numerator and denominator of the i-th Lagrange basis polynomial at 0. */
    method BasisFraction(shares: seq<Share>, i: nat) returns (numerator: nat, denominator: nat)
      requires Valid() && i < |shares|
      requires Bytes(IndexList(shares)) && Distinct(IndexList(shares))
      ensures IsByte(numerator) && IsByte(denominator) && denominator != 0
      ensures IsField(Field256()) && Elems(Field256(), IndexList(shares))
      ensures GfMul(numerator, GfInv(denominator)) == Basis(Field256(), IndexList(shares), i)
    {
      hide Valid, Exp, Power;
      ghost var f, xs := Field256(), IndexList(shares);
      Field256IsField();
      assert Elems(f, xs);
      var xi := shares[i].index;
      assert IsByte(xs[i]);
      numerator, denominator := 1, 1;
      WeightStart(f, xi);
      hide Xor, GfMul, GfInv, Weight, LawsAt, IsField;
      for j := 0 to |shares|
        invariant IsByte(numerator) && IsByte(denominator) && denominator != 0
        invariant Elems(f, Others(xs, i, j))
        invariant Weight(f, Others(xs, i, j), xi) == GfMul(numerator, GfInv(denominator))
      {
        assert IsByte(xs[i]) && IsByte(xs[j]);
        if i != j {
          var xj := shares[j].index;
          FractionStep(xs, i, j, numerator, denominator);
          numerator := GfMultiply(numerator, xj);
          denominator := GfMultiply(denominator, GfAdd(xi, xj));
        } else {
          assert Others(xs, i, j + 1) == Others(xs, i, j);
        }
      }
      assert Others(xs, i, |shares|) == Without(xs, i);
    }

    /** The checks at the start of `combine`. */
    static method CheckShares(shares: seq<Share>, ghost vs: seq<ShareValue>) returns (error: Option<string>)
      requires Show(shares, vs)
      ensures error.None? <==> |vs| >= 2 && SameLengths(vs) && Distinct(Indices(vs))
      ensures |vs| < 2 ==> error == Some("Need at least 2 shares to reconstruct")
      ensures |vs| >= 2 && !SameLengths(vs) ==> error == Some("All shares must have same data length")
      ensures |vs| >= 2 && SameLengths(vs) && !Distinct(Indices(vs)) ==>
                error == Some("Duplicate share indices detected")
    {
      if |shares| < 2 {
        return Some("Need at least 2 shares to reconstruct");
      }
      var dataLength := shares[0].data.Length;
      for k := 0 to |shares|
        invariant forall i :: 0 <= i < k ==> |vs[i].data| == dataLength
      {
        if shares[k].data.Length != dataLength {
          assert |vs[k].data| != |vs[0].data|;
          return Some("All shares must have same data length");
        }
      }
      var indexList := IndexList(shares);
      var indices := set i | 0 <= i < |indexList| :: indexList[i];
      assert indexList == Indices(vs);
      DistinctBySize(indexList);
      if |indices| != |shares| {
        return Some("Duplicate share indices detected");
      }
      return None;
    }

    method Combine(shares: seq<Share>, ghost vs: seq<ShareValue>) returns (r: Result<array<nat>>)
      requires Valid() && Show(shares, vs) && SharesOfBytes(vs)
      ensures r.Success? <==> |vs| >= 2 && SameLengths(vs) && Distinct(Indices(vs))
      ensures |vs| < 2 ==> r == Failure("Need at least 2 shares to reconstruct")
      ensures |vs| >= 2 && !SameLengths(vs) ==> r == Failure("All shares must have same data length")
      ensures |vs| >= 2 && SameLengths(vs) && !Distinct(Indices(vs)) ==>
                r == Failure("Duplicate share indices detected")
      ensures r.Success? ==> fresh(r.value) && r.value[..] == Combined(vs)
    {
      var error := CheckShares(shares, vs);
      if error.Some? {
        return Failure(error.value);
      }
      var result := new nat[shares[0].data.Length](_ => 0);
      CombineBytes(shares, vs, result);
      r := Success(result);
    }

    /** The loop of `combine` over the bytes of the secret. */
    method CombineBytes(shares: seq<Share>, ghost vs: seq<ShareValue>, result: array<nat>)
      requires Valid() && Show(shares, vs) && SharesOfBytes(vs)
      requires |vs| >= 2 && SameLengths(vs) && Distinct(Indices(vs)) && result.Length == |vs[0].data|
      requires result != logTable && result != expTable
      requires forall k :: 0 <= k < |shares| ==> shares[k].data != result
      modifies result
      ensures result[..] == Combined(vs)
    {
      hide CombinedByte;
      for byteIndex := 0 to result.Length
        invariant forall b :: 0 <= b < byteIndex ==> result[b] == CombinedByte(vs, b)
      {
        var value := CombineByte(shares, vs, byteIndex);
        result[byteIndex] := value;
      }
      assert result[..] == Combined(vs);
    }

    /** The part of `combine` that reconstructs one byte of the secret. */
    method CombineByte(shares: seq<Share>, ghost vs: seq<ShareValue>, byteIndex: nat) returns (value: nat)
      requires Valid() && Show(shares, vs) && SharesOfBytes(vs) && Distinct(Indices(vs))
      requires forall i :: 0 <= i < |vs| ==> byteIndex < |vs[i].data|
      ensures value == CombinedByte(vs, byteIndex)
    {
      hide Xor, GfMul, GfInv, Basis, LawsAt, IsField;
      ghost var f, xs, ys := Field256(), Indices(vs), Column(vs, byteIndex);
      Field256IsField();
      IndicesAndColumnAreBytes(vs, byteIndex);
      assert xs == IndexList(shares);
      value := 0;
      for i := 0 to |shares|
        invariant IsByte(value) && value == Combination(f, xs, ys, i)
      {
        var yi := shares[i].data[byteIndex];
        assert yi == ys[i];
        var numerator, denominator := BasisFraction(shares, i);
        GfInvInverts(denominator);
        GfMulByte(numerator, GfInv(denominator));
        var quotient := GfDivide(numerator, denominator);
        var lagrangeTerm := GfMultiply(yi, quotient.value);
        GfMulByte(yi, quotient.value);
        ByteXor(value, lagrangeTerm);
        value := GfAdd(value, lagrangeTerm);
      }
    }

    /**
     * The usage the module is made for: split a secret, then combine the shares at some different
     * positions. Any `threshold` of them or more give the secret back.
     */
    method SplitThenCombine(
        secret: seq<nat>, numShares: int, threshold: int, randomness: seq<seq<nat>>, positions: seq<nat>)
      returns (r: Result<seq<nat>>)
      requires Valid() && Bytes(secret)
      requires 2 <= threshold <= numShares <= 255 && |secret| > 0 ==>
                 ValidRandomness(randomness, |secret|, threshold)
      requires Distinct(positions) && forall i :: 0 <= i < |positions| ==> positions[i] < numShares
      ensures 2 <= threshold <= numShares <= 255 && |secret| > 0 && threshold <= |positions| ==> r == Success(secret)
      ensures !(2 <= threshold <= numShares <= 255 && |secret| > 0 && 2 <= |positions|) ==> r.Failure?
    {
      var split := Split(secret, numShares, threshold, randomness);
      if split.Failure? {
        return Failure(split.error);
      }
      var picked := seq(|positions|, i requires 0 <= i < |positions| => split.value[positions[i]]);
      ghost var vs := seq(|picked|, i requires 0 <= i < |picked| =>
        ShareValue(positions[i] + 1, ShareData(secret, randomness, positions[i] + 1)));
      assert Show(picked, vs) by {
        assert forall i :: 0 <= i < |picked| ==> picked[i].Value() == vs[i];
      }
      if threshold <= |positions| {
        RoundTrip(secret, numShares, threshold, randomness, vs);
      }
      var combined := Combine(picked, vs);
      if combined.Failure? {
        return Failure(combined.error);
      }
      r := Success(combined.value[..]);
    }

    /** All shares of one split together: whenever `split` hands out shares, `combine` undoes it. */
    method SplitThenCombineAll(secret: seq<nat>, numShares: int, threshold: int, randomness: seq<seq<nat>>)
      returns (split: Result<seq<Share>>, back: Result<array<nat>>)
      requires Valid() && Bytes(secret)
      requires 2 <= threshold <= numShares <= 255 && |secret| > 0 ==>
                 ValidRandomness(randomness, |secret|, threshold)
      ensures split.Success? ==> |split.value| == numShares && back.Success? && back.value[..] == secret
      ensures split.Failure? ==> back == Failure(split.error)
    {
      split := Split(secret, numShares, threshold, randomness);
      if split.Failure? {
        return split, Failure(split.error);
      }
      ghost var vs := seq(numShares, i requires 0 <= i < numShares =>
        ShareValue(i + 1, ShareData(secret, randomness, i + 1)));
      assert Show(split.value, vs) by {
        assert forall i :: 0 <= i < numShares ==> split.value[i].Value() == vs[i];
      }
      RoundTrip(secret, numShares, threshold, randomness, vs);
      back := Combine(split.value, vs);
    }
  }

  // ----- the guarantees of the scheme -----

  /** Any shares of one split, at least `threshold` of them and all different, give the secret back. */
  lemma RoundTrip(secret: seq<nat>, numShares: int, threshold: int, randomness: seq<seq<nat>>, picked: seq<ShareValue>)
    requires Bytes(secret) && 2 <= threshold <= numShares <= 255
    requires ValidRandomness(randomness, |secret|, threshold)
    requires forall i :: 0 <= i < |picked| ==>
      1 <= picked[i].index <= numShares && picked[i].data == ShareData(secret, randomness, picked[i].index)
    requires threshold <= |picked| && Distinct(Indices(picked))
    ensures SharesOfBytes(picked) && SameLengths(picked)
    ensures Combined(picked) == secret
  {
    forall b | 0 <= b < |secret|
      ensures CombinedByte(picked, b) == secret[b]
    {
      var f, xs, ys, cs := Field256(), Indices(picked), Column(picked, b), [secret[b]] + randomness[b];
      Field256IsField();
      IndicesAndColumnAreBytes(picked, b);
      assert Bytes(cs);
      forall i | 0 <= i < |picked|
        ensures ys[i] == Eval(f, cs, xs[i])
      {
        assert picked[i].data[b] == ShareByte(secret[b], randomness[b], picked[i].index);
      }
      Reconstruct(f, xs, ys, cs);
    }
  }

  /**
   * One share less than the threshold says nothing: whatever the shares seen, every secret of their
   * length is possible, and exactly one choice of the random bytes explains them.
   */
  lemma PerfectSecrecy(secret: seq<nat>, threshold: int, seen: seq<ShareValue>) returns (randomness: seq<seq<nat>>)
    requires Bytes(secret) && |seen| == threshold - 1
    requires forall i :: 0 <= i < |seen| ==>
      1 <= seen[i].index < 256 && |seen[i].data| == |secret| && Bytes(seen[i].data)
    requires Distinct(Indices(seen))
    ensures ValidRandomness(randomness, |secret|, threshold)
    ensures forall i :: 0 <= i < |seen| ==> seen[i].data == ShareData(secret, randomness, seen[i].index)
    ensures forall other: seq<seq<nat>> ::
              && ValidRandomness(other, |secret|, threshold)
              && (forall i :: 0 <= i < |seen| ==> seen[i].data == ShareData(secret, other, seen[i].index))
              ==> other == randomness
  {
    randomness := [];
    while |randomness| < |secret|
      invariant |randomness| <= |secret|
      invariant forall b :: 0 <= b < |randomness| ==> UniqueHigher(secret[b], threshold, seen, b, randomness[b])
    {
      var b := |randomness|;
      var higher := ByteSecrecy(secret[b], threshold, seen, b);
      randomness := randomness + [higher];
    }
    forall i | 0 <= i < |seen|
      ensures seen[i].data == ShareData(secret, randomness, seen[i].index)
    {
      forall b | 0 <= b < |secret|
        ensures seen[i].data[b] == ShareData(secret, randomness, seen[i].index)[b]
      {
        assert UniqueHigher(secret[b], threshold, seen, b, randomness[b]);
      }
    }
    forall other: seq<seq<nat>> | ValidRandomness(other, |secret|, threshold)
      && forall i :: 0 <= i < |seen| ==> seen[i].data == ShareData(secret, other, seen[i].index)
      ensures other == randomness
    {
      forall b | 0 <= b < |secret|
        ensures other[b] == randomness[b]
      {
        assert UniqueHigher(secret[b], threshold, seen, b, randomness[b]);
        forall i | 0 <= i < |seen|
          ensures seen[i].data[b] == ShareByte(secret[b], other[b], seen[i].index)
        {
        }
        assert HigherExplains(secret[b], threshold, seen, b, other[b]);
      }
    }
  }

  ghost predicate HigherExplains(secretByte: nat, threshold: int, seen: seq<ShareValue>, b: nat, higher: seq<nat>)
    requires IsByte(secretByte)
    requires forall i :: 0 <= i < |seen| ==> 1 <= seen[i].index < 256 && b < |seen[i].data|
  {
    && |higher| == threshold - 1 && Bytes(higher)
    && forall i :: 0 <= i < |seen| ==> seen[i].data[b] == ShareByte(secretByte, higher, seen[i].index)
  }

  ghost predicate UniqueHigher(secretByte: nat, threshold: int, seen: seq<ShareValue>, b: nat, higher: seq<nat>)
    requires IsByte(secretByte)
    requires forall i :: 0 <= i < |seen| ==> 1 <= seen[i].index < 256 && b < |seen[i].data|
  {
    && HigherExplains(secretByte, threshold, seen, b, higher)
    && forall other: seq<nat> :: HigherExplains(secretByte, threshold, seen, b, other) ==> other == higher
  }

  lemma ByteSecrecy(secretByte: nat, threshold: int, seen: seq<ShareValue>, b: nat) returns (higher: seq<nat>)
    requires IsByte(secretByte) && |seen| == threshold - 1
    requires forall i :: 0 <= i < |seen| ==> 1 <= seen[i].index < 256 && b < |seen[i].data| && Bytes(seen[i].data)
    requires Distinct(Indices(seen))
    ensures UniqueHigher(secretByte, threshold, seen, b, higher)
  {
    var f, xs, ys := Field256(), Indices(seen), Column(seen, b);
    Field256IsField();
    IndicesAndColumnAreBytes(seen, b);
    higher := SecretUndetermined(f, xs, ys, secretByte);
    BytesExplain(f, secretByte, threshold, seen, b, higher);
    forall other: seq<nat> | HigherExplains(secretByte, threshold, seen, b, other)
      ensures other == higher
    {
      BytesExplain(f, secretByte, threshold, seen, b, other);
    }
  }

  lemma BytesExplain(f: Field, secretByte: nat, threshold: int, seen: seq<ShareValue>, b: nat, higher: seq<nat>)
    requires f == Field256() && IsField(f) && IsByte(secretByte) && |seen| == threshold - 1 == |higher|
    requires forall i :: 0 <= i < |seen| ==> 1 <= seen[i].index < 256 && b < |seen[i].data| && Bytes(seen[i].data)
    ensures Elems(f, Indices(seen))
    ensures Explains(f, [secretByte] + higher, Indices(seen), Column(seen, b))
       <==> HigherExplains(secretByte, threshold, seen, b, higher)
  {
    var cs := [secretByte] + higher;
    IndicesAndColumnAreBytes(seen, b);
    if Elems(f, cs) {
      forall i | 0 <= i < |higher|
        ensures IsByte(higher[i])
      {
        assert cs[i + 1] == higher[i];
      }
    }
    if Bytes(higher) {
      assert Elems(f, cs);
      forall i | 0 <= i < |seen|
        ensures Indices(seen)[i] == seen[i].index && Column(seen, b)[i] == seen[i].data[b]
        ensures ShareByte(secretByte, higher, seen[i].index) == Eval(f, cs, seen[i].index)
      {
      }
    }
  }
}
