/**
 * Threshold BLS keys and signatures (sdk/threshold-bls.ts): key shares of a master secret with
 * Feldman commitments, share verification, aggregation of partial signatures and reconstruction of
 * the secret. Curve groups are abstract groups of the prime scalar order.
 */
module ThresholdBls {
  import opened Wrappers
  import opened ByteStrings
  import opened DivMod
  import opened Fields
  import opened Interpolation
  import opened PrimeFields
  import G = Groups

  const BLS_SCALAR_SIZE: nat := 32

  datatype KeyShare<P> = KeyShare(index: nat, secretShare: seq<nat>, publicKey: P)

  datatype DKGOutput<P> = DKGOutput(
    threshold: int, totalParticipants: int,
    shares: seq<KeyShare<P>>, aggregatedPublicKey: P, commitments: seq<P>)

  datatype PartialSignature<P> = PartialSignature(signerIndex: nat, signature: P)

  datatype ThresholdSignature<P> = ThresholdSignature(aggregatedSignature: P, signerIndices: seq<nat>)

  // ----- modular exponentiation -----

  method ModPow(base: nat, exp: int, mod: nat) returns (result: nat)
    requires mod > 0
    ensures exp <= 0 ==> result == 1
    ensures exp > 0 || (exp == 0 && mod > 1) ==> result == Pow(base, exp) % mod
  {
    result := 1;
    DivModEquation(base, mod);
    var b, e := base % mod, exp;
    if exp >= 0 {
      PowMod(base, exp, mod);
    }
    if mod > 1 {
      ModSmall(1, mod);
    }
    while e > 0
      invariant b >= 0 && e <= exp && (exp >= 0 ==> e >= 0)
      invariant exp > 0 ==> (result * Pow(b, e)) % mod == Pow(base, exp) % mod
      invariant exp > 0 && e == 0 ==> result < mod
      invariant exp <= 0 ==> result == 1
    {
      PowStep(result, b, e, mod);
      DivModEquation(result * b, mod);
      DivModEquation(b * b, mod);
      if e % 2 == 1 {
        result := (result * b) % mod;
      }
      e := e / 2;
      b := (b * b) % mod;
    }
    if exp > 0 {
      ModSmall(result, mod);
    } else if exp == 0 && mod > 1 {
      ModSmall(1, mod);
    }
  }

  lemma PowStep(result: nat, b: nat, e: nat, mod: nat)
    requires mod > 0 && e > 0
    ensures 0 <= (b * b) % mod
    ensures ((if e % 2 == 1 then (result * b) % mod else result) * Pow((b * b) % mod, e / 2)) % mod
         == (result * Pow(b, e)) % mod
  {
    var s, h := b * b, e / 2;
    var r := if e % 2 == 1 then result * b else result;
    DivModEquation(s, mod);
    PowSquare(b, e);
    assert result * Pow(b, e) == r * Pow(s, h) by {
      assert result * (b * Pow(s, h)) == (result * b) * Pow(s, h);
    }
    PowMod(s, h, mod);
    ModMul(Pow(s, h), r, mod);
    ModMul(Pow(s % mod, h), r, mod);
    ModMul(r, Pow(s % mod, h), mod);
  }

  method ComputeModInverse(a: nat, m: nat) returns (r: nat)
    requires m > 1
    ensures r == ModInverse(a, m)
    ensures IsPrime(m) && a % m != 0 ==> (a * r) % m == 1
  {
    r := ModPow(a, m - 2, m);
    if IsPrime(m) && a % m != 0 {
      ModInverseInverts(a, m);
    }
  }

  // ----- polynomials and shares -----

  /** The value of the polynomial, as a number. */
  ghost function PolyValue(cs: seq<nat>, x: nat): nat {
    if cs == [] then 0 else cs[0] + x * PolyValue(cs[1..], x)
  }

  lemma {:induction false} PolySnoc(cs: seq<nat>, c: nat, x: nat)
    ensures Pow(x, |cs|) >= 0
    ensures PolyValue(cs + [c], x) == PolyValue(cs, x) + c * Pow(x, |cs|)
  {
    if cs == [] {
      assert [c][1..] == [];
    } else {
      var rest := cs[1..];
      PolySnoc(rest, c, x);
      assert (cs + [c])[1..] == rest + [c];
      var p := Pow(x, |rest|);
      assert x * (PolyValue(rest, x) + c * p) == x * PolyValue(rest, x) + c * (x * p);
    }
  }

  method EvaluatePolynomial(order: nat, coefficients: seq<nat>, x: nat) returns (result: nat)
    requires order > 1
    ensures result == PolyValue(coefficients, x) % order
  {
    result := 0;
    var power := 1;
    ModSmall(0, order);
    ModSmall(1, order);
    for k := 0 to |coefficients|
      invariant result == PolyValue(coefficients[..k], x) % order
      invariant power == Pow(x, k) % order
    {
      var coef := coefficients[k];
      PolyStep(order, coefficients[..k], coef, x);
      assert coefficients[..k + 1] == coefficients[..k] + [coef];
      result := (result + coef * power) % order;
      power := (power * x) % order;
    }
    assert coefficients[..|coefficients|] == coefficients;
  }

  lemma PolyStep(order: nat, cs: seq<nat>, c: nat, x: nat)
    requires order > 1
    ensures 0 <= PolyValue(cs, x) % order && 0 <= Pow(x, |cs|) % order
    ensures 0 <= c * (Pow(x, |cs|) % order) && 0 <= (Pow(x, |cs|) % order) * x
    ensures (PolyValue(cs, x) % order + c * (Pow(x, |cs|) % order)) % order == PolyValue(cs + [c], x) % order
    ensures ((Pow(x, |cs|) % order) * x) % order == Pow(x, |cs| + 1) % order
  {
    PolySnoc(cs, c, x);
    SumStep(order, PolyValue(cs, x), Pow(x, |cs|), c);
    ModMul(Pow(x, |cs|), x, order);
  }

  lemma SumStep(order: nat, v: nat, p: nat, c: nat)
    requires order > 0
    ensures 0 <= v % order && 0 <= p % order && 0 <= c * (p % order)
    ensures (v % order + c * (p % order)) % order == (v + c * p) % order
  {
    DivModEquation(v, order);
    DivModEquation(p, order);
    ModMul(p, c, order);
    ModAdd(v, c * (p % order), order);
    ModAdd(c * (p % order), v, order);
    ModAdd(c * p, v, order);
  }

  /** The coefficients, reduced to elements of the scalar field. */
  ghost function Reduce(cs: seq<nat>, order: nat): (r: seq<nat>)
    requires order > 1
    ensures |r| == |cs| && forall i :: 0 <= i < |cs| ==> r[i] == cs[i] % order < order
  {
    seq(|cs|, i requires 0 <= i < |cs| => Residue(cs[i], order))
  }

  ghost function Residue(x: nat, order: nat): (r: nat)
    requires order > 0
    ensures r == x % order < order
  {
    DivModEquation(x, order);
    x % order
  }

  /** Evaluation modulo the order is evaluation in the scalar field. */
  lemma {:induction false} PolyValueInField(order: nat, cs: seq<nat>, x: nat)
    requires IsPrime(order) && x < order
    ensures IsField(PrimeField(order)) && Elems(PrimeField(order), Reduce(cs, order))
    ensures PolyValue(cs, x) % order == Eval(PrimeField(order), Reduce(cs, order), x)
    decreases |cs|
  {
    PrimeFieldIsField(order);
    if cs == [] {
      ModSmall(0, order);
    } else {
      var rest := cs[1..];
      PolyValueInField(order, rest, x);
      assert Reduce(cs, order)[1..] == Reduce(rest, order);
      var v := PolyValue(rest, x);
      ModMul(v, x, order);
      ModAdd(x * v, cs[0] % order, order);
      ModAdd(cs[0], x * v, order);
    }
  }

  /** The scalar field, its group and a generator. */
  datatype Curve<!P> = Curve(order: nat, group: G.Group<P>, base: P)

  ghost predicate ValidCurve<P(!new)>(curve: Curve<P>) {
    && G.IsGroup(curve.group, curve.order)
    && curve.order <= Pow(256, BLS_SCALAR_SIZE)
    && curve.base != curve.group.zero
  }

  /** The coefficients: the master secret, or a random key, followed by random keys. */
  method GeneratePolynomialCoefficients(threshold: nat, secret: Option<seq<nat>>, randomKeys: seq<seq<nat>>)
    returns (coefficients: seq<nat>)
    requires threshold >= 1 && |randomKeys| == threshold
    ensures |coefficients| == threshold
    ensures coefficients[0] == Number(if secret.Some? then secret.value else randomKeys[0])
    ensures forall i :: 1 <= i < threshold ==> coefficients[i] == Number(randomKeys[i])
  {
    var first: nat;
    if secret.Some? {
      first := BytesToBigInt(secret.value);
    } else {
      first := BytesToBigInt(randomKeys[0]);
    }
    coefficients := [first];
    for i := 1 to threshold
      invariant |coefficients| == i && coefficients[0] == first
      invariant forall j :: 1 <= j < i ==> coefficients[j] == Number(randomKeys[j])
    {
      var c := BytesToBigInt(randomKeys[i]);
      coefficients := coefficients + [c];
    }
  }

  /** The share of participant `index`. */
  ghost function ShareOf<P>(curve: Curve<P>, cs: seq<nat>, index: nat): KeyShare<P>
    requires curve.order > 1
  {
    var value := Residue(PolyValue(cs, index), curve.order);
    KeyShare(index, Digits(value, BLS_SCALAR_SIZE), G.Times(curve.group, value, curve.base))
  }

  ghost function Commitments<P>(curve: Curve<P>, cs: seq<nat>): (r: seq<P>)
    ensures |r| == |cs|
  {
    seq(|cs|, j requires 0 <= j < |cs| => G.Times(curve.group, cs[j], curve.base))
  }

  method GenerateKeyShares<P(!new)>(
      curve: Curve<P>, threshold: int, totalParticipants: int,
      masterSecret: Option<seq<nat>>, randomKeys: seq<seq<nat>>)
    returns (r: Result<DKGOutput<P>>, ghost cs: seq<nat>)
    requires ValidCurve(curve)
    requires 1 <= threshold <= totalParticipants ==> |randomKeys| == threshold
    ensures r.Success? <==> 1 <= threshold <= totalParticipants
    ensures r.Success? ==>
              && |cs| == threshold
              && cs[0] == Number(if masterSecret.Some? then masterSecret.value else randomKeys[0])
              && (forall i :: 1 <= i < threshold ==> cs[i] == Number(randomKeys[i]))
    ensures r.Success? ==>
              && r.value.threshold == threshold && r.value.totalParticipants == totalParticipants
              && r.value.commitments == Commitments(curve, cs)
              && r.value.aggregatedPublicKey
                 == G.Times(
                      curve.group, Number(if masterSecret.Some? then masterSecret.value else randomKeys[0]), curve.base)
              && |r.value.shares| == totalParticipants
              && forall k :: 0 <= k < totalParticipants ==> r.value.shares[k] == ShareOf(curve, cs, k + 1)
  {
    if threshold < 1 || threshold > totalParticipants {
      return Failure("Invalid threshold parameters"), [];
    }
    var coefficients := GeneratePolynomialCoefficients(threshold, masterSecret, randomKeys);
    var commitments :=
      seq(|coefficients|, j requires 0 <= j < |coefficients| => G.Times(curve.group, coefficients[j], curve.base));
    var shares: seq<KeyShare<P>> := [];
    for i := 1 to totalParticipants + 1
      invariant |shares| == i - 1
      invariant forall k :: 0 <= k < i - 1 ==> shares[k] == ShareOf(curve, coefficients, k + 1)
    {
      var shareValue := EvaluatePolynomial(curve.order, coefficients, i);
      var shareBytes := BigIntToBytes(shareValue, BLS_SCALAR_SIZE);
      var publicKey := G.Times(curve.group, shareValue, curve.base);
      shares := shares + [KeyShare(i, shareBytes[..], publicKey)];
    }
    cs := coefficients;
    r := Success(DKGOutput(threshold, totalParticipants, shares, commitments[0], commitments));
  }

  // ----- Feldman verification -----

  /** The sum of i^j C_j over the first `k` commitments. */
  ghost function FeldmanSum<P>(curve: Curve<P>, commitments: seq<P>, i: nat, k: nat): P
    requires curve.order > 1 && k <= |commitments|
  {
    if k == 0 then curve.group.zero
    else
      curve.group.add(
        FeldmanSum(curve, commitments, i, k - 1),
        G.Times(curve.group, PowerResidue(i, k - 1, curve.order), commitments[k - 1]))
  }

  ghost function PowerResidue(i: nat, j: nat, order: nat): (r: nat)
    requires order > 1
    ensures r == Pow(i, j) % order
  {
    DivModEquation(Pow(i, j), order);
    Pow(i, j) % order
  }

  method VerifyShare<P(!new, ==)>(curve: Curve<P>, share: KeyShare<P>, commitments: seq<P>) returns (valid: bool)
    requires ValidCurve(curve)
    ensures valid <==> share.publicKey == FeldmanSum(curve, commitments, share.index, |commitments|)
  {
    var expectedPK := curve.group.zero;
    for j := 0 to |commitments|
      invariant expectedPK == FeldmanSum(curve, commitments, share.index, j)
    {
      var power := ModPow(share.index, j, curve.order);
      expectedPK := curve.group.add(expectedPK, G.Times(curve.group, power, commitments[j]));
    }
    valid := expectedPK == share.publicKey;
  }

  lemma {:induction false} FeldmanPrefix<P(!new)>(curve: Curve<P>, cs: seq<nat>, i: nat, k: nat)
    requires ValidCurve(curve) && k <= |cs|
    ensures FeldmanSum(curve, Commitments(curve, cs), i, k)
         == G.Times(curve.group, PolyValue(cs[..k], i), curve.base)
  {
    if k > 0 {
      var j, c := k - 1, cs[k - 1];
      FeldmanPrefix(curve, cs, i, j);
      PolySnoc(cs[..j], c, i);
      assert cs[..k] == cs[..j] + [c];
      var p: nat := Pow(i, j);
      var point := G.Times(curve.group, c, curve.base);
      G.TimesMod(curve.group, curve.order, p, point);
      G.TimesTimes(curve.group, curve.order, p, c, curve.base);
      assert c * p == p * c;
      G.TimesAdd(curve.group, curve.order, PolyValue(cs[..j], i), p * c, curve.base);
    }
  }

  /**
   * The Feldman check is exact: for the committed polynomial f, a share passes if and only if its
   * public key is f(index) times the generator.
   */
  lemma FeldmanExact<P(!new)>(curve: Curve<P>, cs: seq<nat>, share: KeyShare<P>)
    requires ValidCurve(curve)
    ensures share.publicKey == FeldmanSum(curve, Commitments(curve, cs), share.index, |cs|)
       <==> share.publicKey == ShareOf(curve, cs, share.index).publicKey
  {
    FeldmanPrefix(curve, cs, share.index, |cs|);
    assert cs[..|cs|] == cs;
    G.TimesMod(curve.group, curve.order, PolyValue(cs, share.index), curve.base);
  }

  /** For a share whose public key matches its secret, the check decides whether the secret is f(index). */
  lemma FeldmanChecksSecret<P(!new)>(curve: Curve<P>, cs: seq<nat>, share: KeyShare<P>)
    requires ValidCurve(curve)
    requires share.publicKey == G.Times(curve.group, Number(share.secretShare), curve.base)
    ensures share.publicKey == FeldmanSum(curve, Commitments(curve, cs), share.index, |cs|)
       <==> Number(share.secretShare) % curve.order == PolyValue(cs, share.index) % curve.order
  {
    FeldmanPrefix(curve, cs, share.index, |cs|);
    assert cs[..|cs|] == cs;
    G.TimesInjective(curve.group, curve.order, Number(share.secretShare), PolyValue(cs, share.index), curve.base);
  }

  // ----- Lagrange coefficients -----

  ghost predicate Below(xs: seq<nat>, order: nat) {
    forall k :: 0 <= k < |xs| ==> xs[k] < order
  }

  /** The list without any occurrence of `x`. */
  ghost function Excluding(xs: seq<nat>, x: nat): (r: seq<nat>) {
    if xs == [] then []
    else
      var init, last := xs[..|xs| - 1], xs[|xs| - 1];
      Excluding(init, x) + (if last == x then [] else [last])
  }

  lemma ExcludingSnoc(xs: seq<nat>, k: nat, x: nat)
    requires k < |xs|
    ensures Excluding(xs[..k + 1], x) == Excluding(xs[..k], x) + (if xs[k] == x then [] else [xs[k]])
  {
    assert xs[..k + 1][..k] == xs[..k];
  }

  lemma {:induction false} ExcludingBelow(xs: seq<nat>, x: nat, order: nat)
    requires Below(xs, order)
    ensures Below(Excluding(xs, x), order)
  {
    if xs != [] {
      ExcludingBelow(xs[..|xs| - 1], x, order);
    }
  }

  lemma {:induction false} ExcludingAbsent(xs: seq<nat>, x: nat)
    requires x !in xs
    ensures Excluding(xs, x) == xs
  {
    if xs != [] {
      var n := |xs| - 1;
      ExcludingAbsent(xs[..n], x);
      assert xs == xs[..n] + [xs[n]];
    }
  }

  lemma {:induction false} ExcludingIsWithout(xs: seq<nat>, i: nat)
    requires i < |xs| && Distinct(xs)
    ensures Excluding(xs, xs[i]) == Without(xs, i)
    decreases |xs|
  {
    var n := |xs| - 1;
    if i == n {
      ExcludingAbsent(xs[..n], xs[n]);
      assert Without(xs, i) == xs[..n];
    } else {
      ExcludingIsWithout(xs[..n], i);
      assert Without(xs, i) == Without(xs[..n], i) + [xs[n]];
    }
  }

  ghost function LagrangeCoefficient(order: nat, signerIndex: nat, all: seq<nat>): (r: nat)
    requires IsPrime(order) && signerIndex < order
    requires Below(all, order)
    ensures r < order
  {
    PrimeFieldIsField(order);
    ExcludingBelow(all, signerIndex, order);
    Weight(PrimeField(order), Excluding(all, signerIndex), signerIndex)
  }

  method ComputeLagrangeCoefficient(order: nat, signerIndex: nat, allSignerIndices: seq<nat>) returns (lambda: nat)
    requires IsPrime(order) && signerIndex < order
    requires Below(allSignerIndices, order)
    ensures lambda == LagrangeCoefficient(order, signerIndex, allSignerIndices)
  {
    PrimeFieldIsField(order);
    ghost var f := PrimeField(order);
    var i := signerIndex;
    var numerator, denominator := 1, 1;
    WeightStart(f, i);
    assert Excluding(allSignerIndices[..0], i) == [];
    hide Excluding, Weight, LawsAt, IsPrime, ModInverse;
    for k := 0 to |allSignerIndices|
      invariant 0 <= numerator < order && 0 < denominator < order
      invariant Below(Excluding(allSignerIndices[..k], i), order)
      invariant Weight(f, Excluding(allSignerIndices[..k], i), i) == Mul(f, numerator, Inv(f, denominator))
    {
      var j := allSignerIndices[k];
      ExcludingSnoc(allSignerIndices, k, i);
      ExcludingBelow(allSignerIndices[..k + 1], i, order);
      if j != signerIndex {
        WeightStep(f, Excluding(allSignerIndices[..k], i), j, i, numerator, denominator);
        ScalarStep(order, numerator, denominator, i, j);
        numerator := (numerator * j) % order;
        denominator := (denominator * ((j - i + order) % order)) % order;
      } else {
        assert Excluding(allSignerIndices[..k + 1], i) == Excluding(allSignerIndices[..k], i);
      }
    }
    assert allSignerIndices[..|allSignerIndices|] == allSignerIndices;
    var denominatorInverse := ComputeModInverse(denominator, order);
    lambda := (numerator * denominatorInverse) % order;
  }

  /** The source's updates are those of the scalar field. */
  lemma ScalarStep(order: nat, numerator: nat, denominator: nat, i: nat, j: nat)
    requires IsPrime(order) && IsField(PrimeField(order))
    requires numerator < order && denominator < order && i < order && j < order
    ensures 0 <= (j - i + order) % order < order
    ensures Sub(PrimeField(order), j, i) == (j - i + order) % order
    ensures Mul(PrimeField(order), numerator, j) == (numerator * j) % order
    ensures Mul(PrimeField(order), denominator, Sub(PrimeField(order), j, i))
         == (denominator * ((j - i + order) % order)) % order
  {
    var n := order - i;
    DivModEquation(j - i + order, order);
    DivModEquation(n, order);
    ModAdd(n, j, order);
    assert j + n == j - i + order;
    hide IsPrime, ModInverse, LawsAt, IsField;
    assert Neg(PrimeField(order), i) == n % order;
  }

  // ----- aggregation -----

  ghost function WeightedSum<P>(curve: Curve<P>, indices: seq<nat>, points: seq<P>, k: nat): P
    requires IsPrime(curve.order) && |indices| == |points| && k <= |points|
    requires Below(indices, curve.order)
  {
    if k == 0 then curve.group.zero
    else
      curve.group.add(
        WeightedSum(curve, indices, points, k - 1),
        G.Times(curve.group, LagrangeCoefficient(curve.order, indices[k - 1], indices), points[k - 1]))
  }

  function SignerIndices<P>(sigs: seq<PartialSignature<P>>): (r: seq<nat>)
    ensures |r| == |sigs| && forall i :: 0 <= i < |sigs| ==> r[i] == sigs[i].signerIndex
  {
    seq(|sigs|, i requires 0 <= i < |sigs| => sigs[i].signerIndex)
  }

  function SignaturePoints<P>(sigs: seq<PartialSignature<P>>): (r: seq<P>)
    ensures |r| == |sigs| && forall i :: 0 <= i < |sigs| ==> r[i] == sigs[i].signature
  {
    seq(|sigs|, i requires 0 <= i < |sigs| => sigs[i].signature)
  }

  /** Signing is multiplication of the message point by the secret share. */
  method SignPartial<P>(curve: Curve<P>, share: KeyShare<P>, message: P) returns (r: PartialSignature<P>)
    ensures r == PartialSignature(share.index, G.Times(curve.group, Number(share.secretShare), message))
  {
    var scalar := BytesToBigInt(share.secretShare);
    r := PartialSignature(share.index, G.Times(curve.group, scalar, message));
  }

  method AggregateSignatures<P(!new)>(curve: Curve<P>, partialSignatures: seq<PartialSignature<P>>)
    returns (r: Result<ThresholdSignature<P>>)
    requires ValidCurve(curve)
    requires Below(SignerIndices(partialSignatures), curve.order)
    ensures r.Failure? <==> |partialSignatures| == 0
    ensures r.Success? ==>
              var xs := SignerIndices(partialSignatures);
              && r.value.signerIndices == xs
              && r.value.aggregatedSignature == WeightedSum(curve, xs, SignaturePoints(partialSignatures), |xs|)
  {
    if |partialSignatures| == 0 {
      return Failure("No signatures to aggregate");
    }
    var signerIndices := SignerIndices(partialSignatures);
    hide LagrangeCoefficient, IsPrime, G.IsGroup, G.Times, Pow, SignerIndices, SignaturePoints, WeightedSum;
    var aggregated := WeightSignatures(curve, partialSignatures, signerIndices);
    r := Success(ThresholdSignature(aggregated, signerIndices));
  }

  /** The loop of `aggregateSignatures`. */
  method WeightSignatures<P(!new)>(
      curve: Curve<P>, partialSignatures: seq<PartialSignature<P>>, signerIndices: seq<nat>)
    returns (aggregated: P)
    requires ValidCurve(curve) && signerIndices == SignerIndices(partialSignatures)
    requires Below(signerIndices, curve.order)
    ensures aggregated
         == WeightedSum(curve, signerIndices, SignaturePoints(partialSignatures), |signerIndices|)
  {
    ghost var points := SignaturePoints(partialSignatures);
    WeightedNone(curve, signerIndices, points);
    hide LagrangeCoefficient, ValidCurve, IsPrime, G.Times, SignerIndices, SignaturePoints, WeightedSum, Below;
    aggregated := curve.group.zero;
    for k := 0 to |partialSignatures|
      invariant aggregated == WeightedSum(curve, signerIndices, points, k)
    {
      var partialSig := partialSignatures[k];
      IndexBelow(signerIndices, curve.order, k);
      var lambda := ComputeLagrangeCoefficient(curve.order, partialSig.signerIndex, signerIndices);
      WeightedOneMore(curve, signerIndices, points, k);
      aggregated := curve.group.add(aggregated, G.Times(curve.group, lambda, partialSig.signature));
    }
  }

  lemma IndexBelow(indices: seq<nat>, order: nat, k: nat)
    requires Below(indices, order) && k < |indices|
    ensures indices[k] < order
  {
  }

  lemma WeightedNone<P(!new)>(curve: Curve<P>, indices: seq<nat>, points: seq<P>)
    requires ValidCurve(curve) && |indices| == |points| && Below(indices, curve.order)
    ensures IsPrime(curve.order) && WeightedSum(curve, indices, points, 0) == curve.group.zero
  {
  }

  lemma WeightedOneMore<P>(curve: Curve<P>, indices: seq<nat>, points: seq<P>, k: nat)
    requires IsPrime(curve.order) && |indices| == |points| && k < |points| && Below(indices, curve.order)
    ensures WeightedSum(curve, indices, points, k + 1)
         == curve.group.add(
              WeightedSum(curve, indices, points, k),
              G.Times(curve.group, LagrangeCoefficient(curve.order, indices[k], indices), points[k]))
  {
  }

  /** A weighted sum of multiples of one point is the Lagrange combination of the scalars. */
  lemma {:induction false} WeightedSumOfMultiples<P(!new)>(
      curve: Curve<P>, indices: seq<nat>, points: seq<P>, ys: seq<nat>, message: P, k: nat)
    requires ValidCurve(curve) && |indices| == |points| == |ys| && k <= |points|
    requires Distinct(indices) && Below(indices, curve.order) && Below(ys, curve.order)
    requires forall i :: 0 <= i < |indices| ==> points[i] == G.Times(curve.group, ys[i], message)
    ensures IsField(PrimeField(curve.order))
    ensures WeightedSum(curve, indices, points, k)
         == G.Times(curve.group, Combination(PrimeField(curve.order), indices, ys, k), message)
  {
    var p, g := curve.order, curve.group;
    PrimeFieldIsField(p);
    var f := PrimeField(p);
    hide IsPrime, G.IsGroup, Pow, Weight;
    if k > 0 {
      var i := k - 1;
      WeightedSumOfMultiples(curve, indices, points, ys, message, i);
      ExcludingIsWithout(indices, i);
      AddMultiple(curve, Combination(f, indices, ys, i), LagrangeCoefficient(p, indices[i], indices), ys[i], message);
    }
  }

  /** c m + lambda (y m) == (c + y lambda) m, with the scalars computed in the field */
  lemma AddMultiple<P(!new)>(curve: Curve<P>, c: nat, lambda: nat, y: nat, message: P)
    requires ValidCurve(curve) && c < curve.order && lambda < curve.order && y < curve.order
    ensures IsField(PrimeField(curve.order))
    ensures curve.group.add(
              G.Times(curve.group, c, message), G.Times(curve.group, lambda, G.Times(curve.group, y, message)))
         == G.Times(curve.group, Add(PrimeField(curve.order), c, Mul(PrimeField(curve.order), y, lambda)), message)
  {
    var p, g := curve.order, curve.group;
    PrimeFieldIsField(p);
    var f := PrimeField(p);
    var product: nat := y * lambda;
    assert lambda * y == product;
    G.TimesTimes(g, p, lambda, y, message);
    G.TimesMod(g, p, product, message);
    var term := Mul(f, y, lambda);
    assert term == product % p;
    G.TimesAdd(g, p, c, term, message);
    G.TimesMod(g, p, c + term, message);
  }

  /**
   * Threshold aggregation: partial signatures by any signers with distinct indices, at least as many
   * as the polynomial has coefficients, aggregate to the signature under the master secret.
   */
  lemma ThresholdAggregation<P(!new)>(
      curve: Curve<P>, cs: seq<nat>, message: P, sigs: seq<PartialSignature<P>>)
    requires ValidCurve(curve) && 1 <= |cs| <= |sigs|
    requires Distinct(SignerIndices(sigs)) && Below(SignerIndices(sigs), curve.order)
    requires forall i :: 0 <= i < |sigs| ==>
      sigs[i].signature == G.Times(curve.group,
           Number(ShareOf(curve, cs, sigs[i].signerIndex).secretShare), message)
    ensures WeightedSum(curve, SignerIndices(sigs), SignaturePoints(sigs), |sigs|)
         == G.Times(curve.group, cs[0], message)
  {
    var p, xs := curve.order, SignerIndices(sigs);
    var ys := seq(|sigs|, i requires 0 <= i < |sigs| => Residue(PolyValue(cs, xs[i]), p));
    PrimeFieldIsField(p);
    forall i | 0 <= i < |sigs|
      ensures sigs[i].signature == G.Times(curve.group, ys[i], message)
      ensures ys[i] == Eval(PrimeField(p), Reduce(cs, p), xs[i])
    {
      ShareDecodes(curve, cs, xs[i]);
      PolyValueInField(p, cs, xs[i]);
    }
    WeightedSumOfMultiples(curve, xs, SignaturePoints(sigs), ys, message, |sigs|);
    Reconstruct(PrimeField(p), xs, ys, Reduce(cs, p));
    G.TimesMod(curve.group, p, cs[0], message);
  }

  /** The bytes of a share decode to the value of the polynomial. */
  lemma ShareDecodes<P(!new)>(curve: Curve<P>, cs: seq<nat>, index: nat)
    requires ValidCurve(curve)
    ensures Number(ShareOf(curve, cs, index).secretShare) == PolyValue(cs, index) % curve.order
  {
    var value := Residue(PolyValue(cs, index), curve.order);
    NumberOfDigits(value, BLS_SCALAR_SIZE);
    ModSmall(value, Pow(256, BLS_SCALAR_SIZE));
  }

  // ----- reconstruction -----

  ghost function ShareIndices<P>(shares: seq<KeyShare<P>>): (r: seq<nat>)
    ensures |r| == |shares| && forall i :: 0 <= i < |shares| ==> r[i] == shares[i].index
  {
    seq(|shares|, i requires 0 <= i < |shares| => shares[i].index)
  }

  ghost function AddWeighted(order: nat, c: nat, lambda: nat, y: nat): (r: nat)
    requires order > 0
    ensures r == (c + lambda * y) % order
  {
    Residue(c + lambda * y, order)
  }

  /** The sum of lambda_i s_i modulo the order, over the first `k` shares. */
  ghost function SecretSum<P>(order: nat, shares: seq<KeyShare<P>>, k: nat): (r: nat)
    requires IsPrime(order) && k <= |shares| && Below(ShareIndices(shares), order)
  {
    hide LagrangeCoefficient, Number;
    if k == 0 then 0
    else
      var lambda := LagrangeCoefficient(order, shares[k - 1].index, ShareIndices(shares));
      AddWeighted(order, SecretSum(order, shares, k - 1), lambda, Number(shares[k - 1].secretShare))
  }

  /** A negative threshold counts from the end of the list, as slicing does. */
  method ReconstructSecret<P>(order: nat, shares: seq<KeyShare<P>>, threshold: int) returns (r: Result<seq<nat>>)
    requires IsPrime(order) && Below(ShareIndices(shares), order)
    ensures r.Failure? <==> |shares| < threshold
    ensures r.Success? ==>
              var n :=
                if threshold >= 0 then threshold else if |shares| + threshold >= 0 then |shares| + threshold else 0;
              && Below(ShareIndices(shares[..n]), order)
              && r.value == Digits(SecretSum(order, shares[..n], n), BLS_SCALAR_SIZE)
  {
    if |shares| < threshold {
      return Failure("Need more shares");
    }
    var end := if threshold >= 0 then threshold else if |shares| + threshold >= 0 then |shares| + threshold else 0;
    var used := shares[..end];
    assert forall i :: 0 <= i < |used| ==> used[i].index == ShareIndices(shares)[i];
    var secret := SumShares(order, used);
    var bytes := BigIntToBytes(secret, BLS_SCALAR_SIZE);
    r := Success(bytes[..]);
  }

  /** The loop of `reconstructSecret`. */
  method SumShares<P>(order: nat, used: seq<KeyShare<P>>) returns (secret: nat)
    requires IsPrime(order) && Below(ShareIndices(used), order)
    ensures secret == SecretSum(order, used, |used|)
  {
    hide LagrangeCoefficient, Number;
    var shareIndices := seq(|used|, i requires 0 <= i < |used| => used[i].index);
    assert shareIndices == ShareIndices(used);
    secret := 0;
    for k := 0 to |used|
      invariant secret == SecretSum(order, used, k)
    {
      var share := used[k];
      var lambda := ComputeLagrangeCoefficient(order, share.index, shareIndices);
      var shareValue := BytesToBigInt(share.secretShare);
      secret := (secret + lambda * shareValue) % order;
    }
  }

  lemma {:induction false} SecretSumIsCombination<P>(order: nat, shares: seq<KeyShare<P>>, ys: seq<nat>, k: nat)
    requires IsPrime(order) && k <= |shares| == |ys|
    requires Distinct(ShareIndices(shares)) && Below(ShareIndices(shares), order)
    requires forall i :: 0 <= i < |shares| ==> ys[i] == Number(shares[i].secretShare) < order
    ensures IsField(PrimeField(order))
    ensures SecretSum(order, shares, k) == Combination(PrimeField(order), ShareIndices(shares), ys, k)
  {
    PrimeFieldIsField(order);
    if k > 0 {
      var i, xs := k - 1, ShareIndices(shares);
      SecretSumIsCombination(order, shares, ys, i);
      ExcludingIsWithout(xs, i);
      hide Number, Weight, LawsAt, AddWeighted;
      var c, lambda := SecretSum(order, shares, i), LagrangeCoefficient(order, xs[i], xs);
      var f := PrimeField(order);
      assert Combination(f, xs, ys, k) == Add(f, c, Mul(f, ys[i], lambda)) by {
        assert lambda == Basis(f, xs, i);
      }
      assert SecretSum(order, shares, k) == AddWeighted(order, c, lambda, ys[i]);
      AddScalar(order, c, lambda, ys[i]);
    }
  }

  lemma AddScalar(order: nat, c: nat, lambda: nat, y: nat)
    requires IsPrime(order) && c < order && lambda < order && y < order
    ensures IsField(PrimeField(order))
    ensures AddWeighted(order, c, lambda, y) == Add(PrimeField(order), c, Mul(PrimeField(order), y, lambda))
  {
    PrimeFieldIsField(order);
    assert lambda * y == y * lambda;
    ModAdd(y * lambda, c, order);
  }

  /**
   * Reconstruction: if the first `threshold` shares handed in are different shares of one polynomial
   * with `threshold` coefficients, the result is the 32-byte encoding of its secret modulo the order.
   */
  lemma SecretReconstruction<P(!new)>(curve: Curve<P>, cs: seq<nat>, shares: seq<KeyShare<P>>, threshold: int)
    requires ValidCurve(curve) && 1 <= |cs| == threshold <= |shares|
    requires Distinct(ShareIndices(shares[..threshold]))
    requires forall i :: 0 <= i < threshold ==>
      shares[i].index < curve.order && shares[i] == ShareOf(curve, cs, shares[i].index)
    ensures SecretSum(curve.order, shares[..threshold], threshold) == cs[0] % curve.order
    ensures Number(Digits(SecretSum(curve.order, shares[..threshold], threshold), BLS_SCALAR_SIZE))
         == cs[0] % curve.order
  {
    var p, used := curve.order, shares[..threshold];
    var xs := ShareIndices(used);
    var ys := seq(|used|, i requires 0 <= i < |used| => Residue(PolyValue(cs, xs[i]), p));
    PrimeFieldIsField(p);
    forall i | 0 <= i < |used|
      ensures ys[i] == Number(used[i].secretShare)
      ensures ys[i] == Eval(PrimeField(p), Reduce(cs, p), xs[i])
    {
      ShareDecodes(curve, cs, xs[i]);
      PolyValueInField(p, cs, xs[i]);
    }
    SecretDecodes(curve, cs[0]);
    hide Number, Digits, Pow, ShareOf, PolyValue, LawsAt, ValidCurve;
    SecretSumIsCombination(p, used, ys, |used|);
    Reconstruct(PrimeField(p), xs, ys, Reduce(cs, p));
  }

  lemma SecretDecodes<P(!new)>(curve: Curve<P>, secret: nat)
    requires ValidCurve(curve)
    ensures curve.order > 0 && 0 <= secret % curve.order
    ensures Number(Digits(secret % curve.order, BLS_SCALAR_SIZE)) == secret % curve.order
  {
    DivModEquation(secret, curve.order);
    NumberOfDigits(secret % curve.order, BLS_SCALAR_SIZE);
    ModSmall(secret % curve.order, Pow(256, BLS_SCALAR_SIZE));
  }

  // ----- from the master secret and back -----

  /** Every key share handed out passes verification against the commitments handed out with it. */
  method GenerateThenVerify<P(!new, ==)>(
      curve: Curve<P>, threshold: int, totalParticipants: int,
      masterSecret: Option<seq<nat>>, randomKeys: seq<seq<nat>>)
    returns (valid: seq<bool>)
    requires ValidCurve(curve) && 1 <= threshold <= totalParticipants && |randomKeys| == threshold
    ensures |valid| == totalParticipants && forall i :: 0 <= i < totalParticipants ==> valid[i]
  {
    var dkg, cs := GenerateKeyShares(curve, threshold, totalParticipants, masterSecret, randomKeys);
    valid := [];
    for k := 0 to totalParticipants
      invariant |valid| == k && forall i :: 0 <= i < k ==> valid[i]
    {
      FeldmanExact(curve, cs, dkg.value.shares[k]);
      var ok := VerifyShare(curve, dkg.value.shares[k], dkg.value.commitments);
      valid := valid + [ok];
    }
  }

  /** Each signer signs with the share at its position. */
  method SignAll<P>(
      curve: Curve<P>, ghost cs: seq<nat>, shares: seq<KeyShare<P>>, signers: seq<nat>, message: P)
    returns (partialSigs: seq<PartialSignature<P>>)
    requires curve.order > 1
    requires forall k :: 0 <= k < |shares| ==> shares[k] == ShareOf(curve, cs, k + 1)
    requires forall i :: 0 <= i < |signers| ==> signers[i] < |shares|
    ensures |partialSigs| == |signers|
    ensures forall i :: 0 <= i < |signers| ==>
      && partialSigs[i].signerIndex == signers[i] + 1
      && partialSigs[i].signature
         == G.Times(curve.group, Number(ShareOf(curve, cs, signers[i] + 1).secretShare), message)
  {
    hide Number, G.Times, PolyValue;
    partialSigs := [];
    for k := 0 to |signers|
      invariant |partialSigs| == k
      invariant forall i :: 0 <= i < k ==>
        && partialSigs[i].signerIndex == signers[i] + 1
        && partialSigs[i].signature
           == G.Times(curve.group, Number(ShareOf(curve, cs, signers[i] + 1).secretShare), message)
    {
      var share := shares[signers[k]];
      assert share == ShareOf(curve, cs, signers[k] + 1);
      var partialSig := SignPartial(curve, share, message);
      partialSigs := partialSigs + [partialSig];
    }
  }

  lemma DifferentSigners<P>(sigs: seq<PartialSignature<P>>, signers: seq<nat>, order: nat)
    requires |sigs| == |signers| && Distinct(signers)
    requires forall i :: 0 <= i < |sigs| ==> sigs[i].signerIndex == signers[i] + 1 < order
    ensures Distinct(SignerIndices(sigs)) && Below(SignerIndices(sigs), order)
  {
  }

  /**
   * Any `threshold` participants or more, each signing with its own share, produce the signature
   * under the master secret, or under the first random key when there is no master secret.
   */
  method GenerateThenSign<P(!new)>(
      curve: Curve<P>, threshold: int, totalParticipants: int, masterSecret: Option<seq<nat>>,
      randomKeys: seq<seq<nat>>, signers: seq<nat>, message: P)
    returns (r: Result<ThresholdSignature<P>>)
    requires ValidCurve(curve) && totalParticipants < curve.order
    requires 1 <= threshold <= totalParticipants && |randomKeys| == threshold
    requires threshold <= |signers| && Distinct(signers)
    requires forall i :: 0 <= i < |signers| ==> signers[i] < totalParticipants
    ensures r.Success? && |r.value.signerIndices| == |signers|
    ensures forall i :: 0 <= i < |signers| ==> r.value.signerIndices[i] == signers[i] + 1
    ensures masterSecret.Some? ==>
              r.value.aggregatedSignature == G.Times(curve.group, Number(masterSecret.value), message)
    ensures masterSecret.None? ==>
              r.value.aggregatedSignature == G.Times(curve.group, Number(randomKeys[0]), message)
  {
    var dkg, cs := GenerateKeyShares(curve, threshold, totalParticipants, masterSecret, randomKeys);
    var partialSigs := SignAll(curve, cs, dkg.value.shares, signers, message);
    hide ShareOf, G.Times, Number, SignaturePoints, Commitments, WeightedSum;
    DifferentSigners(partialSigs, signers, curve.order);
    ThresholdAggregation(curve, cs, message, partialSigs);
    r := AggregateSignatures(curve, partialSigs);
  }

  lemma DifferentShares<P>(shares: seq<KeyShare<P>>, positions: seq<nat>, order: nat, n: nat)
    requires |shares| == |positions| && Distinct(positions)
    requires forall i :: 0 <= i < |shares| ==> shares[i].index == positions[i] + 1 < order
    ensures Below(ShareIndices(shares), order)
    ensures n <= |shares| ==> Distinct(ShareIndices(shares[..n])) && Below(ShareIndices(shares[..n]), order)
  {
  }

  /** Any `threshold` shares or more give the master secret back, modulo the order, in 32 bytes. */
  method GenerateThenReconstruct<P(!new)>(
      curve: Curve<P>, threshold: int, totalParticipants: int, masterSecret: Option<seq<nat>>,
      randomKeys: seq<seq<nat>>, positions: seq<nat>)
    returns (r: Result<seq<nat>>)
    requires ValidCurve(curve) && totalParticipants < curve.order
    requires 1 <= threshold <= totalParticipants && |randomKeys| == threshold
    requires Distinct(positions) && forall i :: 0 <= i < |positions| ==> positions[i] < totalParticipants
    ensures r.Success? <==> threshold <= |positions|
    ensures r.Success? && masterSecret.Some? ==>
              r.value == Digits(Number(masterSecret.value) % curve.order, BLS_SCALAR_SIZE)
    ensures r.Success? && masterSecret.None? ==>
              r.value == Digits(Number(randomKeys[0]) % curve.order, BLS_SCALAR_SIZE)
  {
    var dkg, cs := GenerateKeyShares(curve, threshold, totalParticipants, masterSecret, randomKeys);
    var shares := seq(|positions|, i requires 0 <= i < |positions| => dkg.value.shares[positions[i]]);
    DifferentShares(shares, positions, curve.order, threshold);
    hide ShareOf, Number, Digits, SecretSum, PolyValue, ShareIndices, Commitments;
    if threshold <= |positions| {
      SecretReconstruction(curve, cs, shares, threshold);
    }
    r := ReconstructSecret(curve.order, shares, threshold);
  }
}
