/** Byte strings and the big-endian numbers they encode (sdk/threshold-bls.ts, utility functions). */
module ByteStrings {
  import opened DivMod

  predicate IsByte(b: nat) {
    b < 256
  }

  predicate Bytes(s: seq<nat>) {
    forall i :: 0 <= i < |s| ==> IsByte(s[i])
  }

  /** The number with these big-endian base-256 digits. */
  ghost function Number(bytes: seq<nat>): nat {
    if bytes == [] then 0 else Number(bytes[..|bytes| - 1]) * 256 + bytes[|bytes| - 1]
  }

  /** The `length` lowest base-256 digits of a number, in two's complement when it is negative. */
  ghost function Digits(value: int, length: nat): (r: seq<nat>)
    ensures |r| == length && Bytes(r)
    decreases length
  {
    if length == 0 then [] else Digits(value / 256, length - 1) + [value % 256]
  }

  method BytesToBigInt(bytes: seq<nat>) returns (result: nat)
    ensures result == Number(bytes)
  {
    result := 0;
    for i := 0 to |bytes|
      invariant result == Number(bytes[..i])
    {
      assert bytes[..i + 1][..i] == bytes[..i];
      result := result * 256 + bytes[i];
    }
    assert bytes[..|bytes|] == bytes;
  }

  method BigIntToBytes(value: int, length: nat) returns (bytes: array<nat>)
    ensures fresh(bytes) && bytes[..] == Digits(value, length)
  {
    bytes := new nat[length](_ => 0);
    var remaining := value;
    var i := length - 1;
    while i >= 0
      invariant -1 <= i < length
      invariant Digits(value, length) == Digits(remaining, i + 1) + bytes[i + 1..]
    {
      bytes[i] := remaining % 256;
      assert bytes[i..] == [bytes[i]] + bytes[i + 1..];
      remaining := remaining / 256;
      i := i - 1;
    }
    assert bytes[0..] == bytes[..];
  }

  /** The first byte weighs the most. */
  lemma {:induction false} FirstByteWeighsMost(b: nat, rest: seq<nat>)
    ensures Pow(256, |rest|) >= 0
    ensures Number([b] + rest) == b * Pow(256, |rest|) + Number(rest)
  {
    if rest == [] {
      assert [b][..0] == [];
    } else {
      var n := |rest| - 1;
      FirstByteWeighsMost(b, rest[..n]);
      assert ([b] + rest)[..n + 1] == [b] + rest[..n];
      assert (b * Pow(256, n)) * 256 == b * (256 * Pow(256, n));
    }
  }

  /** Encoding keeps the value modulo 256^length. */
  lemma {:induction false} NumberOfDigits(value: int, length: nat)
    ensures Pow(256, length) > 0
    ensures Number(Digits(value, length)) == value % Pow(256, length)
    decreases length
  {
    PowPositive(256, length);
    if length == 0 {
      DivModUnique(value, 1, value, 0);
    } else {
      NumberOfDigits(value / 256, length - 1);
      var ds := Digits(value, length);
      assert ds[..length - 1] == Digits(value / 256, length - 1);
      PowPositive(256, length - 1);
      SplitDigit(value, Pow(256, length - 1));
    }
  }

  /** The lowest digit of a remainder, separated from the higher ones. */
  lemma SplitDigit(value: int, p: nat)
    requires p > 0
    ensures value % (256 * p) == (value / 256 % p) * 256 + value % 256
  {
    var h, d := value / 256, value % 256;
    DivModEquation(h, p);
    DivModEquation(value, 256);
    var q, r := h / p, h % p;
    assert value == (256 * p) * q + (256 * r + d) by {
      assert 256 * (p * q + r) == (256 * p) * q + 256 * r;
    }
    assert 0 <= 256 * r + d < 256 * p;
    DivModUnique(value, 256 * p, q, 256 * r + d);
  }

  /** Decoding is undone by encoding at the same length. */
  lemma {:induction false} DigitsOfNumber(bytes: seq<nat>)
    requires Bytes(bytes)
    ensures Digits(Number(bytes), |bytes|) == bytes
  {
    if bytes != [] {
      var n := |bytes| - 1;
      DigitsOfNumber(bytes[..n]);
      assert IsByte(bytes[n]);
      DivModUnique(Number(bytes), 256, Number(bytes[..n]), bytes[n]);
      assert bytes == bytes[..n] + [bytes[n]];
    }
  }
}
