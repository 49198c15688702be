/** The two loops of `decode_value` written as loops: the multiplier is
    scaled up once per digit but one, then each digit adds its weighted
    value while the multiplier is divided back down. The invariants tie
    each loop to the recursive definitions in `Literal`, so the method
    computes exactly the source's evaluation. */
module Decoder {
  import opened Base
  import opened IntTypes
  import opened Literal
  import opened LiteralProofs

  /** `for (i = 0; i < k; ++i) multiplier *= base;`, each product stored
      back into the type. */
  method ScaleLoop(t: IntType, m0: int, base: nat, k: nat) returns (r: Result<int>)
    requires InRange(t, m0)
    ensures r == Scale(t, m0, base, k)
    ensures r.Success? ==> InRange(t, r.value)
  {
    var m := m0;
    for i := 0 to k
      invariant InRange(t, m)
      invariant Scale(t, m0, base, k) == Scale(t, m, base, k - i)
    {
      var next := Arith(t, m * base);
      if next.Failure? {
        return Failure(next.error);
      }
      m := next.value;
    }
    r := Success(m);
  }

  /** `for (c : value) { ret += get_value(c) * multiplier; multiplier /= base; }` */
  method SumLoop(t: IntType, base: nat, ds: string, m0: int) returns (r: Result<int>)
    requires base > 0 && InRange(t, m0)
    ensures r == Weighted(t, base, ds, m0, 0)
  {
    var ret := 0;
    var m := m0;
    for i := 0 to |ds|
      invariant InRange(t, m) && InRange(t, ret)
      invariant Weighted(t, base, ds, m0, 0) == Weighted(t, base, ds[i..], m, ret)
    {
      assert ds[i..][0] == ds[i] && ds[i..][1..] == ds[i + 1..];
      var p := Product(t, DigitValue(ds[i]) * m);
      if p.Failure? {
        return Failure(p.error);
      }
      var a := Arith(t, ret + p.value);
      if a.Failure? {
        return Failure(a.error);
      }
      ret := a.value;
      InRangeBetween(t, m, TruncDiv(m, base));
      m := TruncDiv(m, base);
    }
    assert ds[|ds|..] == [];
    r := Success(ret);
  }

  /** `decode_value<Int>(value, false)`: split the literal, then run the
      two loops. Where the leading weight fits the type, the result is the
      literal's signed positional value in the type. */
  method DecodeValue(t: IntType, v: string) returns (r: Result<int>)
    ensures r == DecodeAsWritten(t, v)
    ensures SplitLiteral(v, false).Success? && WeightFits(t, SplitLiteral(v, false).value) ==>
              r == Decode(t, v)
  {
    var split := SplitLiteral(v, false);
    if split.Failure? {
      return Failure(split.error);
    }
    var n := split.value;
    if WeightFits(t, n) {
      EvaluateAsWrittenValue(t, n);
    }
    match n
    case Zero =>
      r := Success(0);
    case Digits(negative, base, ds) =>
      var m := ScaleLoop(t, Wrap(t, if negative then -1 else 1), base, |ds| - 1);
      if m.Failure? {
        return Failure(m.error);
      }
      r := SumLoop(t, base, ds, m.value);
  }
}
