/** What `decode_value` computes, stated against a reference: the literal
    spellings C++ accepts for an integer (signs, base prefix, digits, suffix
    and surrounding whitespace), and their mathematical value. */
module LiteralProofs {
  import opened Base
  import opened Chars
  import opened IntTypes
  import opened Literal

  function Pow(b: nat, k: nat): (r: nat)
    ensures b >= 1 ==> r >= 1
  {
    if k == 0 then 1 else b * Pow(b, k - 1)
  }

  /** The positional value of a digit string: the sum of each digit's value
      times base^(number of digits after it). */
  function PosValue(ds: string, base: nat): int {
    if ds == [] then 0 else DigitValue(ds[0]) * Pow(base, |ds| - 1) + PosValue(ds[1..], base)
  }

  lemma SnocAlgebra(d: int, P: int, b: int, R: int, e: int)
    ensures d * (b * P) + (R * b + e) == (d * P + R) * b + e
  {
  }

  /** Appending a digit multiplies the value by the base and adds the digit. */
  lemma {:induction false} PosValueSnoc(ds: string, c: char, base: nat)
    ensures PosValue(ds + [c], base) == PosValue(ds, base) * base + DigitValue(c)
    decreases |ds|
  {
    var s := ds + [c];
    if ds == [] {
      assert s == [c];
      assert s[1..] == [];
    } else {
      assert s[0] == ds[0];
      assert s[1..] == ds[1..] + [c];
      PosValueSnoc(ds[1..], c, base);
      var d := DigitValue(ds[0]);
      var P := Pow(base, |ds| - 1);
      assert Pow(base, |s| - 1) == base * P;
      SnocAlgebra(d, P, base, PosValue(ds[1..], base), DigitValue(c));
    }
  }

  /** Leading zero digits add nothing to the positional value. */
  lemma {:induction false} LeadingZeros(z: string, ds: string, base: nat)
    requires forall i | 0 <= i < |z| :: z[i] == '0'
    ensures PosValue(z + ds, base) == PosValue(ds, base)
    decreases |z|
  {
    if z == [] {
      assert z + ds == ds;
    } else {
      var w := z + ds;
      assert w[0] == '0' && DigitValue('0') == 0;
      assert w[1..] == z[1..] + ds;
      LeadingZeros(z[1..], ds, base);
      assert PosValue(w, base) == 0 * Pow(base, |w| - 1) + PosValue(w[1..], base);
    }
  }

  predicate AllNumeralChars(ds: string) {
    forall i | 0 <= i < |ds| :: IsNumeralChar(ds[i])
  }

  /** `x` with the sign the literal's minus signs give it. */
  function Signed(negative: bool, x: int): int {
    if negative then -x else x
  }

  lemma {:induction false} PosValueNonNegative(ds: string, base: nat)
    requires AllNumeralChars(ds)
    ensures PosValue(ds, base) >= 0
  {
    if ds != [] {
      PosValueNonNegative(ds[1..], base);
    }
  }

  lemma {:induction false} PowMonotone(b: nat, j: nat, k: nat)
    requires b >= 1 && j <= k
    ensures Pow(b, j) <= Pow(b, k)
  {
    if j < k {
      PowMonotone(b, j, k - 1);
      MulAtLeast(b, Pow(b, k - 1));
    }
  }

  lemma MulKeepsSign(x: int, p: int)
    requires p >= 1
    ensures 0 <= x ==> 0 <= x <= x * p
    ensures x < 0 ==> x * p <= x < 0
  {
    if x > 0 {
      MulAtLeast(p, x);
    } else if x < 0 {
      MulAtLeast(p, -x);
      assert x * p == -((-x) * p);
    }
  }

  lemma HornerAlgebra(acc: int, b: int, d: int, P: int, R: int, negative: bool)
    ensures (acc * b + Signed(negative, d)) * P + Signed(negative, R)
         == acc * (b * P) + Signed(negative, d * P + R)
  {
    assert (acc * b + Signed(negative, d)) * P == (acc * b) * P + Signed(negative, d) * P;
    assert Signed(negative, d) * P == Signed(negative, d * P);
  }

  /** One digit of Horner's scheme, split off from the rest of the digits. */
  lemma HornerUnfold(base: nat, negative: bool, ds: string, acc: int)
    requires ds != []
    ensures acc * Pow(base, |ds|) + Signed(negative, PosValue(ds, base))
         == (acc * base + Signed(negative, DigitValue(ds[0]))) * Pow(base, |ds| - 1)
            + Signed(negative, PosValue(ds[1..], base))
  {
    var P := Pow(base, |ds| - 1);
    assert Pow(base, |ds|) == base * P;
    HornerAlgebra(acc, base, DigitValue(ds[0]), P, PosValue(ds[1..], base), negative);
  }

  /** Horner's scheme on unbounded integers. */
  function HornerSum(base: nat, negative: bool, ds: string, acc: int): int
    decreases |ds|
  {
    if ds == [] then acc
    else HornerSum(base, negative, ds[1..], acc * base + Signed(negative, DigitValue(ds[0])))
  }

  /** Horner's scheme computes the positional value. */
  lemma {:induction false} HornerSumValue(base: nat, negative: bool, ds: string, acc: int)
    ensures HornerSum(base, negative, ds, acc) == acc * Pow(base, |ds|) + Signed(negative, PosValue(ds, base))
    decreases |ds|
  {
    if ds == [] {
      assert acc * Pow(base, 0) + Signed(negative, 0) == acc;
    } else {
      HornerSumValue(base, negative, ds[1..], acc * base + Signed(negative, DigitValue(ds[0])));
      HornerUnfold(base, negative, ds, acc);
    }
  }

  /** Horner's scheme in the type yields the unbounded one in the type:
      wrapped where the type wraps, and `Overflow` exactly when the final
      value does not fit a type that does not wrap. */
  lemma HornerValue(t: IntType, base: nat, negative: bool, ds: string, acc: int)
    requires base >= 1 && AllNumeralChars(ds) && InRange(t, acc)
    requires Wraps(t) || Signed(negative, acc) >= 0
    ensures Horner(t, base, negative, ds, acc) == Arith(t, HornerSum(base, negative, ds, acc))
  {
    if Wraps(t) {
      HornerWrapsSum(t, base, negative, ds, acc);
    } else {
      HornerExact(t, base, negative, ds, acc);
    }
  }

  /** Horner steps preserve congruence modulo 2^bits. */
  lemma {:induction false} HornerSumCongruent(t: IntType, base: nat, negative: bool, ds: string, x: int, y: int)
    requires Wrap(t, x) == Wrap(t, y)
    ensures Wrap(t, HornerSum(base, negative, ds, x)) == Wrap(t, HornerSum(base, negative, ds, y))
    decreases |ds|
  {
    if ds != [] {
      var c := Signed(negative, DigitValue(ds[0]));
      WrapStep(t, x, y, base, c);
      HornerSumCongruent(t, base, negative, ds[1..], x * base + c, y * base + c);
    }
  }

  /** In a type that wraps, Horner's scheme is the wrapped unbounded one. */
  lemma {:induction false} HornerWrapsSum(t: IntType, base: nat, negative: bool, ds: string, acc: int)
    requires InRange(t, acc) && Wraps(t)
    ensures Horner(t, base, negative, ds, acc) == Arith(t, HornerSum(base, negative, ds, acc))
    decreases |ds|
  {
    if ds != [] {
      var x1 := acc * base + Signed(negative, DigitValue(ds[0]));
      var a := Wrap(t, x1);
      HornerWrapStep(t, base, negative, ds, acc);
      HornerWrapsSum(t, base, negative, ds[1..], a);
      HornerSumCongruent(t, base, negative, ds[1..], a, x1);
    }
  }

  /** One digit of Horner's scheme in a type that wraps. */
  lemma HornerWrapStep(t: IntType, base: nat, negative: bool, ds: string, acc: int)
    requires ds != [] && InRange(t, acc) && Wraps(t)
    ensures Horner(t, base, negative, ds, acc)
         == Horner(t, base, negative, ds[1..], Wrap(t, acc * base + Signed(negative, DigitValue(ds[0]))))
  {
    var x1 := acc * base + Signed(negative, DigitValue(ds[0]));
    assert Arith(t, x1) == Success(Wrap(t, x1));
  }

  /** Digits only move the unbounded Horner value away from zero. */
  lemma {:induction false} HornerSumGrows(base: nat, negative: bool, ds: string, x: int)
    requires base >= 1 && AllNumeralChars(ds) && Signed(negative, x) >= 0
    ensures Signed(negative, x) <= Signed(negative, HornerSum(base, negative, ds, x))
    decreases |ds|
  {
    if ds != [] {
      var x1 := x * base + Signed(negative, DigitValue(ds[0]));
      MulKeepsSign(x, base);
      assert Signed(negative, x) <= Signed(negative, x1);
      assert AllNumeralChars(ds[1..]);
      HornerSumGrows(base, negative, ds[1..], x1);
    }
  }

  /** In a type that does not wrap, a partial value that does not fit
      means the final value does not fit either. */
  lemma {:induction false} HornerExact(t: IntType, base: nat, negative: bool, ds: string, acc: int)
    requires base >= 1 && AllNumeralChars(ds) && InRange(t, acc)
    requires !Wraps(t) && Signed(negative, acc) >= 0
    ensures Horner(t, base, negative, ds, acc) == Arith(t, HornerSum(base, negative, ds, acc))
    decreases |ds|
  {
    if ds != [] {
      var rest := ds[1..];
      var x1 := acc * base + Signed(negative, DigitValue(ds[0]));
      MulKeepsSign(acc, base);
      assert Signed(negative, x1) >= 0;
      assert AllNumeralChars(rest);
      if InRange(t, x1) {
        HornerExact(t, base, negative, rest, x1);
      } else {
        HornerSumGrows(base, negative, rest, x1);
        var h := HornerSum(base, negative, rest, x1);
        if InRange(t, h) {
          InRangeBetween(t, h, x1);
        }
      }
    }
  }

  /** The corrected evaluation is the signed positional value in the type. */
  lemma EvaluateValue(t: IntType, negative: bool, base: nat, ds: string)
    requires ValidNumeral(Digits(negative, base, ds))
    ensures Evaluate(t, Digits(negative, base, ds)) == Arith(t, Signed(negative, PosValue(ds, base)))
  {
    HornerValue(t, base, negative, ds, 0);
    HornerSumValue(base, negative, ds, 0);
    assert 0 * Pow(base, |ds|) == 0;
  }

  /** Exact division of a signed power of the base by the base. */
  lemma TruncDivPow(negative: bool, base: nat, k: nat)
    requires base >= 1
    ensures TruncDiv(Signed(negative, Pow(base, k + 1)), base) == Signed(negative, Pow(base, k))
  {
    var P := Pow(base, k);
    assert Pow(base, k + 1) == P * base;
    DivModUnique(P * base, P, 0, base);
  }

  /** While the final weight fits, every intermediate multiplier is exact. */
  lemma {:induction false} ScaleExact(t: IntType, negative: bool, base: nat, j: nat, k: nat)
    requires base >= 1
    requires InRange(t, Signed(negative, Pow(base, j + k)))
    ensures InRange(t, Signed(negative, Pow(base, j)))
    ensures Scale(t, Signed(negative, Pow(base, j)), base, k) == Success(Signed(negative, Pow(base, j + k)))
    decreases k
  {
    var m := Signed(negative, Pow(base, j));
    PowMonotone(base, j, j + k);
    InRangeBetween(t, Signed(negative, Pow(base, j + k)), m);
    if k > 0 {
      SignedPowStep(negative, base, j);
      ScaleExact(t, negative, base, j + 1, k - 1);
      ScaleStep(t, m, base, k);
    }
  }

  lemma SignedPowStep(negative: bool, base: nat, j: nat)
    ensures Signed(negative, Pow(base, j)) * base == Signed(negative, Pow(base, j + 1))
  {
    assert Pow(base, j + 1) == base * Pow(base, j);
  }

  /** One multiplication of `Scale` that stays in range. */
  lemma ScaleStep(t: IntType, m: int, base: nat, k: nat)
    requires k > 0 && InRange(t, m) && InRange(t, m * base)
    ensures Scale(t, m, base, k) == Scale(t, m * base, base, k - 1)
  {
    assert Arith(t, m * base) == Success(m * base);
  }

  lemma WeightedAlgebra(acc: int, d: int, P: int, R: int, negative: bool)
    ensures acc + Signed(negative, d * P + R) == acc + d * Signed(negative, P) + Signed(negative, R)
  {
  }

  /** The source's weighted sum, started with the exact leading weight, is
      the signed positional value in the type. */
  lemma WeightedValue(t: IntType, negative: bool, base: nat, ds: string, acc: int)
    requires base >= 1 && ds != [] && AllNumeralChars(ds) && InRange(t, acc)
    requires InRange(t, Signed(negative, Pow(base, |ds| - 1)))
    requires Wraps(t) || Signed(negative, acc) >= 0
    ensures Weighted(t, base, ds, Signed(negative, Pow(base, |ds| - 1)), acc)
         == Arith(t, acc + Signed(negative, PosValue(ds, base)))
  {
    if Wraps(t) {
      WeightedWrapping(t, negative, base, ds, acc);
    } else {
      WeightedExact(t, negative, base, ds, acc);
    }
  }

  /** One digit of the weighted sum, and the exact next multiplier. */
  lemma WeightedUnfold(t: IntType, negative: bool, base: nat, ds: string, acc: int)
    requires base >= 1 && ds != []
    requires InRange(t, Signed(negative, Pow(base, |ds| - 1)))
    ensures acc + Signed(negative, PosValue(ds, base))
         == acc + DigitValue(ds[0]) * Signed(negative, Pow(base, |ds| - 1))
            + Signed(negative, PosValue(ds[1..], base))
    ensures |ds| >= 2 ==>
              && TruncDiv(Signed(negative, Pow(base, |ds| - 1)), base) == Signed(negative, Pow(base, |ds| - 2))
              && InRange(t, Signed(negative, Pow(base, |ds| - 2)))
  {
    WeightedAlgebra(acc, DigitValue(ds[0]), Pow(base, |ds| - 1), PosValue(ds[1..], base), negative);
    if |ds| >= 2 {
      TruncDivPow(negative, base, |ds| - 2);
      PowMonotone(base, |ds| - 2, |ds| - 1);
      InRangeBetween(t, Signed(negative, Pow(base, |ds| - 1)), Signed(negative, Pow(base, |ds| - 2)));
    }
  }

  /** One step of the weighted sum in a type that wraps. */
  lemma WeightedWrapStep(t: IntType, base: nat, ds: string, m: int, acc: int)
    requires base > 0 && ds != [] && InRange(t, m) && InRange(t, acc) && Wraps(t)
    ensures InRange(t, TruncDiv(m, base))
    ensures Weighted(t, base, ds, m, acc)
         == Weighted(t, base, ds[1..], TruncDiv(m, base), Wrap(t, acc + DigitValue(ds[0]) * m))
  {
    WrapMulAdd(t, acc, DigitValue(ds[0]) * m);
    InRangeBetween(t, m, TruncDiv(m, base));
  }

  /** In a type that wraps, adding a digit's product to the sum leaves the
      wrapped total. */
  lemma WrapMulAdd(t: IntType, acc: int, x: int)
    requires Wraps(t) && InRange(t, acc)
    ensures Product(t, x).Success?
    ensures Arith(t, acc + Product(t, x).value) == Success(Wrap(t, acc + x))
  {
    var p := Product(t, x).value;
    if !Promoted(t) {
      assert p == Wrap(t, x);
    }
    WrapAdd(t, acc, x);
    assert Arith(t, acc + p) == Success(Wrap(t, acc + p));
  }

  /** One step of the weighted sum in a type that does not wrap. */
  lemma WeightedExactStep(t: IntType, base: nat, ds: string, m: int, acc: int)
    requires base > 0 && ds != [] && InRange(t, m) && InRange(t, acc) && !Wraps(t)
    ensures InRange(t, TruncDiv(m, base))
    ensures Weighted(t, base, ds, m, acc)
         == (if !InRange(t, DigitValue(ds[0]) * m) || !InRange(t, acc + DigitValue(ds[0]) * m)
             then Failure(Overflow)
             else Weighted(t, base, ds[1..], TruncDiv(m, base), acc + DigitValue(ds[0]) * m))
  {
    InRangeBetween(t, m, TruncDiv(m, base));
  }

  lemma {:induction false} WeightedWrapping(t: IntType, negative: bool, base: nat, ds: string, acc: int)
    requires base >= 1 && ds != [] && AllNumeralChars(ds) && InRange(t, acc) && Wraps(t)
    requires InRange(t, Signed(negative, Pow(base, |ds| - 1)))
    ensures Weighted(t, base, ds, Signed(negative, Pow(base, |ds| - 1)), acc)
         == Success(Wrap(t, acc + Signed(negative, PosValue(ds, base))))
    decreases |ds|
  {
    var y := Wrap(t, acc + DigitValue(ds[0]) * Signed(negative, Pow(base, |ds| - 1)));
    if |ds| >= 2 {
      assert AllNumeralChars(ds[1..]);
      NextWeight(t, negative, base, ds);
      WeightedWrapping(t, negative, base, ds[1..], y);
    }
    WrappingCompose(t, negative, base, ds, acc, y);
  }

  /** The multiplier after a digit is the next digit's weight, which fits
      whenever this one's does. */
  lemma NextWeight(t: IntType, negative: bool, base: nat, ds: string)
    requires base >= 1 && |ds| >= 2
    requires InRange(t, Signed(negative, Pow(base, |ds| - 1)))
    ensures TruncDiv(Signed(negative, Pow(base, |ds| - 1)), base) == Signed(negative, Pow(base, |ds[1..]| - 1))
    ensures InRange(t, Signed(negative, Pow(base, |ds[1..]| - 1)))
  {
    var k := |ds[1..]| - 1;
    assert |ds| - 1 == k + 1;
    TruncDivPow(negative, base, k);
    PowMonotone(base, k, k + 1);
    InRangeBetween(t, Signed(negative, Pow(base, k + 1)), Signed(negative, Pow(base, k)));
  }

  /** `WeightedWrapping` for the digits from the second on gives it for all. */
  lemma WrappingCompose(t: IntType, negative: bool, base: nat, ds: string, acc: int, y: int)
    requires base >= 1 && ds != [] && InRange(t, acc) && Wraps(t)
    requires InRange(t, Signed(negative, Pow(base, |ds| - 1)))
    requires y == Wrap(t, acc + DigitValue(ds[0]) * Signed(negative, Pow(base, |ds| - 1)))
    requires |ds| >= 2 ==>
               && InRange(t, Signed(negative, Pow(base, |ds[1..]| - 1)))
               && Weighted(t, base, ds[1..], Signed(negative, Pow(base, |ds[1..]| - 1)), y)
                  == Success(Wrap(t, y + Signed(negative, PosValue(ds[1..], base))))
    ensures Weighted(t, base, ds, Signed(negative, Pow(base, |ds| - 1)), acc)
         == Success(Wrap(t, acc + Signed(negative, PosValue(ds, base))))
  {
    var W := Signed(negative, Pow(base, |ds| - 1));
    WeightedWrapStep(t, base, ds, W, acc);
    WrappingSum(t, negative, base, ds, acc);
    if |ds| == 1 {
      WrappingLast(t, negative, base, ds, acc);
    } else {
      NextWeight(t, negative, base, ds);
    }
  }

  /** The last digit: the wrapped partial sum is the wrapped total. */
  lemma WrappingLast(t: IntType, negative: bool, base: nat, ds: string, acc: int)
    requires base >= 1 && |ds| == 1
    requires InRange(t, Signed(negative, Pow(base, |ds| - 1)))
    ensures var y := acc + DigitValue(ds[0]) * Signed(negative, Pow(base, |ds| - 1));
            Wrap(t, y) == Wrap(t, Wrap(t, y) + Signed(negative, PosValue(ds[1..], base)))
  {
    var y := acc + DigitValue(ds[0]) * Signed(negative, Pow(base, |ds| - 1));
    assert PosValue(ds[1..], base) == 0;
    SameWrap(t, Wrap(t, y), Wrap(t, y) + Signed(negative, PosValue(ds[1..], base)));
  }

  /** The wrapped partial sum plus the rest of the digits wraps to the
      whole sum. */
  lemma WrappingSum(t: IntType, negative: bool, base: nat, ds: string, acc: int)
    requires base >= 1 && ds != []
    requires InRange(t, Signed(negative, Pow(base, |ds| - 1)))
    ensures var y := acc + DigitValue(ds[0]) * Signed(negative, Pow(base, |ds| - 1));
            Wrap(t, Wrap(t, y) + Signed(negative, PosValue(ds[1..], base)))
            == Wrap(t, acc + Signed(negative, PosValue(ds, base)))
  {
    var y := acc + DigitValue(ds[0]) * Signed(negative, Pow(base, |ds| - 1));
    var R := Signed(negative, PosValue(ds[1..], base));
    WeightedUnfold(t, negative, base, ds, acc);
    WrapAdd(t, R, y);
    assert Wrap(t, R + Wrap(t, y)) == Wrap(t, Wrap(t, y) + R);
    SameWrap(t, R + y, acc + Signed(negative, PosValue(ds, base)));
  }

  lemma SameWrap(t: IntType, a: int, b: int)
    requires a == b
    ensures Wrap(t, a) == Wrap(t, b)
  {
  }

  lemma {:induction false} WeightedExact(t: IntType, negative: bool, base: nat, ds: string, acc: int)
    requires base >= 1 && ds != [] && AllNumeralChars(ds) && InRange(t, acc)
    requires InRange(t, Signed(negative, Pow(base, |ds| - 1)))
    requires !Wraps(t) && Signed(negative, acc) >= 0
    ensures Weighted(t, base, ds, Signed(negative, Pow(base, |ds| - 1)), acc)
         == Arith(t, acc + Signed(negative, PosValue(ds, base)))
    decreases |ds|
  {
    var rest := ds[1..];
    var d := DigitValue(ds[0]);
    var P := Pow(base, |ds| - 1);
    var W := Signed(negative, P);
    var R := Signed(negative, PosValue(rest, base));
    var y := acc + d * W;
    WeightedUnfold(t, negative, base, ds, acc);
    WeightedExactStep(t, base, ds, W, acc);
    assert AllNumeralChars(rest);
    PosValueNonNegative(rest, base);
    MulKeepsSign(d, P);
    assert d * W == Signed(negative, d * P);
    SameSideChain(negative, acc, d * P, PosValue(rest, base));
    if !InRange(t, d * W) {
      if InRange(t, y + R) {
        InRangeBetween(t, y + R, d * W);
      }
    } else if !InRange(t, y) {
      if InRange(t, y + R) {
        InRangeBetween(t, y + R, y);
      }
    } else if rest != [] {
      WeightedExact(t, negative, base, rest, y);
    }
  }

  /** Partial sums of terms of one sign lie between 0 and the total. */
  lemma SameSideChain(negative: bool, acc: int, x: int, r: int)
    requires Signed(negative, acc) >= 0 && x >= 0 && r >= 0
    ensures var y := acc + Signed(negative, x);
            && Signed(negative, y) >= 0
            && (0 <= Signed(negative, x) <= y + Signed(negative, r) || y + Signed(negative, r) <= Signed(negative, x) <= 0)
            && (0 <= y <= y + Signed(negative, r) || y + Signed(negative, r) <= y <= 0)
  {
  }

  /** Whether the leading weight base^(len-1), signed, fits the type; the
      source's evaluation is only exact when it does. */
  predicate WeightFits(t: IntType, n: Numeral)
    requires ValidNumeral(n)
  {
    n.Digits? ==> InRange(t, Signed(n.negative, Pow(n.base, |n.digits| - 1)))
  }

  /** When the leading weight fits, the source's evaluation is the signed
      positional value in the type, as the corrected one is. */
  lemma EvaluateAsWrittenValue(t: IntType, n: Numeral)
    requires ValidNumeral(n) && WeightFits(t, n)
    ensures EvaluateAsWritten(t, n) == Evaluate(t, n)
    ensures n.Digits? ==> EvaluateAsWritten(t, n) == Arith(t, Signed(n.negative, PosValue(n.digits, n.base)))
  {
    if n.Digits? {
      AsWrittenDigits(t, n.negative, n.base, n.digits);
      EvaluateValue(t, n.negative, n.base, n.digits);
    }
  }

  lemma AsWrittenDigits(t: IntType, negative: bool, base: nat, ds: string)
    requires ValidNumeral(Digits(negative, base, ds))
    requires InRange(t, Signed(negative, Pow(base, |ds| - 1)))
    ensures EvaluateAsWritten(t, Digits(negative, base, ds)) == Arith(t, Signed(negative, PosValue(ds, base)))
  {
    StartMultiplier(t, negative, base, ds);
    assert AllNumeralChars(ds);
    WeightedValue(t, negative, base, ds, 0);
  }

  /** When the leading weight fits, scaling ±1 gives it exactly. */
  lemma StartMultiplier(t: IntType, negative: bool, base: nat, ds: string)
    requires base >= 1 && ds != [] && InRange(t, Signed(negative, Pow(base, |ds| - 1)))
    ensures Scale(t, Wrap(t, if negative then -1 else 1), base, |ds| - 1)
         == Success(Signed(negative, Pow(base, |ds| - 1)))
  {
    assert Pow(base, 0) == 1;
    ScaleExact(t, negative, base, 0, |ds| - 1);
    assert Wrap(t, if negative then -1 else 1) == Signed(negative, Pow(base, 0));
  }

  /** Whether the leading weight of a literal fits the type. A rejected
      literal has no weight, and both decoders reject it alike. */
  predicate LeadFits(t: IntType, v: string) {
    SplitLiteral(v, false).Success? ==> WeightFits(t, SplitLiteral(v, false).value)
  }

  /** Where the leading weight fits, the source's decoder and the corrected
      one give the same result. */
  lemma DecodeAgrees(t: IntType, v: string)
    requires LeadFits(t, v)
    ensures DecodeAsWritten(t, v) == Decode(t, v)
  {
    var r := SplitLiteral(v, false);
    if r.Success? {
      EvaluateAsWrittenValue(t, r.value);
    }
  }

  /** Once the multiplier has wrapped to zero, the remaining digits add
      nothing to the sum. */
  lemma {:induction false} WeightedZero(t: IntType, base: nat, ds: string, acc: int)
    requires base > 0 && InRange(t, acc)
    ensures Weighted(t, base, ds, 0, acc) == Success(acc)
    decreases |ds|
  {
    if ds != [] {
      assert DigitValue(ds[0]) * 0 == 0;
      assert TruncDiv(0, base) == 0;
      WeightedZero(t, base, ds[1..], acc);
    }
  }

  // ---------------------------------------------------------------------
  // Whitespace and signs

  /** Where `trim` starts its result. */
  function TrimStart(v: string): nat {
    FindFirst(v, c => !IsSpace(c))
  }

  /** `trim` returns the text between the leading and the trailing whitespace. */
  lemma TrimSlice(v: string)
    ensures TrimStart(v) + |Trim(v)| <= |v|
    ensures Trim(v) == v[TrimStart(v)..TrimStart(v) + |Trim(v)|]
    ensures AllSpaces(v[..TrimStart(v)]) && AllSpaces(v[TrimStart(v) + |Trim(v)|..])
  {
    var k := TrimStart(v);
    var w := v[k..];
    var e := TrimEnd(w);
    assert Trim(v) == e;
    assert e == w[..|e|];
    assert w[..|e|] == v[k..k + |e|];
    assert w[|e|..] == v[k + |e|..];
    assert AllSpaces(v[..k]) by {
      forall j | 0 <= j < k
        ensures IsSpace(v[..k][j])
      {
        assert v[..k][j] == v[j];
      }
    }
  }

  /** Trimming text padded with whitespace on both sides gives the text back. */
  lemma TrimPadded(p: string, x: string, q: string)
    requires AllSpaces(p) && AllSpaces(q)
    requires x != [] && !IsSpace(x[0]) && !IsSpace(x[|x| - 1])
    ensures Trim(p + x + q) == x
  {
    var v := p + x + q;
    var k := TrimStart(v);
    assert v[|p|] == x[0];
    assert k == |p|;
    var r := Trim(v);
    TrimSlice(v);
    assert v[|p| + |x| - 1] == x[|x| - 1];
    assert r == v[|p|..|p| + |x|];
  }

  predicate SignsAndSpaces(s: string) {
    forall i | 0 <= i < |s| :: IsSpace(s[i]) || IsSign(s[i])
  }

  /** The number of minus signs in `s`. */
  function Minuses(s: string): nat {
    if s == [] then 0 else (if s[0] == '-' then 1 else 0) + Minuses(s[1..])
  }

  lemma {:induction false} MinusesConcat(a: string, b: string)
    ensures Minuses(a + b) == Minuses(a) + Minuses(b)
  {
    if a != [] {
      assert (a + b)[0] == a[0];
      assert (a + b)[1..] == a[1..] + b;
      MinusesConcat(a[1..], b);
    } else {
      assert a + b == b;
    }
  }

  lemma {:induction false} MinusesOfSpaces(a: string)
    requires AllSpaces(a)
    ensures Minuses(a) == 0
  {
    if a != [] {
      MinusesOfSpaces(a[1..]);
    }
  }

  /** Whether the signs in front of a literal make it negative: each `-`
      flips the sign and each `+` keeps it. */
  predicate Negates(lead: string) {
    Minuses(lead) % 2 == 1
  }

  /** Any mix of whitespace and signs in front of the numeral, and whitespace
      after it, is consumed: the numeral is split with the sign that the
      parity of the minus signs gives. */
  lemma {:induction false} StripLead(lead: string, core: string, trail: string, negative: bool)
    requires SignsAndSpaces(lead) && AllSpaces(trail)
    requires core != [] && !IsSpace(core[0]) && !IsSign(core[0]) && !IsSpace(core[|core| - 1])
    ensures SplitLiteral(lead + core + trail, negative) == SplitUnsigned(core, negative != Negates(lead))
    decreases |lead|
  {
    var i := FindFirst(lead, c => !IsSpace(c));
    if i == |lead| {
      StripSpaces(lead, core, trail, negative);
    } else {
      var neg' := if lead[i] == '-' then !negative else negative;
      StripOneSign(lead, core, trail, negative, i);
      StripLead(lead[i + 1..], core, [], neg');
      NegatesAfterSpaces(lead, i);
    }
  }

  lemma StripSpaces(lead: string, core: string, trail: string, negative: bool)
    requires AllSpaces(lead) && AllSpaces(trail)
    requires core != [] && !IsSpace(core[0]) && !IsSign(core[0]) && !IsSpace(core[|core| - 1])
    ensures SplitLiteral(lead + core + trail, negative) == SplitUnsigned(core, negative != Negates(lead))
  {
    TrimPadded(lead, core, trail);
    MinusesOfSpaces(lead);
    SplitNoSign(lead + core + trail, negative);
  }

  lemma StripOneSign(lead: string, core: string, trail: string, negative: bool, i: nat)
    requires i < |lead| && AllSpaces(lead[..i]) && IsSign(lead[i]) && AllSpaces(trail)
    requires core != [] && !IsSpace(core[|core| - 1])
    ensures SplitLiteral(lead + core + trail, negative)
         == SplitLiteral(lead[i + 1..] + core + [], if lead[i] == '-' then !negative else negative)
  {
    var x := lead[i..] + core;
    var v := lead + core + trail;
    assert Trim(v) == x by {
      assert v == lead[..i] + x + trail;
      TrimPadded(lead[..i], x, trail);
    }
    assert x[1..] == lead[i + 1..] + core + [];
    SplitAfterSign(v, negative);
  }

  /** After a sign, the decoder goes on with the rest of the trimmed text. */
  lemma SplitAfterSign(v: string, negative: bool)
    requires Trim(v) != [] && IsSign(Trim(v)[0])
    ensures SplitLiteral(v, negative)
         == SplitLiteral(Trim(v)[1..], if Trim(v)[0] == '-' then !negative else negative)
  {
  }

  /** Without a sign, the decoder splits the trimmed text. */
  lemma SplitNoSign(v: string, negative: bool)
    requires Trim(v) != [] && !IsSign(Trim(v)[0])
    ensures SplitLiteral(v, negative) == SplitUnsigned(Trim(v), negative)
  {
  }

  lemma NegatesAfterSpaces(lead: string, i: nat)
    requires i < |lead| && AllSpaces(lead[..i])
    ensures Negates(lead) == (Negates(lead[i + 1..]) != (lead[i] == '-'))
  {
    MinusesAfterSpaces(lead, i);
  }

  lemma MinusesAfterSpaces(lead: string, i: nat)
    requires i < |lead| && AllSpaces(lead[..i])
    ensures Minuses(lead) == (if lead[i] == '-' then 1 else 0) + Minuses(lead[i + 1..])
  {
    assert lead == lead[..i] + ([lead[i]] + lead[i + 1..]);
    MinusesConcat(lead[..i], [lead[i]] + lead[i + 1..]);
    MinusesConcat([lead[i]], lead[i + 1..]);
    MinusesOfSpaces(lead[..i]);
  }

  /** The decoder reports an empty value exactly when the text holds nothing
      but whitespace and signs. */
  lemma {:induction false} SplitEmptyIff(v: string, negative: bool)
    ensures SplitLiteral(v, negative) == Failure(EmptyValue) <==> SignsAndSpaces(v)
    decreases |v|
  {
    var w := Trim(v);
    var k := TrimStart(v);
    TrimSlice(v);
    assert forall j | k <= j < k + |w| :: v[j] == w[j - k];
    if w == [] {
    } else if w[0] == '-' || w[0] == '+' {
      var neg' := if w[0] == '-' then !negative else negative;
      SplitEmptyIff(w[1..], neg');
      if SignsAndSpaces(w[1..]) {
        forall j | 0 <= j < |v|
          ensures IsSpace(v[j]) || IsSign(v[j])
        {
          if j < k {
            assert v[..k][j] == v[j];
          } else if j >= k + |w| {
            assert v[k + |w|..][j - k - |w|] == v[j];
          } else if j > k {
            assert w[1..][j - k - 1] == v[j];
          }
        }
      }
      if SignsAndSpaces(v) {
        forall j | 0 <= j < |w[1..]|
          ensures IsSpace(w[1..][j]) || IsSign(w[1..][j])
        {
          assert w[1..][j] == v[k + 1 + j];
        }
      }
    } else {
      assert v[k] == w[0];
    }
  }

  /** Either decoder reports an empty value exactly for whitespace and signs. */
  lemma DecodeEmptyIff(sum: DigitSum, t: IntType, v: string)
    ensures DecodeWith(sum, t, v) == Failure(EmptyValue) <==> SignsAndSpaces(v)
  {
    SplitEmptyIff(v, false);
  }

  // ---------------------------------------------------------------------
  // Rejected numerals

  /** `k` ends the maximal run of "0123456789abcdefABCDEFxX" at the start of `w`. */
  predicate NumeralRun(w: string, k: nat) {
    && k <= |w|
    && (forall i | 0 <= i < k :: IsNumeralChar(w[i]))
    && (k < |w| ==> !IsNumeralChar(w[k]))
  }

  lemma NumeralRunIsFind(w: string, k: nat)
    requires NumeralRun(w, k)
    ensures FindFirst(w, c => !IsNumeralChar(c)) == k
  {
  }

  /** The four ways the source rejects a literal that is not empty: a suffix
      that is not all letters, a numeral that does not start with a decimal
      digit, a character after a leading `0` that is neither a base letter
      nor a digit, and (in the model) a `0x` or `0b` prefix with no digits. */
  lemma RejectionCases(lead: string, core: string, trail: string, negative: bool, k: nat)
    requires SignsAndSpaces(lead) && AllSpaces(trail)
    requires core != [] && !IsSpace(core[0]) && !IsSign(core[0]) && !IsSpace(core[|core| - 1])
    requires NumeralRun(core, k)
    ensures var r := SplitLiteral(lead + core + trail, negative);
            && (r == Failure(BadSuffix) <==> !AllLetters(core[k..]))
            && (r == Failure(NotNumeric) <==> AllLetters(core[k..]) && !IsDecimalDigit(core[0]))
            && (r == Failure(UnknownBase) <==>
                  AllLetters(core[k..]) && core[0] == '0' && k >= 2
                  && core[1] !in "xXbB" && !IsDecimalDigit(core[1]))
            && (r == Failure(NoDigits) <==> AllLetters(core[k..]) && core[0] == '0' && k == 2 && core[1] in "xXbB")
            && (r.Success? <==>
                  AllLetters(core[k..]) && IsDecimalDigit(core[0])
                  && (core[0] == '0' && k >= 2 ==> (core[1] in "xXbB" && k > 2) || IsDecimalDigit(core[1])))
  {
    StripLead(lead, core, trail, negative);
    UnsignedCases(core, negative != Negates(lead), k);
  }

  /** The same cases for a literal without leading signs or spaces. */
  lemma UnsignedCases(core: string, negative: bool, k: nat)
    requires core != [] && !IsSpace(core[0]) && !IsSign(core[0])
    requires NumeralRun(core, k)
    ensures var r := SplitUnsigned(core, negative);
            && (r == Failure(BadSuffix) <==> !AllLetters(core[k..]))
            && (r == Failure(NotNumeric) <==> AllLetters(core[k..]) && !IsDecimalDigit(core[0]))
            && (r == Failure(UnknownBase) <==>
                  AllLetters(core[k..]) && core[0] == '0' && k >= 2
                  && core[1] !in "xXbB" && !IsDecimalDigit(core[1]))
            && (r == Failure(NoDigits) <==> AllLetters(core[k..]) && core[0] == '0' && k == 2 && core[1] in "xXbB")
            && (r.Success? <==>
                  AllLetters(core[k..]) && IsDecimalDigit(core[0])
                  && (core[0] == '0' && k >= 2 ==> (core[1] in "xXbB" && k > 2) || IsDecimalDigit(core[1])))
  {
    NumeralRunIsFind(core, k);
    if k > 0 {
      assert core[..k][0] == core[0];
      assert IsDecimalDigit(core[0]) ==> IsNumeralChar(core[0]);
    }
    if k > 1 {
      assert core[..k][1] == core[1];
    }
  }


  // ---------------------------------------------------------------------
  // The literal spellings C++ accepts, and their values

  datatype Radix = Decimal | Octal | Hex(upperX: bool) | Binary(upperB: bool)

  /** A literal as written: whitespace and signs, base prefix, digits,
      alphabetic suffix and trailing whitespace. An octal spelling with no
      digits is the lone `0`. */
  datatype Spelling = Spelling(lead: string, radix: Radix, digits: string, suffix: string, trail: string)

  function RadixBase(r: Radix): nat {
    match r
    case Decimal => 10
    case Octal => 8
    case Hex(_) => 16
    case Binary(_) => 2
  }

  function Prefix(r: Radix): string {
    match r
    case Decimal => ""
    case Octal => "0"
    case Hex(upper) => if upper then "0X" else "0x"
    case Binary(upper) => if upper then "0B" else "0b"
  }

  function Render(sp: Spelling): string {
    sp.lead + (Prefix(sp.radix) + sp.digits + sp.suffix) + sp.trail
  }

  /** A digit of the base: `DigitValue` gives the usual digit values. */
  predicate IsDigitOf(c: char, base: nat) {
    (IsDecimalDigit(c) || ('a' <= c <= 'f') || ('A' <= c <= 'F')) && DigitValue(c) < base
  }

  /** An integer literal of C++'s grammar without digit separators, with
      any suffix made of letters (the source does not check the suffix
      further). */
  predicate WellFormed(sp: Spelling) {
    && SignsAndSpaces(sp.lead)
    && AllSpaces(sp.trail)
    && AllLetters(sp.suffix)
    && (sp.suffix == [] || !IsNumeralChar(sp.suffix[0]))
    && (forall i | 0 <= i < |sp.digits| :: IsDigitOf(sp.digits[i], RadixBase(sp.radix)))
    && match sp.radix
       case Decimal => sp.digits != [] && sp.digits[0] != '0'
       case Octal => true
       case _ => sp.digits != []
  }

  /** The mathematical value of a spelling. */
  function Value(sp: Spelling): int {
    Signed(Negates(sp.lead), PosValue(sp.digits, RadixBase(sp.radix)))
  }

  /** The numeral a well-formed spelling is split into. */
  lemma SplitSpelling(sp: Spelling, negative: bool)
    requires WellFormed(sp)
    ensures SplitLiteral(Render(sp), negative)
         == if sp.digits == [] then Success(Zero)
            else Success(Digits(negative != Negates(sp.lead), RadixBase(sp.radix), sp.digits))
  {
    var core := Prefix(sp.radix) + sp.digits + sp.suffix;
    CoreShape(sp);
    StripLead(sp.lead, core, sp.trail, negative);
    SplitCore(sp, negative != Negates(sp.lead));
  }

  /** The prefix, digits and suffix of a spelling start with a digit and
      end with something other than whitespace. */
  lemma CoreShape(sp: Spelling)
    requires WellFormed(sp)
    ensures var core := Prefix(sp.radix) + sp.digits + sp.suffix;
            core != [] && IsDecimalDigit(core[0]) && !IsSpace(core[|core| - 1])
  {
    var num := Prefix(sp.radix) + sp.digits;
    var core := num + sp.suffix;
    assert core[0] == num[0];
    if sp.suffix != [] {
      assert core[|core| - 1] == sp.suffix[|sp.suffix| - 1];
    } else if sp.digits != [] {
      assert core[|core| - 1] == sp.digits[|sp.digits| - 1];
    }
  }

  /** The numeral run of a spelling's core ends where the suffix starts. */
  lemma CoreRun(sp: Spelling)
    requires WellFormed(sp)
    ensures var num := Prefix(sp.radix) + sp.digits;
            NumeralRun(num + sp.suffix, |num|)
  {
    var pre := Prefix(sp.radix);
    var num := pre + sp.digits;
    var core := num + sp.suffix;
    forall i | 0 <= i < |num|
      ensures IsNumeralChar(core[i])
    {
      if i >= |pre| {
        assert core[i] == sp.digits[i - |pre|];
      }
    }
    if |num| < |core| {
      assert core[|num|] == sp.suffix[0];
    }
  }

  /** `SplitUnsigned` on the prefix, digits and suffix of a spelling. */
  lemma SplitCore(sp: Spelling, negative: bool)
    requires WellFormed(sp)
    ensures SplitUnsigned(Prefix(sp.radix) + sp.digits + sp.suffix, negative)
         == if sp.digits == [] then Success(Zero)
            else Success(Digits(negative, RadixBase(sp.radix), sp.digits))
  {
    var num := Prefix(sp.radix) + sp.digits;
    var core := num + sp.suffix;
    CoreRun(sp);
    NumeralRunIsFind(core, |num|);
    assert core[..|num|] == num && core[|num|..] == sp.suffix;
    if sp.radix.Octal? && sp.digits != [] {
      assert num[1..] == sp.digits;
      assert num[1] == sp.digits[0];
    } else if sp.radix.Hex? || sp.radix.Binary? {
      assert num[0] == '0' && num[1] == Prefix(sp.radix)[1];
      assert num[2..] == sp.digits;
    } else if sp.radix.Decimal? {
      assert num == sp.digits;
    }
  }

  /** Every well-formed spelling decodes to its mathematical value in the
      underlying type: wrapped to the type's width where the type's
      arithmetic wraps, and `Overflow` where it does not and the value does
      not fit. */
  lemma DecodeSpelling(t: IntType, sp: Spelling)
    requires WellFormed(sp)
    ensures Decode(t, Render(sp)) == Arith(t, Value(sp))
  {
    SplitSpelling(sp, false);
    if sp.digits != [] {
      SpellingNumeral(sp, Negates(sp.lead));
      EvaluateValue(t, Negates(sp.lead), RadixBase(sp.radix), sp.digits);
    }
  }

  /** The digits of a well-formed spelling make a valid numeral. */
  lemma SpellingNumeral(sp: Spelling, negative: bool)
    requires WellFormed(sp) && sp.digits != []
    ensures ValidNumeral(Digits(negative, RadixBase(sp.radix), sp.digits))
  {
    forall i | 0 <= i < |sp.digits|
      ensures IsNumeralChar(sp.digits[i])
    {
      assert IsDigitOf(sp.digits[i], RadixBase(sp.radix));
    }
  }

  /** The source's own evaluation agrees when the leading weight fits the type. */
  lemma DecodeAsWrittenSpelling(t: IntType, sp: Spelling)
    requires WellFormed(sp)
    requires sp.digits != [] ==>
               InRange(t, Signed(Negates(sp.lead), Pow(RadixBase(sp.radix), |sp.digits| - 1)))
    ensures DecodeAsWritten(t, Render(sp)) == Arith(t, Value(sp))
  {
    if sp.digits != [] {
      var n := Digits(Negates(sp.lead), RadixBase(sp.radix), sp.digits);
      SpellingNumeral(sp, Negates(sp.lead));
      EvaluateAsWrittenValue(t, n);
      SplitSpelling(sp, false);
      assert DecodeAsWritten(t, Render(sp)) == EvaluateAsWritten(t, n);
    } else {
      SplitSpelling(sp, false);
    }
  }
}
