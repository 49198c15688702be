/** `decode_value`: the evaluator of an explicit enumerator value written as
    a C++ integer literal, possibly preceded by any number of signs and
    followed by an alphabetic suffix, in the enumeration's underlying type.

    The source does two things in one recursive function: it strips
    whitespace, signs, suffix and base prefix, and then it sums the digits
    with positional weights. The model splits these into `SplitLiteral`,
    which yields a `Numeral`, and an evaluation of that numeral. The digit
    sum is given twice: `EvaluateAsWritten` is the source's weighted sum,
    whose leading weight base^(len-1) can wrap or overflow when the literal
    has leading zeros, and `Evaluate` is the positional value the source
    evidently intends; `Decode` uses the latter. */
module Literal {
  import opened Base
  import opened Chars
  import opened IntTypes

  /** What is left of a literal once signs, suffix and base prefix are gone. */
  datatype Numeral =
    | Zero                                              // a lone `0`
    | Digits(negative: bool, base: nat, digits: string) // the digits after the prefix

  predicate ValidNumeral(n: Numeral) {
    n.Digits? ==>
      && n.digits != []
      && n.base in {2, 8, 10, 16}
      && forall i | 0 <= i < |n.digits| :: IsNumeralChar(n.digits[i])
  }

  /** Drops trailing whitespace (`find_last_not_of`). */
  function TrimEnd(v: string): (r: string)
    ensures |r| <= |v| && r == v[..|r|]
    ensures AllSpaces(v[|r|..])
    ensures r == [] || !IsSpace(r[|r| - 1])
  {
    if v != [] && IsSpace(v[|v| - 1]) then TrimEnd(v[..|v| - 1]) else v
  }

  /** The `trim` lambda: drops leading and trailing space, tab, CR and LF. */
  function Trim(v: string): (r: string)
    ensures |r| <= |v|
    ensures r == [] <==> AllSpaces(v)
    ensures r != [] ==> !IsSpace(r[0]) && !IsSpace(r[|r| - 1])
  {
    var start := FindFirst(v, c => !IsSpace(c));
    TrimEnd(v[start..])
  }

  /** The recursion on leading signs: trim, then a `-` flips `negative` and a
      `+` keeps it, and the rest is decoded again. */
  function SplitLiteral(v: string, negative: bool): (r: Result<Numeral>)
    ensures r.Success? ==> ValidNumeral(r.value)
    ensures r.Failure? ==> r.error in {EmptyValue, BadSuffix, NotNumeric, UnknownBase, NoDigits}
    decreases |v|
  {
    var w := Trim(v);
    if w == [] then Failure(EmptyValue)
    else if w[0] == '-' then SplitLiteral(w[1..], !negative)
    else if w[0] == '+' then SplitLiteral(w[1..], negative)
    else SplitUnsigned(w, negative)
  }

  /** A trimmed literal that does not start with a sign: cut the suffix at
      the first character outside "0123456789abcdefABCDEFxX", check it is
      all letters, check the numeral starts with a decimal digit, and read
      the base from the prefix. */
  function SplitUnsigned(w: string, negative: bool): (r: Result<Numeral>)
    ensures r.Success? ==> ValidNumeral(r.value)
    ensures r.Failure? ==> r.error in {BadSuffix, NotNumeric, UnknownBase, NoDigits}
  {
    var n := FindFirst(w, c => !IsNumeralChar(c));
    if !AllLetters(w[n..]) then Failure(BadSuffix)
    else
      var num := w[..n];
      assert forall i | 0 <= i < |num| :: IsNumeralChar(num[i]);
      if num == [] || !IsDecimalDigit(num[0]) then Failure(NotNumeric)
      else if num[0] != '0' then Success(Digits(negative, 10, num))
      else if |num| == 1 then Success(Zero)
      else if num[1] == 'x' || num[1] == 'X' then AfterPrefix(negative, 16, num[2..])
      else if num[1] == 'b' || num[1] == 'B' then AfterPrefix(negative, 2, num[2..])
      else if !IsDecimalDigit(num[1]) then Failure(UnknownBase)
      else Success(Digits(negative, 8, num[1..]))
  }

  /** The digits after a `0x` or `0b` prefix. With none, the source's loop
      bound `value.size() - 1` wraps around, so the constant evaluation
      cannot complete; the model reports that as `NoDigits`. */
  function AfterPrefix(negative: bool, base: nat, ds: string): (r: Result<Numeral>)
    ensures r.Success? <==> ds != []
    ensures r.Success? ==> r.value == Digits(negative, base, ds)
  {
    if ds == [] then Failure(NoDigits) else Success(Digits(negative, base, ds))
  }

  /** The `get_value` lambda: lower-case letters are shifted to upper case,
      letters count from 10, everything else from '0'. It does not check the
      digit against the base, and gives 'x' the value 33. */
  function DigitValue(c: char): (d: int)
    ensures IsNumeralChar(c) ==> 0 <= d <= 33
    ensures IsDecimalDigit(c) ==> d == c as int - '0' as int
    ensures 'a' <= c <= 'f' ==> d == c as int - 'a' as int + 10
    ensures 'A' <= c <= 'F' ==> d == c as int - 'A' as int + 10
  {
    var u := if c >= 'a' then c as int - 0x20 else c as int;
    if u >= 'A' as int then u - 'A' as int + 10 else u - '0' as int
  }

  /** Whether the type's arithmetic is done in `int` after promotion, so
      that an intermediate product is not narrowed. */
  predicate Promoted(t: IntType) {
    Bits(t.width) < 32
  }

  /** A product that the source does not store back into the type: exact
      after promotion, fixed-width otherwise. */
  function Product(t: IntType, x: int): Result<int> {
    if Promoted(t) then Success(x) else Arith(t, x)
  }

  /** C++ integer division, which truncates toward zero. */
  function TruncDiv(a: int, b: nat): (r: int)
    requires b > 0
    ensures 0 <= a ==> 0 <= r <= a
    ensures a < 0 ==> a <= r <= 0
  {
    if a >= 0 then DivBound(a, b); a / b else DivBound(-a, b); -((-a) / b)
  }

  /** `TruncDiv` rounds toward zero: the quotient times the divisor is the
      multiple of `b` nearest to `a` on the side of zero. */
  lemma TruncDivRounds(a: int, b: nat)
    requires b > 0
    ensures var r := TruncDiv(a, b);
            && (0 <= a ==> r * b <= a < r * b + b)
            && (a < 0 ==> r * b - b < a <= r * b)
  {
    var n := if a >= 0 then a else -a;
    var q := n / b;
    assert n == q * b + n % b && 0 <= n % b < b;
    if a < 0 {
      assert TruncDiv(a, b) * b == -(q * b);
    }
  }

  lemma DivBound(a: nat, b: nat)
    requires b > 0
    ensures 0 <= a / b <= a
  {
    var q := a / b;
    assert a == q * b + a % b;
    if q > a {
      MulAtLeast(b, q);
    }
  }

  /** `for (i < value.size() - 1) multiplier *= base`: k multiplications,
      each stored back into the type. */
  function Scale(t: IntType, m: int, base: nat, k: nat): (r: Result<int>)
    requires InRange(t, m)
    ensures r.Success? ==> InRange(t, r.value)
    ensures r.Failure? ==> r.error == Overflow
    decreases k
  {
    if k == 0 then Success(m)
    else
      var m' :- Arith(t, m * base);
      Scale(t, m', base, k - 1)
  }

  /** `for (c : value) { ret += get_value(c) * multiplier; multiplier /= base; }` */
  function Weighted(t: IntType, base: nat, ds: string, m: int, acc: int): (r: Result<int>)
    requires base > 0 && InRange(t, m) && InRange(t, acc)
    ensures r.Success? ==> InRange(t, r.value)
    ensures r.Failure? ==> r.error == Overflow
    decreases |ds|
  {
    if ds == [] then Success(acc)
    else
      var p :- Product(t, DigitValue(ds[0]) * m);
      var a :- Arith(t, acc + p);
      var m' := TruncDiv(m, base);
      InRangeBetween(t, m, m');
      Weighted(t, base, ds[1..], m', a)
  }

  /** The source's digit sum: the multiplier starts at +1 or -1 converted to
      the type, is scaled to base^(len-1), and each digit adds its value
      times the multiplier, which is then divided by the base. */
  function EvaluateAsWritten(t: IntType, n: Numeral): (r: Result<int>)
    requires ValidNumeral(n)
    ensures r.Success? ==> InRange(t, r.value)
    ensures r.Failure? ==> r.error == Overflow
  {
    match n
    case Zero => Success(0)
    case Digits(negative, base, ds) =>
      var m :- Scale(t, Wrap(t, if negative then -1 else 1), base, |ds| - 1);
      Weighted(t, base, ds, m, 0)
  }

  /** The positional value of the digits, accumulated most significant digit
      first; each partial value lies between 0 and the final one, so it
      overflows exactly when the final value does. */
  function Horner(t: IntType, base: nat, negative: bool, ds: string, acc: int): (r: Result<int>)
    requires InRange(t, acc)
    ensures r.Success? ==> InRange(t, r.value)
    ensures r.Failure? ==> r.error == Overflow
    decreases |ds|
  {
    if ds == [] then Success(acc)
    else
      var d := DigitValue(ds[0]);
      var a :- Arith(t, acc * base + (if negative then -d else d));
      Horner(t, base, negative, ds[1..], a)
  }

  /** The evidently intended value of a numeral: its signed positional value
      in the type. */
  function Evaluate(t: IntType, n: Numeral): (r: Result<int>)
    requires ValidNumeral(n)
    ensures r.Success? ==> InRange(t, r.value)
    ensures r.Failure? ==> r.error == Overflow
  {
    match n
    case Zero => Success(0)
    case Digits(negative, base, ds) => Horner(t, base, negative, ds, 0)
  }

  /** `decode_value<Int>(value, false)` with the digit sum corrected. */
  function Decode(t: IntType, v: string): (r: Result<int>)
    ensures r.Success? ==> InRange(t, r.value)
    ensures r.Failure? ==> r.error in {EmptyValue, BadSuffix, NotNumeric, UnknownBase, NoDigits, Overflow}
  {
    var n :- SplitLiteral(v, false);
    Evaluate(t, n)
  }

  /** `decode_value<Int>(value, false)` as the source writes it. */
  function DecodeAsWritten(t: IntType, v: string): (r: Result<int>)
    ensures r.Success? ==> InRange(t, r.value)
    ensures r.Failure? ==> r.error in {EmptyValue, BadSuffix, NotNumeric, UnknownBase, NoDigits, Overflow}
  {
    var n :- SplitLiteral(v, false);
    EvaluateAsWritten(t, n)
  }

  /** Which digit sum the decoder uses: the source's, whose weights start
      at base^(len-1) (`AsWritten`), or the corrected one that accumulates
      the digits most significant first (`Corrected`). */
  datatype DigitSum = AsWritten | Corrected

  /** `decode_value<Int>(value, false)` with the chosen digit sum. */
  function DecodeWith(sum: DigitSum, t: IntType, v: string): (r: Result<int>)
    ensures r.Success? ==> InRange(t, r.value)
    ensures r.Failure? ==> r.error in {EmptyValue, BadSuffix, NotNumeric, UnknownBase, NoDigits, Overflow}
  {
    match sum
    case AsWritten => DecodeAsWritten(t, v)
    case Corrected => Decode(t, v)
  }
}
