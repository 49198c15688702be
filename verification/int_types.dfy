/** The enumeration's underlying integer type (`std::underlying_type_t`),
    and the fixed-width arithmetic the decoder performs in it. */
module IntTypes {
  import opened Base

  datatype Width = W8 | W16 | W32 | W64

  datatype IntType = IntType(width: Width, signed: bool)

  function Bits(w: Width): nat {
    match w
    case W8 => 8
    case W16 => 16
    case W32 => 32
    case W64 => 64
  }

  /** 2 to the power of the type's width. */
  function Modulus(t: IntType): int {
    match t.width
    case W8 => 0x100
    case W16 => 0x1_0000
    case W32 => 0x1_0000_0000
    case W64 => 0x1_0000_0000_0000_0000
  }

  /** `std::numeric_limits<Int>::min()` in two's complement. */
  function Min(t: IntType): int {
    if t.signed then -(Modulus(t) / 2) else 0
  }

  /** `std::numeric_limits<Int>::max()`. */
  function Max(t: IntType): int {
    if t.signed then Modulus(t) / 2 - 1 else Modulus(t) - 1
  }

  predicate InRange(t: IntType, x: int) {
    Min(t) <= x <= Max(t)
  }

  /** Whether an out-of-range result wraps silently. Unsigned types compute
      modulo 2^bits; `int8_t` and `int16_t` are promoted to `int`, so their
      arithmetic never overflows and narrowing back wraps (C++20). For signed
      32- and 64-bit types overflow is undefined, which makes the constant
      evaluation, and so the build, fail. */
  predicate Wraps(t: IntType) {
    !t.signed || Bits(t.width) < 32
  }

  /** Two's-complement truncation of `x` to the type: the value of the type
      congruent to `x` modulo 2^bits. */
  function Wrap(t: IntType, x: int): (r: int)
    ensures InRange(t, r)
    ensures r % Modulus(t) == x % Modulus(t)
    ensures InRange(t, x) ==> r == x
  {
    var m := x % Modulus(t);
    WrapInRange(t, x);
    if t.signed && m > Max(t) then m - Modulus(t) else m
  }

  /** An in-range value's remainder is the value itself, or the value plus
      the modulus when it is negative. */
  lemma WrapInRange(t: IntType, x: int)
    ensures 0 <= x % Modulus(t) < Modulus(t)
    ensures InRange(t, x) && x >= 0 ==> x % Modulus(t) == x
    ensures InRange(t, x) && x < 0 ==> x % Modulus(t) == x + Modulus(t)
    ensures (x % Modulus(t)) % Modulus(t) == x % Modulus(t)
    ensures (x % Modulus(t) - Modulus(t)) % Modulus(t) == x % Modulus(t)
  {
    var M := Modulus(t);
    var m := x % M;
    DivModUnique(m, 0, m, M);
    ModShift(m, -1, M);
    if InRange(t, x) {
      if x >= 0 {
        DivModUnique(x, 0, x, M);
      } else {
        DivModUnique(x, -1, x + M, M);
      }
    }
  }

  /** The value an arithmetic step of the decoder leaves in a variable of
      type `t`: the exact result when it fits, its wrapped value when the
      type wraps, and `Overflow` otherwise. */
  function Arith(t: IntType, x: int): (r: Result<int>)
    ensures r.Success? ==> InRange(t, r.value) && r.value % Modulus(t) == x % Modulus(t)
    ensures InRange(t, x) <==> r == Success(x)
    ensures r.Failure? <==> !Wraps(t) && !InRange(t, x)
    ensures r.Failure? ==> r.error == Overflow
  {
    if InRange(t, x) then Success(x)
    else if Wraps(t) then Success(Wrap(t, x))
    else Failure(Overflow)
  }

  /** Wrapping depends only on the residue modulo 2^bits. */
  lemma WrapCongruent(t: IntType, x: int, y: int)
    requires x % Modulus(t) == y % Modulus(t)
    ensures Wrap(t, x) == Wrap(t, y)
  {
  }

  /** `x * b + c` wraps like `y * b + c` whenever `x` and `y` wrap alike:
      the step each digit of a numeral applies to the running value. */
  lemma WrapStep(t: IntType, x: int, y: int, b: int, c: int)
    requires Wrap(t, x) == Wrap(t, y)
    ensures Wrap(t, x * b + c) == Wrap(t, y * b + c)
  {
    var m := Modulus(t);
    assert x % m == y % m;
    ModLinear(x, b, c, m);
    ModLinear(y, b, c, m);
  }

  /** Adding a wrapped summand wraps like adding the summand itself. */
  lemma WrapAdd(t: IntType, a: int, b: int)
    ensures Wrap(t, a + Wrap(t, b)) == Wrap(t, a + b)
  {
    WrapCongruent(t, Wrap(t, b), b);
    WrapStep(t, Wrap(t, b), b, 1, a);
  }

  /** `(x * b + c) % m` depends on `x` only through `x % m`. */
  lemma ModLinear(x: int, b: int, c: int, m: int)
    requires m > 0
    ensures (x * b + c) % m == ((x % m) * b + c) % m
  {
    var q, r := x / m, x % m;
    assert x == q * m + r;
    calc {
      x * b + c;
      (q * m + r) * b + c;
      (q * b) * m + (r * b + c);
    }
    ModShift(r * b + c, q * b, m);
  }

  lemma ModShift(z: int, k: int, m: int)
    requires m > 0
    ensures (k * m + z) % m == z % m
  {
    var q, r := z / m, z % m;
    assert z == q * m + r;
    assert k * m + z == (k + q) * m + r;
    DivModUnique(k * m + z, k + q, r, m);
  }

  /** Euclidean division has a unique quotient and remainder. */
  lemma DivModUnique(y: int, a: int, r: int, m: int)
    requires m > 0 && 0 <= r < m && y == a * m + r
    ensures y / m == a && y % m == r
  {
    var a', r' := y / m, y % m;
    assert y == a' * m + r';
    assert (a - a') * m == r' - r;
    if a' < a {
      MulAtLeast(a - a', m);
    } else if a < a' {
      MulAtLeast(a' - a, m);
    }
  }

  lemma {:induction false} MulAtLeast(d: int, m: int)
    requires d >= 1 && m > 0
    ensures d * m >= m
  {
    if d > 1 {
      MulAtLeast(d - 1, m);
      assert d * m == (d - 1) * m + m;
    }
  }

  /** The range of every type contains 0 and is an interval, so a value
      between 0 and an in-range value is in range. */
  lemma InRangeBetween(t: IntType, x: int, y: int)
    requires InRange(t, x)
    requires 0 <= y <= x || x <= y <= 0
    ensures InRange(t, y)
  {
  }
}
