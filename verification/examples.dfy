/** Concrete instances of the general results, taken from the repository's
    compile-time tests: literals in every base with signs and suffixes, the
    limits of the fixed-width types, enumerator lists with and without
    explicit values, and the leading-zero literal on which the source's
    digit sum goes wrong. */
module Examples {
  import opened Base
  import opened IntTypes
  import opened Literal
  import opened LiteralProofs
  import opened Count
  import opened Parser
  import opened ParserProofs
  import opened Tables
  import opened Reflection

  const Int8 := IntType(W8, true)
  const UInt8 := IntType(W8, false)
  const Int32 := IntType(W32, true)
  const UInt64 := IntType(W64, false)

  // ---------------------------------------------------------------------
  // Digit strings

  lemma Hex1234()
    ensures PosValue("1234", 16) == 0x1234
  {
    PosValueSnoc("", '1', 16);
    PosValueSnoc("1", '2', 16);
    PosValueSnoc("12", '3', 16);
    PosValueSnoc("123", '4', 16);
  }

  lemma Oct1234()
    ensures PosValue("1234", 8) == 668
  {
    PosValueSnoc("", '1', 8);
    PosValueSnoc("1", '2', 8);
    PosValueSnoc("12", '3', 8);
    PosValueSnoc("123", '4', 8);
  }

  lemma Bin1010()
    ensures PosValue("1010", 2) == 10
  {
    PosValueSnoc("", '1', 2);
    PosValueSnoc("1", '0', 2);
    PosValueSnoc("10", '1', 2);
    PosValueSnoc("101", '0', 2);
  }

  lemma Dec10()
    ensures PosValue("10", 10) == 10
  {
    PosValueSnoc("", '1', 10);
    PosValueSnoc("1", '0', 10);
  }

  lemma HexFF()
    ensures PosValue("ff", 16) == 255
  {
    PosValueSnoc("", 'f', 16);
    PosValueSnoc("f", 'f', 16);
  }

  lemma Oct377()
    ensures PosValue("377", 8) == 255
  {
    PosValueSnoc("", '3', 8);
    PosValueSnoc("3", '7', 8);
    PosValueSnoc("37", '7', 8);
  }

  lemma Hex7F()
    ensures PosValue("7f", 16) == 127
  {
    PosValueSnoc("", '7', 16);
    PosValueSnoc("7", 'f', 16);
  }

  lemma Hex80()
    ensures PosValue("80", 16) == 128
  {
    PosValueSnoc("", '8', 16);
    PosValueSnoc("8", '0', 16);
  }

  lemma Oct177()
    ensures PosValue("177", 8) == 127
  {
    PosValueSnoc("", '1', 8);
    PosValueSnoc("1", '7', 8);
    PosValueSnoc("17", '7', 8);
  }

  lemma Oct200()
    ensures PosValue("200", 8) == 128
  {
    PosValueSnoc("", '2', 8);
    PosValueSnoc("2", '0', 8);
    PosValueSnoc("20", '0', 8);
  }

  lemma Hex0FF()
    ensures PosValue("0ff", 16) == 255
  {
    PosValueSnoc("", '0', 16);
    PosValueSnoc("0", 'f', 16);
    PosValueSnoc("0f", 'f', 16);
  }

  lemma Hex7FFFFFFF()
    ensures PosValue("7fffffff", 16) == 0x7fff_ffff
  {
    PosValueSnoc("", '7', 16);
    PosValueSnoc("7", 'f', 16);
    PosValueSnoc("7f", 'f', 16);
    PosValueSnoc("7ff", 'f', 16);
    PosValueSnoc("7fff", 'f', 16);
    PosValueSnoc("7ffff", 'f', 16);
    PosValueSnoc("7fffff", 'f', 16);
    PosValueSnoc("7ffffff", 'f', 16);
  }

  lemma Hex80000000()
    ensures PosValue("80000000", 16) == 0x8000_0000
  {
    PosValueSnoc("", '8', 16);
    PosValueSnoc("8", '0', 16);
    PosValueSnoc("80", '0', 16);
    PosValueSnoc("800", '0', 16);
    PosValueSnoc("8000", '0', 16);
    PosValueSnoc("80000", '0', 16);
    PosValueSnoc("800000", '0', 16);
    PosValueSnoc("8000000", '0', 16);
  }

  lemma Hex16F()
    ensures PosValue("ffffffffffffffff", 16) == 0xffff_ffff_ffff_ffff
  {
    PosValueSnoc("", 'f', 16);
    assert PosValue("f", 16) == 15;
    PosValueSnoc("f", 'f', 16);
    assert PosValue("ff", 16) == 255;
    PosValueSnoc("ff", 'f', 16);
    assert PosValue("fff", 16) == 4095;
    PosValueSnoc("fff", 'f', 16);
    assert PosValue("ffff", 16) == 65535;
    PosValueSnoc("ffff", 'f', 16);
    assert PosValue("fffff", 16) == 1048575;
    PosValueSnoc("fffff", 'f', 16);
    assert PosValue("ffffff", 16) == 16777215;
    PosValueSnoc("ffffff", 'f', 16);
    assert PosValue("fffffff", 16) == 268435455;
    PosValueSnoc("fffffff", 'f', 16);
    assert PosValue("ffffffff", 16) == 4294967295;
    PosValueSnoc("ffffffff", 'f', 16);
    assert PosValue("fffffffff", 16) == 68719476735;
    PosValueSnoc("fffffffff", 'f', 16);
    assert PosValue("ffffffffff", 16) == 1099511627775;
    PosValueSnoc("ffffffffff", 'f', 16);
    assert PosValue("fffffffffff", 16) == 17592186044415;
    PosValueSnoc("fffffffffff", 'f', 16);
    assert PosValue("ffffffffffff", 16) == 281474976710655;
    PosValueSnoc("ffffffffffff", 'f', 16);
    assert PosValue("fffffffffffff", 16) == 4503599627370495;
    PosValueSnoc("fffffffffffff", 'f', 16);
    assert PosValue("ffffffffffffff", 16) == 72057594037927935;
    PosValueSnoc("ffffffffffffff", 'f', 16);
    assert PosValue("fffffffffffffff", 16) == 1152921504606846975;
    PosValueSnoc("fffffffffffffff", 'f', 16);
    assert PosValue("ffffffffffffffff", 16) == 18446744073709551615;
  }

  // ---------------------------------------------------------------------
  // Literals

  /** A well-formed literal whose value the type holds decodes to it. */
  lemma DecodeAs(t: IntType, sp: Spelling, text: string, v: int)
    requires WellFormed(sp) && LiteralProofs.Render(sp) == text && Value(sp) == v && InRange(t, v)
    ensures Decode(t, text) == Success(v)
  {
    DecodeSpelling(t, sp);
  }

  /** The same for the source's digit sum, when the leading weight fits. */
  lemma DecodeAsWrittenAs(t: IntType, sp: Spelling, text: string, v: int)
    requires WellFormed(sp) && LiteralProofs.Render(sp) == text && Value(sp) == v && InRange(t, v)
    requires sp.digits != [] ==>
               InRange(t, Signed(Negates(sp.lead), Pow(RadixBase(sp.radix), |sp.digits| - 1)))
    ensures Decode(t, text) == Success(v) && DecodeAsWritten(t, text) == Success(v)
  {
    DecodeSpelling(t, sp);
    DecodeAsWrittenSpelling(t, sp);
  }

  lemma IntHex()
    ensures Decode(Int32, "0x1234") == Success(0x1234)
    ensures DecodeAsWritten(Int32, "0x1234") == Success(0x1234)
  {
    var sp := Spelling("", Hex(false), "1234", "", "");
    assert LiteralProofs.Render(sp) == "0x1234";
    assert WellFormed(sp);
    Hex1234();
    assert Value(sp) == 0x1234;
    assert Pow(16, 3) == 4096;
    DecodeAsWrittenAs(Int32, sp, "0x1234", 0x1234);
  }

  lemma IntOctal()
    ensures Decode(Int32, "01234") == Success(668)
    ensures DecodeAsWritten(Int32, "01234") == Success(668)
  {
    var sp := Spelling("", Octal, "1234", "", "");
    assert LiteralProofs.Render(sp) == "01234";
    assert WellFormed(sp);
    Oct1234();
    assert Value(sp) == 668;
    assert Pow(8, 3) == 512;
    DecodeAsWrittenAs(Int32, sp, "01234", 668);
  }

  lemma IntBinary()
    ensures Decode(Int32, "0b1010") == Success(10)
    ensures DecodeAsWritten(Int32, "0b1010") == Success(10)
  {
    var sp := Spelling("", Binary(false), "1010", "", "");
    assert LiteralProofs.Render(sp) == "0b1010";
    assert WellFormed(sp);
    Bin1010();
    assert Value(sp) == 10;
    assert Pow(2, 3) == 8;
    DecodeAsWrittenAs(Int32, sp, "0b1010", 10);
  }

  lemma IntNegativeHex()
    ensures Decode(Int32, "-0x1234l") == Success(-0x1234)
    ensures DecodeAsWritten(Int32, "-0x1234l") == Success(-0x1234)
  {
    var sp := Spelling("-", Hex(false), "1234", "l", "");
    assert LiteralProofs.Render(sp) == "-0x1234l";
    assert WellFormed(sp);
    Hex1234();
    assert Value(sp) == -0x1234;
    assert Pow(16, 3) == 4096;
    DecodeAsWrittenAs(Int32, sp, "-0x1234l", -0x1234);
  }

  lemma IntPlusOctal()
    ensures Decode(Int32, "+01234ul") == Success(668)
    ensures DecodeAsWritten(Int32, "+01234ul") == Success(668)
  {
    var sp := Spelling("+", Octal, "1234", "ul", "");
    assert LiteralProofs.Render(sp) == "+01234ul";
    assert WellFormed(sp);
    Oct1234();
    assert Value(sp) == 668;
    assert Pow(8, 3) == 512;
    DecodeAsWrittenAs(Int32, sp, "+01234ul", 668);
  }

  /** The test of `src/main.cpp:89` reaches the decoder without its `+`:
      the scanner starts the value at the first identifier character. */
  lemma IntOctalSuffix()
    ensures Decode(Int32, "01234ul") == Success(668)
    ensures DecodeAsWritten(Int32, "01234ul") == Success(668)
  {
    var sp := Spelling("", Octal, "1234", "ul", "");
    assert LiteralProofs.Render(sp) == "01234ul";
    assert WellFormed(sp);
    Oct1234();
    assert Value(sp) == 668;
    assert Pow(8, 3) == 512;
    DecodeAsWrittenAs(Int32, sp, "01234ul", 668);
  }

  lemma IntNegativeBinary()
    ensures Decode(Int32, "-0b1010ll") == Success(-10)
    ensures DecodeAsWritten(Int32, "-0b1010ll") == Success(-10)
  {
    var sp := Spelling("-", Binary(false), "1010", "ll", "");
    assert LiteralProofs.Render(sp) == "-0b1010ll";
    assert WellFormed(sp);
    Bin1010();
    assert Value(sp) == -10;
    assert Pow(2, 3) == 8;
    DecodeAsWrittenAs(Int32, sp, "-0b1010ll", -10);
  }

  lemma UInt8HexMax()
    ensures Decode(UInt8, "0xff") == Success(255)
    ensures DecodeAsWritten(UInt8, "0xff") == Success(255)
  {
    var sp := Spelling("", Hex(false), "ff", "", "");
    assert LiteralProofs.Render(sp) == "0xff";
    assert WellFormed(sp);
    HexFF();
    assert Value(sp) == 255;
    DecodeAsWrittenAs(UInt8, sp, "0xff", 255);
  }

  lemma UInt8OctalMax()
    ensures Decode(UInt8, "0377") == Success(255)
    ensures DecodeAsWritten(UInt8, "0377") == Success(255)
  {
    var sp := Spelling("", Octal, "377", "", "");
    assert LiteralProofs.Render(sp) == "0377";
    assert WellFormed(sp);
    Oct377();
    assert Value(sp) == 255;
    DecodeAsWrittenAs(UInt8, sp, "0377", 255);
  }

  lemma Int8HexMax()
    ensures Decode(Int8, "0x7f") == Success(127)
    ensures DecodeAsWritten(Int8, "0x7f") == Success(127)
  {
    var sp := Spelling("", Hex(false), "7f", "", "");
    assert LiteralProofs.Render(sp) == "0x7f";
    assert WellFormed(sp);
    Hex7F();
    assert Value(sp) == 127;
    DecodeAsWrittenAs(Int8, sp, "0x7f", 127);
  }

  lemma Int8HexMin()
    ensures Decode(Int8, "-0x80") == Success(-128)
    ensures DecodeAsWritten(Int8, "-0x80") == Success(-128)
  {
    var sp := Spelling("-", Hex(false), "80", "", "");
    assert LiteralProofs.Render(sp) == "-0x80";
    assert WellFormed(sp);
    Hex80();
    assert Value(sp) == -128;
    DecodeAsWrittenAs(Int8, sp, "-0x80", -128);
  }

  lemma Int8OctalMax()
    ensures Decode(Int8, "0177") == Success(127)
    ensures DecodeAsWritten(Int8, "0177") == Success(127)
  {
    var sp := Spelling("", Octal, "177", "", "");
    assert LiteralProofs.Render(sp) == "0177";
    assert WellFormed(sp);
    Oct177();
    assert Value(sp) == 127;
    DecodeAsWrittenAs(Int8, sp, "0177", 127);
  }

  lemma Int8OctalMin()
    ensures Decode(Int8, "-0200") == Success(-128)
    ensures DecodeAsWritten(Int8, "-0200") == Success(-128)
  {
    var sp := Spelling("-", Octal, "200", "", "");
    assert LiteralProofs.Render(sp) == "-0200";
    assert WellFormed(sp);
    Oct200();
    assert Value(sp) == -128;
    DecodeAsWrittenAs(Int8, sp, "-0200", -128);
  }

  const Int32MaxSpelling := Spelling("", Hex(false), "7fffffff", "", "")
  const Int32MinSpelling := Spelling("-", Hex(false), "80000000", "l", "")

  lemma Int32MaxParts()
    ensures LiteralProofs.Render(Int32MaxSpelling) == "0x7fffffff"
    ensures WellFormed(Int32MaxSpelling)
  {
  }

  lemma Int32MinParts()
    ensures LiteralProofs.Render(Int32MinSpelling) == "-0x80000000l"
    ensures WellFormed(Int32MinSpelling)
  {
  }

  lemma Int32HexMax()
    ensures Decode(Int32, "0x7fffffff") == Success(Max(Int32))
    ensures DecodeAsWritten(Int32, "0x7fffffff") == Success(Max(Int32))
  {
    Int32MaxParts();
    Hex7FFFFFFF();
    assert Pow(16, 7) == 268435456;
    DecodeAsWrittenAs(Int32, Int32MaxSpelling, "0x7fffffff", Max(Int32));
  }

  lemma Int32HexMin()
    ensures Decode(Int32, "-0x80000000l") == Success(Min(Int32))
    ensures DecodeAsWritten(Int32, "-0x80000000l") == Success(Min(Int32))
  {
    Int32MinParts();
    Hex80000000();
    assert Pow(16, 7) == 268435456;
    DecodeAsWrittenAs(Int32, Int32MinSpelling, "-0x80000000l", Min(Int32));
  }

  const UInt64MaxSpelling := Spelling("", Hex(false), "ffffffffffffffff", "ull", "")

  lemma UInt64MaxWellFormed()
    ensures WellFormed(UInt64MaxSpelling)
  {
  }

  lemma UInt64MaxValue()
    ensures Value(UInt64MaxSpelling) == 0xffff_ffff_ffff_ffff
  {
    Hex16F();
    UnsignedHexValue(UInt64MaxSpelling, 0xffff_ffff_ffff_ffff);
  }

  /** An unsigned hexadecimal spelling has the value of its digits. */
  lemma UnsignedHexValue(sp: Spelling, v: int)
    requires sp.lead == "" && sp.radix.Hex? && PosValue(sp.digits, 16) == v
    ensures Value(sp) == v
  {
  }

  /** `0xffffffffffffffffull`: the largest `uint64_t`. */
  const UInt64MaxText := "0xffffffffffffffffull"

  lemma UInt64MaxRender()
    ensures LiteralProofs.Render(UInt64MaxSpelling) == UInt64MaxText
  {
  }

  /** The leading weight of a sixteen-digit hexadecimal literal. */
  lemma SixteenToFifteen()
    ensures Pow(16, 15) == 0x1000_0000_0000_0000
  {
    assert Pow(16, 7) == 268435456;
  }

  lemma UInt64MaxLead()
    ensures var sp := UInt64MaxSpelling;
            InRange(UInt64, Signed(Negates(sp.lead), Pow(RadixBase(sp.radix), |sp.digits| - 1)))
  {
    SixteenToFifteen();
  }

  lemma UInt64HexMax()
    ensures Decode(UInt64, UInt64MaxText) == Success(Max(UInt64))
    ensures DecodeAsWritten(UInt64, UInt64MaxText) == Success(Max(UInt64))
  {
    UInt64MaxRender();
    UInt64MaxWellFormed();
    UInt64MaxValue();
    UInt64MaxLead();
    DecodeAsWrittenAs(UInt64, UInt64MaxSpelling, UInt64MaxText, Max(UInt64));
  }

  // ---------------------------------------------------------------------
  // Leading zeros

  /** The source's evaluation of a well-formed literal is that of the
      numeral it is split into. */
  lemma DecodeAsWrittenVia(t: IntType, sp: Spelling, text: string, r: Result<int>)
    requires WellFormed(sp) && LiteralProofs.Render(sp) == text && sp.digits != []
    requires EvaluateAsWritten(t, Digits(Negates(sp.lead), RadixBase(sp.radix), sp.digits)) == r
    ensures DecodeAsWritten(t, text) == r
  {
    SplitSpelling(sp, false);
  }

  /** One multiplication of the multiplier that stays in range. */
  lemma ScaleOn(t: IntType, m: int, base: nat, k: nat)
    requires InRange(t, m) && InRange(t, m * base)
    ensures Scale(t, m, base, k + 1) == Scale(t, m * base, base, k)
  {
  }

  /** One multiplication of the multiplier that leaves the range of a type
      that does not wrap. */
  lemma ScaleOff(t: IntType, m: int, base: nat, k: nat)
    requires InRange(t, m) && !InRange(t, m * base) && !Wraps(t)
    ensures Scale(t, m, base, k + 1) == Failure(Overflow)
  {
  }

  /** `0x0ff` in `uint8_t`: the source scales the multiplier to 16^2, which
      wraps to 0, so every digit is weighted by 0 and the sum is 0; the
      literal's value is 255. */
  const PaddedMax := Spelling("", Hex(false), "0ff", "", "")

  /** `0x0ff`: the largest `uint8_t` written with one leading zero. */
  const PaddedMaxText := "0x0ff"

  lemma PaddedMaxParts()
    ensures WellFormed(PaddedMax) && LiteralProofs.Render(PaddedMax) == PaddedMaxText
    ensures Value(PaddedMax) == 255
  {
    Hex0FF();
  }

  lemma LeadingZeroWraps()
    ensures DecodeAsWritten(UInt8, PaddedMaxText) == Success(0)
    ensures Decode(UInt8, PaddedMaxText) == Success(255)
  {
    PaddedMaxAsWritten();
    PaddedMaxDecode();
  }

  lemma PaddedMaxAsWritten()
    ensures DecodeAsWritten(UInt8, PaddedMaxText) == Success(0)
  {
    PaddedMaxParts();
    WrappedWeight();
    DecodeAsWrittenVia(UInt8, PaddedMax, PaddedMaxText, Success(0));
  }

  lemma PaddedMaxDecode()
    ensures Decode(UInt8, PaddedMaxText) == Success(255)
  {
    PaddedMaxParts();
    DecodeAs(UInt8, PaddedMax, PaddedMaxText, 255);
  }

  lemma WrappedWeight()
    ensures EvaluateAsWritten(UInt8, Digits(false, 16, "0ff")) == Success(0)
  {
    assert Wrap(UInt8, 1) == 1;
    assert Scale(UInt8, 1, 16, 2) == Success(0) by {
      ScaleOn(UInt8, 1, 16, 1);
      assert Arith(UInt8, 256) == Success(0);
    }
    WeightedZero(UInt8, 16, "0ff", 0);
  }

  const PaddedOne := Spelling("", Hex(false), "000000001", "", "")

  /** `0x000000001`: the value 1 written with eight leading zeros. */
  const PaddedOneText := "0x000000001"

  lemma PaddedOneWellFormed()
    ensures WellFormed(PaddedOne)
  {
  }

  lemma PaddedOneRender()
    ensures LiteralProofs.Render(PaddedOne) == PaddedOneText
  {
  }

  lemma PaddedOneValue()
    ensures Value(PaddedOne) == 1
  {
    ZerosThenOne();
  }

  lemma PaddedOneParts()
    ensures WellFormed(PaddedOne) && LiteralProofs.Render(PaddedOne) == PaddedOneText
    ensures Value(PaddedOne) == 1
  {
    PaddedOneWellFormed();
    PaddedOneRender();
    PaddedOneValue();
  }

  /** `0x000000001` in `int`: the multiplier 16^8 overflows, which is
      undefined behaviour and so a compile error, though the value is 1. */
  lemma LeadingZeroOverflows()
    ensures DecodeAsWritten(Int32, PaddedOneText) == Failure(Overflow)
    ensures Decode(Int32, PaddedOneText) == Success(1)
  {
    PaddedOneAsWritten();
    PaddedOneDecode();
  }

  lemma PaddedOneAsWritten()
    ensures DecodeAsWritten(Int32, PaddedOneText) == Failure(Overflow)
  {
    PaddedOneParts();
    OverflowingWeight();
    DecodeAsWrittenVia(Int32, PaddedOne, PaddedOneText, Failure(Overflow));
  }

  lemma PaddedOneDecode()
    ensures Decode(Int32, PaddedOneText) == Success(1)
  {
    PaddedOneParts();
    DecodeAs(Int32, PaddedOne, PaddedOneText, 1);
  }

  lemma OverflowingWeight()
    ensures EvaluateAsWritten(Int32, Digits(false, 16, "000000001")) == Failure(Overflow)
  {
    assert Wrap(Int32, 1) == 1;
    ScaleOff(Int32, 0x1000_0000, 16, 0);
    ScaleOn(Int32, 0x100_0000, 16, 1);
    ScaleOn(Int32, 0x10_0000, 16, 2);
    ScaleOn(Int32, 0x1_0000, 16, 3);
    ScaleOn(Int32, 0x1000, 16, 4);
    ScaleOn(Int32, 0x100, 16, 5);
    ScaleOn(Int32, 0x10, 16, 6);
    ScaleOn(Int32, 1, 16, 7);
  }

  lemma ZerosThenOne()
    ensures PosValue("000000001", 16) == 1
  {
    LeadingZeros("00000000", "1", 16);
    assert "00000000" + "1" == "000000001";
    PosValueSnoc("", '1', 16);
  }

  // ---------------------------------------------------------------------
  // Enumerator lists

  lemma DecodeTen()
    ensures Decode(Int32, "10") == Success(10)
    ensures DecodeAsWritten(Int32, "10") == Success(10)
  {
    var sp := Spelling("", Decimal, "10", "", "");
    assert LiteralProofs.Render(sp) == "10";
    assert WellFormed(sp);
    Dec10();
    assert Pow(10, 1) == 10;
    DecodeAsWrittenAs(Int32, sp, "10", 10);
  }

  /** `VAL1 = 10, VAL2, VAL3,`: the list of the first test enumeration
      with an explicit value. */
  const TenThenImplicitText := "VAL1 = 10, VAL2, VAL3,"

  const TenThenImplicit := [Decl("VAL1", Some("10")), Decl("VAL2", None), Decl("VAL3", None)]

  lemma TenThenImplicitWritten()
    ensures ParserProofs.Render(TenThenImplicit) + [','] + "" == TenThenImplicitText
    ensures WellWritten(TenThenImplicit)
  {
    var ds := TenThenImplicit;
    assert ds[1..][1..] == [ds[2]];
    assert ParserProofs.Render(ds[1..]) == "VAL2, VAL3";
  }

  lemma TenThenImplicitDecodes(sum: DigitSum)
    ensures AllDecode(sum, Int32, TenThenImplicit)
  {
    var ds := TenThenImplicit;
    forall i | 0 <= i < |ds| && ds[i].text.Some?
      ensures DecodeWith(sum, Int32, ds[i].text.value).Success?
    {
      assert i == 0 && ds[i].text.value == "10";
      DecodeTen();
    }
  }

  /** The entries the implicit-value rule gives the declarations. */
  lemma TenThenImplicitEntries(sum: DigitSum, es: seq<Entry>)
    requires ImplicitRule(sum, Int32, TenThenImplicit, es, 0)
    ensures es == [Entry(10, "VAL1"), Entry(11, "VAL2"), Entry(12, "VAL3")]
  {
    TenThenImplicitValues(sum, es);
  }

  lemma TenThenImplicitValues(sum: DigitSum, es: seq<Entry>)
    requires ImplicitRule(sum, Int32, TenThenImplicit, es, 0)
    ensures |es| == 3 && es[0] == Entry(10, "VAL1") && es[1] == Entry(11, "VAL2") && es[2] == Entry(12, "VAL3")
  {
    DecodeWithTen(sum);
    ExplicitThenTwo(sum, Int32, TenThenImplicit, es, 10);
  }

  /** An explicit value followed by two implicit ones that stay below the
      maximum: the two count on by one. */
  lemma ExplicitThenTwo(sum: DigitSum, t: IntType, ds: seq<Decl>, es: seq<Entry>, v: int)
    requires ImplicitRule(sum, t, ds, es, 0) && |ds| == 3
    requires ds[0].text.Some? && DecodeWith(sum, t, ds[0].text.value) == Success(v)
    requires ds[1].text.None? && ds[2].text.None? && v + 2 <= Max(t)
    ensures es == [Entry(v, ds[0].name), Entry(v + 1, ds[1].name), Entry(v + 2, ds[2].name)]
  {
    EntryExplicit(sum, t, ds, es, 0, v);
    EntryImplicit(sum, t, ds, es, 1);
    EntryImplicit(sum, t, ds, es, 2);
  }

  /** An entry with an explicit value holds what its text decodes to. */
  lemma EntryExplicit(sum: DigitSum, t: IntType, ds: seq<Decl>, es: seq<Entry>, i: nat, v: int)
    requires ImplicitRule(sum, t, ds, es, 0) && i < |ds|
    requires ds[i].text.Some? && DecodeWith(sum, t, ds[i].text.value) == Success(v)
    ensures es[i] == Entry(v, ds[i].name)
  {
  }

  /** An entry without one holds the running counter. */
  lemma EntryImplicit(sum: DigitSum, t: IntType, ds: seq<Decl>, es: seq<Entry>, i: nat)
    requires ImplicitRule(sum, t, ds, es, 0) && i < |ds| && ds[i].text.None?
    ensures es[i] == Entry(CounterAt(t, es, 0, i), ds[i].name)
  {
  }

  lemma DecodeWithTen(sum: DigitSum)
    ensures DecodeWith(sum, Int32, "10") == Success(10)
  {
    DecodeTen();
  }

  /** A written-out list with a trailing comma whose values all decode
      parses by the implicit-value rule. */
  lemma ParseWritten(sum: DigitSum, t: IntType, ds: seq<Decl>, text: string)
    requires WellWritten(ds) && ds != [] && text == ParserProofs.Render(ds) + [','] + ""
    requires AllDecode(sum, t, ds)
    ensures EntryCount(text) == |ds|
    ensures Parse(sum, t, text, |ds|).Success? && ImplicitRule(sum, t, ds, Parse(sum, t, text, |ds|).value, 0)
  {
    ParseRenderTrailing(sum, t, ds, "");
  }

  /** An explicit value, then two entries that count on from it, with
      either digit sum. */
  lemma ParseTenThenImplicit(sum: DigitSum)
    ensures EntryCount(TenThenImplicitText) == 3
    ensures Parse(sum, Int32, TenThenImplicitText, 3)
         == Success([Entry(10, "VAL1"), Entry(11, "VAL2"), Entry(12, "VAL3")])
  {
    TenThenImplicitWritten();
    TenThenImplicitDecodes(sum);
    ParseWritten(sum, Int32, TenThenImplicit, TenThenImplicitText);
    TenThenImplicitEntries(sum, Parse(sum, Int32, TenThenImplicitText, 3).value);
  }

  /** Two explicit values and an implicit one that stays below the
      maximum: the implicit value is one past the second. */
  lemma TwoThenImplicit(sum: DigitSum, t: IntType, ds: seq<Decl>, es: seq<Entry>, v: int, w: int)
    requires ImplicitRule(sum, t, ds, es, 0) && |ds| == 3
    requires ds[0].text.Some? && DecodeWith(sum, t, ds[0].text.value) == Success(v)
    requires ds[1].text.Some? && DecodeWith(sum, t, ds[1].text.value) == Success(w)
    requires ds[2].text.None? && w + 1 <= Max(t)
    ensures es == [Entry(v, ds[0].name), Entry(w, ds[1].name), Entry(w + 1, ds[2].name)]
  {
    EntryExplicit(sum, t, ds, es, 0, v);
    EntryExplicit(sum, t, ds, es, 1, w);
    EntryImplicit(sum, t, ds, es, 2);
  }

  lemma DecodeMinusTen()
    ensures Decode(Int32, "-10") == Success(-10)
    ensures DecodeAsWritten(Int32, "-10") == Success(-10)
  {
    var sp := Spelling("-", Decimal, "10", "", "");
    assert LiteralProofs.Render(sp) == "-10";
    assert WellFormed(sp);
    Dec10();
    assert Value(sp) == -10;
    assert Pow(10, 1) == 10;
    DecodeAsWrittenAs(Int32, sp, "-10", -10);
  }

  lemma DecodeWithMinusTen(sum: DigitSum)
    ensures DecodeWith(sum, Int32, "-10") == Success(-10)
  {
    DecodeMinusTen();
  }

  /** `VAL1 = 10, VAL2 = -10, VAL3,`: `-` is an identifier character to the
      scanner, so the decoder is handed `-10`, and the implicit value counts
      on from it. */
  const TenMinusTenText := "VAL1 = 10, VAL2 = -10, VAL3,"

  const TenMinusTen := [Decl("VAL1", Some("10")), Decl("VAL2", Some("-10")), Decl("VAL3", None)]

  lemma TenMinusTenWritten()
    ensures ParserProofs.Render(TenMinusTen) + [','] + "" == TenMinusTenText
    ensures WellWritten(TenMinusTen)
  {
    TenMinusTenRendered();
    TenMinusTenWellWritten();
  }

  lemma TenMinusTenRendered()
    ensures ParserProofs.Render(TenMinusTen) + [','] + "" == TenMinusTenText
  {
    var ds := TenMinusTen;
    assert ds[1..][1..] == [ds[2]];
    assert ParserProofs.Render(ds[1..]) == "VAL2 = -10, VAL3";
  }

  lemma TenMinusTenWellWritten()
    ensures WellWritten(TenMinusTen)
  {
    var ds := TenMinusTen;
    assert ds[1..][1..] == [ds[2]];
    assert ds[1..][1..][1..] == [];
  }




  lemma TenMinusTenDecodes(sum: DigitSum)
    ensures AllDecode(sum, Int32, TenMinusTen)
  {
    var ds := TenMinusTen;
    forall i | 0 <= i < |ds| && ds[i].text.Some?
      ensures DecodeWith(sum, Int32, ds[i].text.value).Success?
    {
      if i == 0 {
        assert ds[i].text.value == "10";
        DecodeWithTen(sum);
      } else {
        assert i == 1 && ds[i].text.value == "-10";
        DecodeWithMinusTen(sum);
      }
    }
  }

  lemma TenMinusTenRule(sum: DigitSum, es: seq<Entry>)
    requires ImplicitRule(sum, Int32, TenMinusTen, es, 0)
    ensures es == [Entry(10, "VAL1"), Entry(-10, "VAL2"), Entry(-9, "VAL3")]
  {
    DecodeWithTen(sum);
    DecodeWithMinusTen(sum);
    TwoThenImplicit(sum, Int32, TenMinusTen, es, 10, -10);
  }

  /** A negative explicit value reaches the decoder with its sign. */
  lemma ParseTenMinusTen(sum: DigitSum)
    ensures EntryCount(TenMinusTenText) == 3
    ensures Parse(sum, Int32, TenMinusTenText, 3)
         == Success([Entry(10, "VAL1"), Entry(-10, "VAL2"), Entry(-9, "VAL3")])
  {
    TenMinusTenWritten();
    TenMinusTenDecodes(sum);
    ParseWritten(sum, Int32, TenMinusTen, TenMinusTenText);
    TenMinusTenRule(sum, Parse(sum, Int32, TenMinusTenText, 3).value);
  }

  lemma DecodeOne()
    ensures Decode(Int32, "1") == Success(1)
    ensures DecodeAsWritten(Int32, "1") == Success(1)
  {
    var sp := Spelling("", Decimal, "1", "", "");
    assert LiteralProofs.Render(sp) == "1";
    assert WellFormed(sp);
    assert PosValue("1", 10) == DigitValue('1') * Pow(10, 0) + PosValue([], 10);
    assert Pow(10, 0) == 1;
    DecodeAsWrittenAs(Int32, sp, "1", 1);
  }

  lemma DecodeWithOne(sum: DigitSum)
    ensures DecodeWith(sum, Int32, "1") == Success(1)
  {
    DecodeOne();
  }

  /** `VAL1 = 3, VAL2 = 2, VAL3 = 1,`: explicit values need not ascend; the
      entries keep the order of the list. */
  const Descending := [Decl("VAL1", Some("3")), Decl("VAL2", Some("2")), Decl("VAL3", Some("1"))]

  const DescendingText := "VAL1 = 3, VAL2 = 2, VAL3 = 1,"

  lemma DescendingWritten()
    ensures ParserProofs.Render(Descending) + [','] + "" == DescendingText
    ensures WellWritten(Descending)
  {
    DescendingRendered();
    DescendingWellWritten();
  }

  lemma DescendingRendered()
    ensures ParserProofs.Render(Descending) + [','] + "" == DescendingText
  {
    var ds := Descending;
    assert ds[1..][1..] == [ds[2]];
    assert ParserProofs.Render(ds[1..]) == "VAL2 = 2, VAL3 = 1";
  }

  lemma DescendingWellWritten()
    ensures WellWritten(Descending)
  {
    var ds := Descending;
    assert ds[1..][1..] == [ds[2]];
    assert ds[1..][1..][1..] == [];
  }




  lemma DescendingDecodes(sum: DigitSum)
    ensures AllDecode(sum, Int32, Descending)
  {
    var ds := Descending;
    forall i | 0 <= i < |ds| && ds[i].text.Some?
      ensures DecodeWith(sum, Int32, ds[i].text.value).Success?
    {
      if i == 0 {
        assert ds[i].text.value == "3";
        DecodeWithThree(sum);
      } else if i == 1 {
        assert ds[i].text.value == "2";
        DecodeWithTwo(sum);
      } else {
        assert ds[i].text.value == "1";
        DecodeWithOne(sum);
      }
    }
  }

  lemma DescendingRule(sum: DigitSum, es: seq<Entry>)
    requires ImplicitRule(sum, Int32, Descending, es, 0)
    ensures es == [Entry(3, "VAL1"), Entry(2, "VAL2"), Entry(1, "VAL3")]
  {
    DescendingValues(sum, es);
  }

  lemma DescendingValues(sum: DigitSum, es: seq<Entry>)
    requires ImplicitRule(sum, Int32, Descending, es, 0)
    ensures |es| == 3 && es[0] == Entry(3, "VAL1") && es[1] == Entry(2, "VAL2") && es[2] == Entry(1, "VAL3")
  {
    var ds := Descending;
    DecodeWithThree(sum);
    DecodeWithTwo(sum);
    DecodeWithOne(sum);
    EntryExplicit(sum, Int32, ds, es, 0, 3);
    EntryExplicit(sum, Int32, ds, es, 1, 2);
    EntryExplicit(sum, Int32, ds, es, 2, 1);
  }

  lemma ParseDescending(sum: DigitSum)
    ensures EntryCount(DescendingText) == 3
    ensures Parse(sum, Int32, DescendingText, 3)
         == Success([Entry(3, "VAL1"), Entry(2, "VAL2"), Entry(1, "VAL3")])
  {
    DescendingWritten();
    DescendingDecodes(sum);
    ParseWritten(sum, Int32, Descending, DescendingText);
    DescendingRule(sum, Parse(sum, Int32, DescendingText, 3).value);
  }

  lemma UInt8HexZero()
    ensures Decode(UInt8, "0x00") == Success(0)
    ensures DecodeAsWritten(UInt8, "0x00") == Success(0)
  {
    var sp := Spelling("", Hex(false), "00", "", "");
    assert LiteralProofs.Render(sp) == "0x00";
    assert WellFormed(sp);
    PosValueSnoc("", '0', 16);
    PosValueSnoc("0", '0', 16);
    assert Value(sp) == 0;
    assert Pow(16, 1) == 16;
    DecodeAsWrittenAs(UInt8, sp, "0x00", 0);
  }

  /** `VAL1 = 0xff, VAL2 = 0x00, VAL3,` in `uint8_t`: after the minimum the
      implicit value is the minimum plus one. */
  const UInt8Limits := [Decl("VAL1", Some("0xff")), Decl("VAL2", Some("0x00")), Decl("VAL3", None)]

  const UInt8LimitsText := "VAL1 = 0xff, VAL2 = 0x00, VAL3,"

  lemma UInt8LimitsWritten()
    ensures ParserProofs.Render(UInt8Limits) + [','] + "" == UInt8LimitsText
    ensures WellWritten(UInt8Limits)
  {
    UInt8LimitsRendered();
    UInt8LimitsWellWritten();
  }

  lemma UInt8LimitsRendered()
    ensures ParserProofs.Render(UInt8Limits) + [','] + "" == UInt8LimitsText
  {
    var ds := UInt8Limits;
    assert ds[1..][1..] == [ds[2]];
    assert ParserProofs.Render(ds[1..]) == "VAL2 = 0x00, VAL3";
  }

  lemma UInt8LimitsWellWritten()
    ensures WellWritten(UInt8Limits)
  {
    var ds := UInt8Limits;
    assert ds[1..][1..] == [ds[2]];
    assert ds[1..][1..][1..] == [];
  }




  lemma UInt8LimitsDecode(sum: DigitSum)
    ensures DecodeWith(sum, UInt8, "0xff") == Success(255)
    ensures DecodeWith(sum, UInt8, "0x00") == Success(0)
  {
    UInt8HexMax();
    UInt8HexZero();
  }

  lemma UInt8LimitsDecodes(sum: DigitSum)
    ensures AllDecode(sum, UInt8, UInt8Limits)
  {
    var ds := UInt8Limits;
    forall i | 0 <= i < |ds| && ds[i].text.Some?
      ensures DecodeWith(sum, UInt8, ds[i].text.value).Success?
    {
      UInt8LimitsDecode(sum);
      if i == 0 {
        assert ds[i].text.value == "0xff";
      } else {
        assert i == 1 && ds[i].text.value == "0x00";
      }
    }
  }

  lemma UInt8LimitsRule(sum: DigitSum, es: seq<Entry>)
    requires ImplicitRule(sum, UInt8, UInt8Limits, es, 0)
    ensures es == [Entry(255, "VAL1"), Entry(0, "VAL2"), Entry(1, "VAL3")]
  {
    UInt8LimitsDecode(sum);
    TwoThenImplicit(sum, UInt8, UInt8Limits, es, 255, 0);
  }

  lemma ParseUInt8Limits(sum: DigitSum)
    ensures EntryCount(UInt8LimitsText) == 3
    ensures Parse(sum, UInt8, UInt8LimitsText, 3)
         == Success([Entry(255, "VAL1"), Entry(0, "VAL2"), Entry(1, "VAL3")])
  {
    UInt8LimitsWritten();
    UInt8LimitsDecodes(sum);
    ParseWritten(sum, UInt8, UInt8Limits, UInt8LimitsText);
    UInt8LimitsRule(sum, Parse(sum, UInt8, UInt8LimitsText, 3).value);
  }

  lemma DecodeTwo()
    ensures Decode(Int32, "2") == Success(2)
    ensures DecodeAsWritten(Int32, "2") == Success(2)
  {
    var sp := Spelling("", Decimal, "2", "", "");
    assert LiteralProofs.Render(sp) == "2";
    assert WellFormed(sp);
    assert PosValue("2", 10) == DigitValue('2') * Pow(10, 0) + PosValue([], 10);
    assert Pow(10, 0) == 1;
    DecodeAsWrittenAs(Int32, sp, "2", 2);
  }

  lemma DecodeThree()
    ensures Decode(Int32, "3") == Success(3)
    ensures DecodeAsWritten(Int32, "3") == Success(3)
  {
    var sp := Spelling("", Decimal, "3", "", "");
    assert LiteralProofs.Render(sp) == "3";
    assert WellFormed(sp);
    assert PosValue("3", 10) == DigitValue('3') * Pow(10, 0) + PosValue([], 10);
    assert Pow(10, 0) == 1;
    DecodeAsWrittenAs(Int32, sp, "3", 3);
  }

  /** `A = 3, B = 2, C`: an implicit value counts on from the entry before
      it, not from the largest value so far, so `C` aliases `A`. */
  const AliasText := "A = 3, B = 2, C"

  const Alias := [Decl("A", Some("3")), Decl("B", Some("2")), Decl("C", None)]

  const AliasEntries := [Entry(3, "A"), Entry(2, "B"), Entry(3, "C")]

  lemma AliasWritten()
    ensures ParserProofs.Render(Alias) == AliasText
    ensures WellWritten(Alias)
  {
    var ds := Alias;
    assert ds[1..][1..] == [ds[2]];
    assert ParserProofs.Render(ds[1..]) == "B = 2, C";
  }

  lemma AliasDecodes(sum: DigitSum)
    ensures AllDecode(sum, Int32, Alias)
  {
    var ds := Alias;
    forall i | 0 <= i < |ds| && ds[i].text.Some?
      ensures DecodeWith(sum, Int32, ds[i].text.value).Success?
    {
      if i == 0 {
        assert ds[i].text.value == ['3'];
        DecodeThree();
      } else {
        assert i == 1 && ds[i].text.value == ['2'];
        DecodeTwo();
      }
    }
  }

  lemma AliasValues(sum: DigitSum, es: seq<Entry>)
    requires ImplicitRule(sum, Int32, Alias, es, 0)
    ensures |es| == 3 && es[0] == Entry(3, "A") && es[1] == Entry(2, "B") && es[2] == Entry(3, "C")
  {
    var ds := Alias;
    DecodeWithThree(sum);
    DecodeWithTwo(sum);
    EntryExplicit(sum, Int32, ds, es, 0, 3);
    EntryExplicit(sum, Int32, ds, es, 1, 2);
    EntryImplicit(sum, Int32, ds, es, 2);
  }

  lemma DecodeWithThree(sum: DigitSum)
    ensures DecodeWith(sum, Int32, "3") == Success(3)
  {
    DecodeThree();
  }

  lemma DecodeWithTwo(sum: DigitSum)
    ensures DecodeWith(sum, Int32, "2") == Success(2)
  {
    DecodeTwo();
  }

  lemma AliasRule(sum: DigitSum, es: seq<Entry>)
    requires ImplicitRule(sum, Int32, Alias, es, 0)
    ensures es == AliasEntries
  {
    AliasValues(sum, es);
  }

  /** With either digit sum, `build_in_order_array` gives those entries. */
  lemma ParseAlias(sum: DigitSum)
    ensures EntryCount(AliasText) == 3
    ensures Parse(sum, Int32, AliasText, 3) == Success(AliasEntries)
  {
    AliasWritten();
    AliasDecodes(sum);
    CountRender(Alias);
    ParseRender(sum, Int32, Alias);
    AliasRule(sum, Parse(sum, Int32, AliasText, 3).value);
  }

  /** The leading-zero literal inside an enumerator list: `A = 0x0ff, B`
      in a `uint8_t` enum. */
  const PaddedListText := "A = 0x0ff, B"

  const PaddedList := [Decl("A", Some(PaddedMaxText)), Decl("B", None)]

  lemma PaddedListWritten()
    ensures ParserProofs.Render(PaddedList) == PaddedListText
    ensures WellWritten(PaddedList)
  {
    var ds := PaddedList;
    assert ds[1..] == [ds[1]];
    assert ParserProofs.Render(ds[1..]) == "B";
  }

  lemma PaddedListDecodes(sum: DigitSum)
    ensures AllDecode(sum, UInt8, PaddedList)
  {
    var ds := PaddedList;
    forall i | 0 <= i < |ds| && ds[i].text.Some?
      ensures DecodeWith(sum, UInt8, ds[i].text.value).Success?
    {
      assert i == 0 && ds[i].text.value == PaddedMaxText;
      PaddedMaxDecodes(sum);
    }
  }

  lemma PaddedMaxDecodes(sum: DigitSum)
    ensures DecodeWith(sum, UInt8, PaddedMaxText).Success?
  {
    LeadingZeroWraps();
  }

  /** The entries the rule allows: the explicit value is whatever the digit
      sum makes of `0x0ff`, and `B` is one past it, saturating. */
  lemma PaddedListValues(sum: DigitSum, es: seq<Entry>, lead: int)
    requires ImplicitRule(sum, UInt8, PaddedList, es, 0)
    requires DecodeWith(sum, UInt8, PaddedMaxText) == Success(lead)
    ensures InRange(UInt8, lead)
    ensures es == [Entry(lead, "A"), Entry(Next(UInt8, lead), "B")]
  {
    var ds := PaddedList;
    EntryExplicit(sum, UInt8, ds, es, 0, lead);
    EntryImplicit(sum, UInt8, ds, es, 1);
  }

  lemma ParsePaddedList(sum: DigitSum) returns (es: seq<Entry>)
    ensures EntryCount(PaddedListText) == 2
    ensures Parse(sum, UInt8, PaddedListText, 2) == Success(es)
    ensures ImplicitRule(sum, UInt8, PaddedList, es, 0)
  {
    PaddedListWritten();
    PaddedListDecodes(sum);
    CountRender(PaddedList);
    ParseRender(sum, UInt8, PaddedList);
    es := Parse(sum, UInt8, PaddedListText, 2).value;
  }

  /** `A = 0x0ff, B` in `uint8_t`: the source's parse gives `A` the value 0
      and `B` the value 1; the literals mean 255 for `A`, and `B` then stays
      at the maximum, 255. */
  lemma LeadingZeroInList()
    ensures Parse(AsWritten, UInt8, PaddedListText, 2) == Success([Entry(0, "A"), Entry(1, "B")])
    ensures Parse(Corrected, UInt8, PaddedListText, 2) == Success([Entry(255, "A"), Entry(255, "B")])
  {
    LeadingZeroWraps();
    var written := ParsePaddedList(AsWritten);
    PaddedListValues(AsWritten, written, 0);
    var corrected := ParsePaddedList(Corrected);
    PaddedListValues(Corrected, corrected, 255);
  }

  /** The lookups on those entries: `to_enum("C")` is 3, and `to_string(3)`
      is whichever of `A` and `C` comes first in the by-value table. */
  lemma AliasLookups(c: Reflected)
    requires Valid(c) && c.entries == AliasEntries
    ensures EnumOf(c, "C") == Some(3)
    ensures StringOf(c, 3) == Some("A") || StringOf(c, 3) == Some("C")
    ensures StringOf(c, 2) == Some("B")
    ensures StringOf(c, 42) == None && EnumOf(c, "D") == None
  {
    AliasToEnum(c);
    AliasAmbiguous(c);
    AliasUnique(c);
    AliasUnknown(c);
  }

  lemma AliasToEnum(c: Reflected)
    requires Valid(c) && c.entries == AliasEntries
    ensures EnumOf(c, "C") == Some(3)
  {
    var es := c.entries;
    assert UniqueNames(es);
    assert es[2] == Entry(3, "C");
    EnumOfEntry(c, es[2]);
  }

  lemma AliasAmbiguous(c: Reflected)
    requires Valid(c) && c.entries == AliasEntries
    ensures StringOf(c, 3) == Some("A") || StringOf(c, 3) == Some("C")
  {
    var es := c.entries;
    InTable(c.byValue, es, es[0]);
    var e3 := FirstMatch(ByValue, c.byValue, ValueKey(3)).value;
    InTable(c.byValue, es, e3);
  }

  lemma AliasUnique(c: Reflected)
    requires Valid(c) && c.entries == AliasEntries
    ensures StringOf(c, 2) == Some("B")
  {
    var es := c.entries;
    InTable(c.byValue, es, es[1]);
    var e2 := FirstMatch(ByValue, c.byValue, ValueKey(2)).value;
    InTable(c.byValue, es, e2);
  }

  lemma AliasUnknown(c: Reflected)
    requires Valid(c) && c.entries == AliasEntries
    ensures StringOf(c, 42) == None && EnumOf(c, "D") == None
  {
    var es := c.entries;
    if StringOf(c, 42).Some? {
      var e := FirstMatch(ByValue, c.byValue, ValueKey(42)).value;
      InTable(c.byValue, es, e);
    }
    if EnumOf(c, "D").Some? {
      var e := FirstMatch(ByName, c.byName, NameKey("D")).value;
      InTable(c.byName, es, e);
    }
  }

  /** `ENUM_REFL(Test1, int, )` and `ENUM_REFL(Test2, int)`: no entries. */
  lemma ParseEmpty(sum: DigitSum)
    ensures EntryCount("") == 0 && Parse(sum, Int32, "", 0) == Success([])
    ensures EntryCount(" ") == 0 && Parse(sum, Int32, " ", 0) == Success([])
  {
    BlankParse(sum, Int32, "");
    BlankParse(sum, Int32, " ");
  }
}
