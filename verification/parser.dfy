/** `build_in_order_array`: the scan of the stringified enumerator list into
    (value, name) entries in declaration order. Explicit values are decoded
    by `decode_value`, with the source's digit sum or the corrected one
    (`Literal.DigitSum`); an entry without `=` takes the running counter,
    which starts at 0 and is bumped after every entry unless it already
    holds the type's maximum. */
module Parser {
  import opened Base
  import opened Chars
  import opened IntTypes
  import opened Literal
  import opened Count

  /** One enumerator as written: its identifier and, after `=`, the text
      of its value up to the next comma. */
  datatype Decl = Decl(name: string, text: Option<string>)

  /** A declaration and the text left after it: empty, or starting at the
      comma that ends it. */
  datatype Scanned = Scanned(decl: Decl, rest: string)

  predicate IsEqualsOrComma(c: char) {
    c == '=' || c == ','
  }

  predicate AllIdentChars(s: string) {
    forall i | 0 <= i < |s| :: IsIdentChar(s[i])
  }

  predicate NoIdentChars(s: string) {
    forall i | 0 <= i < |s| :: !IsIdentChar(s[i])
  }

  /** An identifier as the scanner cuts it: a nonempty run of identifier characters. */
  predicate IsName(s: string) {
    s != [] && AllIdentChars(s)
  }

  /** The counter after an entry: one more, except at the type's maximum,
      where it stays. */
  function Next(t: IntType, v: int): (r: int)
    requires InRange(t, v)
    ensures InRange(t, r)
    ensures v < Max(t) ==> r == v + 1
    ensures v == Max(t) ==> r == v
  {
    if v == Max(t) then v else v + 1
  }

  /** One declaration, from its first identifier character: the identifier
      is the maximal run of identifier characters, and `ScanTail` reads
      what follows it. */
  function ScanDecl(w: string): (r: Result<Scanned>)
    requires w != [] && IsIdentChar(w[0])
    ensures r.Failure? ==> r.error == ExpectedValue
    ensures r.Success? ==>
              var name := r.value.decl.name;
              && IsName(name) && |name| <= |w| && name == w[..|name|]
              && (|name| < |w| ==> !IsIdentChar(w[|name|]))
    ensures r.Success? ==> RestOf(w, r.value.rest) && |r.value.rest| < |w|
    ensures r.Success? ==> ValueText(r.value.decl.text)
  {
    var j := FindFirst(w, c => !IsIdentChar(c));
    var name := w[..j];
    match ScanTail(w[j..])
    case Failure(e) => Failure(e)
    case Success(tl) =>
      assert w[j..][|w[j..]| - |tl.rest|..] == w[|w| - |tl.rest|..];
      Success(Scanned(Decl(name, tl.text), tl.rest))
  }

  /** What follows an identifier and where the scan goes on. */
  datatype Tail = Tail(text: Option<string>, rest: string)

  /** `rest` is what is left of `s`: empty, or a suffix of `s` starting at a comma. */
  predicate RestOf(s: string, rest: string) {
    rest == [] || (|rest| <= |s| && rest[0] == ',' && rest == s[|s| - |rest|..])
  }

  /** The text of an explicit value: it starts with an identifier character
      and holds no comma. */
  predicate ValueText(text: Option<string>) {
    text.Some? ==> text.value != [] && IsIdentChar(text.value[0]) && ',' !in text.value
  }

  /** After the identifier: anything up to the next `=` or `,` is skipped;
      without either the scan ends; a comma ends the declaration; after
      `=`, `ScanValue` reads the value. */
  function ScanTail(s: string): (r: Result<Tail>)
    ensures r.Failure? ==> r.error == ExpectedValue
    ensures r.Success? ==> RestOf(s, r.value.rest) && |r.value.rest| <= |s|
    ensures r.Success? ==> ValueText(r.value.text)
  {
    var k := FindFirst(s, IsEqualsOrComma);
    if k == |s| then Success(Tail(None, []))
    else if s[k] == ',' then Success(Tail(None, s[k..]))
    else
      match ScanValue(s[k..])
      case Failure(e) => Failure(e)
      case Success(tl) =>
        assert s[k..][|s[k..]| - |tl.rest|..] == s[|s| - |tl.rest|..];
        Success(tl)
  }

  /** From the `=`: the value starts at the next identifier character,
      which may lie past further commas, and runs to the next comma. */
  function ScanValue(s: string): (r: Result<Tail>)
    ensures r.Failure? ==> r.error == ExpectedValue
    ensures r.Success? ==> RestOf(s, r.value.rest) && |r.value.rest| <= |s|
    ensures r.Success? ==> r.value.text.Some? && ValueText(r.value.text)
  {
    var m := FindFirst(s, IsIdentChar);
    if m == |s| then Failure(ExpectedValue)
    else
      var v := s[m..];
      var e := FindFirst(v, c => c == ',');
      assert v[..e][0] == v[0];
      assert v[e..] == s[|s| - |v[e..]|..];
      Success(Tail(Some(v[..e]), v[e..]))
  }

  /** The declarations of a list, read without a size and without decoding
      any value: the structure `build_in_order_array` walks. */
  function Scan(s: string): (r: Result<seq<Decl>>)
    ensures r.Failure? ==> r.error == ExpectedValue
    ensures r.Success? ==> AllNamed(r.value)
    decreases |s|
  {
    var i := FindFirst(s, IsIdentChar);
    if i == |s| then Success([])
    else
      match ScanDecl(s[i..])
      case Failure(e) => Failure(e)
      case Success(sc) =>
        match Scan(sc.rest)
        case Failure(e) => Failure(e)
        case Success(ds) =>
          NamedCons(sc.decl, ds);
          Success([sc.decl] + ds)
  }

  predicate AllNamed(ds: seq<Decl>) {
    forall i | 0 <= i < |ds| :: IsName(ds[i].name)
  }

  lemma NamedCons(d: Decl, ds: seq<Decl>)
    requires IsName(d.name) && AllNamed(ds)
    ensures AllNamed([d] + ds)
  {
    forall i | 0 <= i < |[d] + ds|
      ensures IsName(([d] + ds)[i].name)
    {
      if i > 0 {
        assert ([d] + ds)[i] == ds[i - 1];
      }
    }
  }

  /** Every entry's value is one of the type's. */
  predicate AllInRange(t: IntType, es: seq<Entry>) {
    forall i | 0 <= i < |es| :: InRange(t, es[i].value)
  }

  lemma InRangeSnoc(t: IntType, es: seq<Entry>, e: Entry)
    requires AllInRange(t, es) && InRange(t, e.value)
    ensures AllInRange(t, es + [e])
  {
    forall i | 0 <= i < |es + [e]|
      ensures InRange(t, (es + [e])[i].value)
    {
      if i < |es| {
        assert (es + [e])[i] == es[i];
      }
    }
  }

  /** The value an entry takes: its decoded literal, or the counter. */
  function ValueOf(sum: DigitSum, t: IntType, d: Decl, counter: int): (r: Result<int>)
    requires InRange(t, counter)
    ensures r.Success? ==> InRange(t, r.value)
    ensures d.text.None? ==> r == Success(counter)
    ensures d.text.Some? ==> r == DecodeWith(sum, t, d.text.value)
  {
    match d.text
    case None => Success(counter)
    case Some(v) => DecodeWith(sum, t, v)
  }

  /** The source's loop from a position in the text, with `acc` the entries
      found so far and `counter` the running value. Errors come in the
      order the source throws them. */
  function Build(sum: DigitSum, t: IntType, n: nat, s: string, counter: int, acc: seq<Entry>): (r: Result<seq<Entry>>)
    requires InRange(t, counter)
    requires |acc| <= n
    requires AllInRange(t, acc)
    ensures r.Success? ==> |r.value| == n && r.value[..|acc|] == acc
    ensures r.Success? ==> AllInRange(t, r.value)
    ensures r.Failure? ==> r.error in {MoreEntries, LessEntries, ExpectedValue, EmptyValue, BadSuffix,
                                       NotNumeric, UnknownBase, NoDigits, Overflow}
    decreases |s|
  {
    var i := FindFirst(s, IsIdentChar);
    if i == |s| then
      if |acc| < n then Failure(LessEntries) else Success(acc)
    else if |acc| >= n then Failure(MoreEntries)
    else
      match ScanDecl(s[i..])
      case Failure(e) => Failure(e)
      case Success(sc) =>
        match ValueOf(sum, t, sc.decl, counter)
        case Failure(e) => Failure(e)
        case Success(v) =>
          var acc' := acc + [Entry(v, sc.decl.name)];
          assert acc'[..|acc|] == acc;
          InRangeSnoc(t, acc, Entry(v, sc.decl.name));
          Build(sum, t, n, sc.rest, Next(t, v), acc')
  }

  /** `build_in_order_array<Enum, N>(enum_def)`; with `AsWritten` it is
      the source's, with `Corrected` the one the leading-zero fix gives. */
  function Parse(sum: DigitSum, t: IntType, text: string, n: nat): (r: Result<seq<Entry>>)
    ensures r.Success? ==> |r.value| == n
    ensures r.Success? ==> AllInRange(t, r.value)
  {
    Build(sum, t, n, text, 0, [])
  }
}
