/** What `build_in_order_array` computes, stated against the declarations
    `Parser.Scan` reads from the text. */
module ParserProofs {
  import opened Base
  import opened Chars
  import opened IntTypes
  import opened Literal
  import opened Count
  import opened Parser
  import LiteralProofs

  /** Every explicit value decodes. */
  predicate AllDecode(sum: DigitSum, t: IntType, ds: seq<Decl>) {
    forall i | 0 <= i < |ds| :: ds[i].text.Some? ==> DecodeWith(sum, t, ds[i].text.value).Success?
  }

  /** The implicit-value rule, entry by entry: entry `i` has the name of
      declaration `i`; an explicit value is its decoded literal; an
      implicit one is `start` for the first entry and the previous entry's
      value plus one otherwise, except that the maximum stays the maximum. */
  predicate ImplicitRule(sum: DigitSum, t: IntType, ds: seq<Decl>, es: seq<Entry>, start: int) {
    && |es| == |ds|
    && InRange(t, start)
    && AllInRange(t, es)
    && (forall i | 0 <= i < |ds| :: es[i].name == ds[i].name)
    && (forall i | 0 <= i < |ds| :: ds[i].text.Some? ==> DecodeWith(sum, t, ds[i].text.value) == Success(es[i].value))
    && (forall i | 0 <= i < |ds| :: ds[i].text.None? ==> es[i].value == CounterAt(t, es, start, i))
  }

  /** The counter when entry `i` is reached: `start`, or one past the
      previous entry's value, saturating at the maximum. */
  function CounterAt(t: IntType, es: seq<Entry>, start: int, i: nat): int
    requires InRange(t, start) && AllInRange(t, es) && i <= |es|
  {
    if i == 0 then start else Next(t, es[i - 1].value)
  }

  lemma AllDecodeCons(sum: DigitSum, t: IntType, d: Decl, ds: seq<Decl>)
    ensures AllDecode(sum, t, [d] + ds) <==> (d.text.Some? ==> DecodeWith(sum, t, d.text.value).Success?) && AllDecode(sum, t, ds)
  {
    assert ([d] + ds)[0] == d;
    assert forall i | 0 <= i < |ds| :: ([d] + ds)[i + 1] == ds[i];
    if (d.text.Some? ==> DecodeWith(sum, t, d.text.value).Success?) && AllDecode(sum, t, ds) {
      forall i | 0 <= i < |[d] + ds|
        ensures ([d] + ds)[i].text.Some? ==> DecodeWith(sum, t, ([d] + ds)[i].text.value).Success?
      {
        if i > 0 {
          assert ([d] + ds)[i] == ds[i - 1];
        }
      }
    }
  }

  lemma RuleCons(sum: DigitSum, t: IntType, d: Decl, ds: seq<Decl>, e: Entry, es: seq<Entry>, start: int)
    requires InRange(t, start)
    requires e.name == d.name && ValueOf(sum, t, d, start) == Success(e.value)
    requires ImplicitRule(sum, t, ds, es, Next(t, e.value))
    ensures ImplicitRule(sum, t, [d] + ds, [e] + es, start)
  {
    var ds' := [d] + ds;
    var es' := [e] + es;
    forall i | 0 <= i < |es'|
      ensures InRange(t, es'[i].value)
    {
      if i > 0 {
        assert es'[i] == es[i - 1];
      }
    }
    forall i | 0 <= i < |ds'|
      ensures es'[i].name == ds'[i].name
      ensures ds'[i].text.Some? ==> DecodeWith(sum, t, ds'[i].text.value) == Success(es'[i].value)
      ensures ds'[i].text.None? ==> es'[i].value == CounterAt(t, es', start, i)
    {
      if i > 0 {
        assert ds'[i] == ds[i - 1] && es'[i] == es[i - 1];
        if i > 1 {
          assert es'[i - 1] == es[i - 2];
        }
      }
    }
  }

  lemma SliceStep(xs: seq<Entry>, acc: seq<Entry>, e: Entry)
    requires |acc| + 1 <= |xs| && xs[..|acc| + 1] == acc + [e]
    ensures xs[|acc|..] == [e] + xs[|acc| + 1..]
  {
    assert xs[|acc|] == xs[..|acc| + 1][|acc|];
  }

  /** The source's loop succeeds exactly when the declarations after this
      point can be read, number what is left of `n`, and all explicit
      values decode; the entries it adds then follow the implicit-value
      rule from `counter`. */
  lemma {:induction false} BuildScan(sum: DigitSum, t: IntType, n: nat, s: string, counter: int, acc: seq<Entry>)
    requires InRange(t, counter) && |acc| <= n && AllInRange(t, acc)
    ensures var r := Build(sum, t, n, s, counter, acc);
            r.Success? <==> (Scan(s).Success? && |acc| + |Scan(s).value| == n && AllDecode(sum, t, Scan(s).value))
    ensures var r := Build(sum, t, n, s, counter, acc);
            r.Success? ==> ImplicitRule(sum, t, Scan(s).value, r.value[|acc|..], counter)
    decreases |s|
  {
    var i := FindFirst(s, IsIdentChar);
    if i == |s| {
      assert Build(sum, t, n, s, counter, acc) == if |acc| < n then Failure(LessEntries) else Success(acc);
      assert Scan(s) == Success([]);
    } else if |acc| >= n {
      assert Build(sum, t, n, s, counter, acc) == Failure(MoreEntries);
      if Scan(s).Success? {
        assert Scan(s).value == [ScanDecl(s[i..]).value.decl] + Scan(ScanDecl(s[i..]).value.rest).value;
      }
    } else if ScanDecl(s[i..]).Failure? {
      assert Build(sum, t, n, s, counter, acc).Failure?;
      assert Scan(s).Failure?;
    } else {
      var sc := ScanDecl(s[i..]).value;
      var v := ValueOf(sum, t, sc.decl, counter);
      if v.Failure? {
        assert Build(sum, t, n, s, counter, acc).Failure?;
        if Scan(s).Success? {
          AllDecodeCons(sum, t, sc.decl, Scan(sc.rest).value);
        }
      } else {
        var e := Entry(v.value, sc.decl.name);
        var acc' := acc + [e];
        InRangeSnoc(t, acc, e);
        assert Build(sum, t, n, s, counter, acc) == Build(sum, t, n, sc.rest, Next(t, v.value), acc');
        BuildScan(sum, t, n, sc.rest, Next(t, v.value), acc');
        if Scan(sc.rest).Success? {
          assert Scan(s) == Success([sc.decl] + Scan(sc.rest).value);
          AllDecodeCons(sum, t, sc.decl, Scan(sc.rest).value);
        } else {
          assert Scan(s).Failure?;
        }
        var r := Build(sum, t, n, s, counter, acc);
        if r.Success? {
          SliceStep(r.value, acc, e);
          RuleCons(sum, t, sc.decl, Scan(sc.rest).value, e, r.value[|acc'|..], counter);
        }
      }
    }
  }

  /** `build_in_order_array` returns entries exactly when the text's
      declarations can be read, there are `n` of them and every explicit
      value decodes; they are then the declarations in order, valued by the
      implicit-value rule from 0. */
  lemma ParseRule(sum: DigitSum, t: IntType, text: string, n: nat)
    ensures Parse(sum, t, text, n).Success? <==>
              Scan(text).Success? && |Scan(text).value| == n && AllDecode(sum, t, Scan(text).value)
    ensures Parse(sum, t, text, n).Success? ==> ImplicitRule(sum, t, Scan(text).value, Parse(sum, t, text, n).value, 0)
  {
    BuildScan(sum, t, n, text, 0, []);
    assert Parse(sum, t, text, n) == Build(sum, t, n, text, 0, []);
    if Parse(sum, t, text, n).Success? {
      assert Parse(sum, t, text, n).value[0..] == Parse(sum, t, text, n).value;
    }
  }

  // ---------------------------------------------------------------------
  // The two digit sums

  /** Every explicit value's leading weight fits the type. */
  predicate AllFit(t: IntType, ds: seq<Decl>) {
    forall i | 0 <= i < |ds| :: ds[i].text.Some? ==> LiteralProofs.LeadFits(t, ds[i].text.value)
  }

  /** From any position whose declarations can be read and whose explicit
      values all have leading weights that fit, the loop gives the same
      result with either digit sum. */
  lemma {:induction false} BuildAgrees(t: IntType, n: nat, s: string, counter: int, acc: seq<Entry>)
    requires InRange(t, counter) && |acc| <= n && AllInRange(t, acc)
    requires Scan(s).Success? && AllFit(t, Scan(s).value)
    ensures Build(AsWritten, t, n, s, counter, acc) == Build(Corrected, t, n, s, counter, acc)
    decreases |s|
  {
    var i := FindFirst(s, IsIdentChar);
    if i < |s| && |acc| < n {
      var sc := ScanDecl(s[i..]).value;
      var ds := Scan(sc.rest).value;
      assert Scan(s) == Success([sc.decl] + ds);
      AllFitCons(t, sc.decl, ds);
      if sc.decl.text.Some? {
        LiteralProofs.DecodeAgrees(t, sc.decl.text.value);
      }
      var v := ValueOf(AsWritten, t, sc.decl, counter);
      assert v == ValueOf(Corrected, t, sc.decl, counter);
      if v.Success? {
        var acc' := acc + [Entry(v.value, sc.decl.name)];
        InRangeSnoc(t, acc, Entry(v.value, sc.decl.name));
        BuildAgrees(t, n, sc.rest, Next(t, v.value), acc');
      }
    }
  }

  lemma AllFitCons(t: IntType, d: Decl, ds: seq<Decl>)
    requires AllFit(t, [d] + ds)
    ensures d.text.Some? ==> LiteralProofs.LeadFits(t, d.text.value)
    ensures AllFit(t, ds)
  {
    assert ([d] + ds)[0] == d;
    forall k | 0 <= k < |ds| && ds[k].text.Some?
      ensures LiteralProofs.LeadFits(t, ds[k].text.value)
    {
      assert ds[k] == ([d] + ds)[k + 1];
    }
  }

  /** `build_in_order_array` as written gives what the corrected one gives
      whenever every explicit value's leading weight fits the type: the
      leading-zero defect only shows where that weight leaves the type. */
  lemma ParseAgrees(t: IntType, text: string, n: nat)
    requires Scan(text).Success? && AllFit(t, Scan(text).value)
    ensures Parse(AsWritten, t, text, n) == Parse(Corrected, t, text, n)
  {
    BuildAgrees(t, n, text, 0, []);
    assert Parse(AsWritten, t, text, n) == Build(AsWritten, t, n, text, 0, []);
    assert Parse(Corrected, t, text, n) == Build(Corrected, t, n, text, 0, []);
  }

  // ---------------------------------------------------------------------
  // The running counter

  /** After an entry at index `j`, a run of entries without `=` counts up
      from its value one by one and stays at the type's maximum once it
      reaches it: the counter never wraps. */
  lemma {:induction false} ImplicitRun(sum: DigitSum, t: IntType, ds: seq<Decl>, es: seq<Entry>, start: int, j: nat, i: nat)
    requires ImplicitRule(sum, t, ds, es, start)
    requires j <= i < |ds|
    requires forall k | j < k <= i :: ds[k].text.None?
    ensures es[i].value == if es[j].value + (i - j) < Max(t) then es[j].value + (i - j) else Max(t)
    decreases i - j
  {
    if j < i {
      ImplicitRun(sum, t, ds, es, start, j, i - 1);
      RuleStep(sum, t, ds, es, start, i);
      SaturateStep(t, es[j].value, i - 1 - j, es[i - 1].value);
    }
  }

  lemma RuleStep(sum: DigitSum, t: IntType, ds: seq<Decl>, es: seq<Entry>, start: int, i: nat)
    requires ImplicitRule(sum, t, ds, es, start)
    requires 0 < i < |ds| && ds[i].text.None?
    ensures InRange(t, es[i - 1].value) && es[i].value == Next(t, es[i - 1].value)
  {
    assert es[i].value == CounterAt(t, es, start, i);
  }

  lemma SaturateStep(t: IntType, a: int, k: nat, prev: int)
    requires InRange(t, prev)
    requires prev == if a + k < Max(t) then a + k else Max(t)
    ensures Next(t, prev) == if a + k + 1 < Max(t) then a + k + 1 else Max(t)
  {
  }

  /** Before the first `=`, entry `i` has the value `i`, capped at the maximum. */
  lemma ImplicitPrefix(sum: DigitSum, t: IntType, ds: seq<Decl>, es: seq<Entry>, i: nat)
    requires ImplicitRule(sum, t, ds, es, 0)
    requires i < |ds|
    requires forall k | 0 <= k <= i :: ds[k].text.None?
    ensures es[i].value == if i < Max(t) then i else Max(t)
  {
    assert ds[0].text.None?;
    ImplicitRun(sum, t, ds, es, 0, 0, i);
  }

  // ---------------------------------------------------------------------
  // "Found more entries than expected" cannot happen

  /** What is left of the count for the text from a position the loop
      reaches: the comma that starts it ends an entry already found. */
  function Potential(s: string): int {
    EntryCount(s) - if s != [] && s[0] == ',' then 1 else 0
  }

  /** A text that starts with a character other than whitespace declares at least one entry. */
  lemma SomeCount(w: string)
    requires w != [] && !IsSpace(w[0])
    ensures EntryCount(w) >= 1
  {
    if ',' !in w {
      OneSegment(w);
    } else {
      assert ',' in multiset(w);
    }
  }

  /** Skipping to the first identifier character loses no count. */
  lemma SkipPotential(s: string, i: nat)
    requires i == FindFirst(s, IsIdentChar) && i < |s|
    ensures Potential(s) >= EntryCount(s[i..]) >= 1
  {
    var p, w := s[..i], s[i..];
    assert s == p + w;
    assert w[0] == s[i];
    CountSplit(p, w);
    SomeCount(w);
    if s[0] == ',' {
      CommaAtStart(p);
    }
  }

  lemma CommaAtStart(p: string)
    requires p != [] && p[0] == ','
    ensures Commas(p) >= 1
  {
    assert p[0] in multiset(p);
  }

  /** Each declaration the loop reads uses up at least one counted entry. */
  lemma DeclPotential(w: string)
    requires w != [] && IsIdentChar(w[0]) && ScanDecl(w).Success?
    ensures EntryCount(w) >= 1 + Potential(ScanDecl(w).value.rest)
  {
    var rest := ScanDecl(w).value.rest;
    if rest == [] {
      SomeCount(w);
      assert LastSegment([]) == [];
    } else {
      var p := w[..|w| - |rest|];
      assert w == p + rest;
      CountSplit(p, rest);
    }
  }

  lemma {:induction false} BuildNotMore(sum: DigitSum, t: IntType, n: nat, s: string, counter: int, acc: seq<Entry>)
    requires InRange(t, counter) && |acc| <= n && AllInRange(t, acc)
    requires |acc| + Potential(s) <= n
    ensures Build(sum, t, n, s, counter, acc) != Failure(MoreEntries)
    decreases |s|
  {
    var i := FindFirst(s, IsIdentChar);
    if i < |s| {
      SkipPotential(s, i);
      if ScanDecl(s[i..]).Success? {
        var sc := ScanDecl(s[i..]).value;
        var v := ValueOf(sum, t, sc.decl, counter);
        if v.Success? {
          DeclPotential(s[i..]);
          var acc' := acc + [Entry(v.value, sc.decl.name)];
          InRangeSnoc(t, acc, Entry(v.value, sc.decl.name));
          assert Build(sum, t, n, s, counter, acc) == Build(sum, t, n, sc.rest, Next(t, v.value), acc');
          BuildNotMore(sum, t, n, sc.rest, Next(t, v.value), acc');
        }
      }
    }
  }

  /** With the size the count computes, the loop never finds more entries
      than expected: every entry it reads lies in a counted segment. */
  lemma NoMoreEntries(sum: DigitSum, t: IntType, text: string)
    ensures Parse(sum, t, text, EntryCount(text)) != Failure(MoreEntries)
  {
    BuildNotMore(sum, t, EntryCount(text), text, 0, []);
  }

  // ---------------------------------------------------------------------
  // Writing declarations out and reading them back

  /** A declaration as the macro user writes it. */
  function RenderDecl(d: Decl): string {
    d.name + TextPart(d.text)
  }

  function TextPart(text: Option<string>): string {
    match text
    case None => ""
    case Some(v) => " = " + v
  }

  /** A list of declarations, separated by ", ". */
  function Render(ds: seq<Decl>): string
    decreases |ds|
  {
    if ds == [] then ""
    else if |ds| == 1 then RenderDecl(ds[0])
    else RenderDecl(ds[0]) + (", " + Render(ds[1..]))
  }

  /** A declaration that can be written out: an identifier for the name,
      and a value, if any, that starts with an identifier character and
      holds no comma. */
  predicate WellWrittenDecl(d: Decl) {
    IsName(d.name) && ValueText(d.text)
  }

  predicate WellWritten(ds: seq<Decl>)
    decreases |ds|
  {
    ds == [] || (WellWrittenDecl(ds[0]) && WellWritten(ds[1..]))
  }

  lemma FindFirstAt(s: string, p: char -> bool, k: nat)
    requires k <= |s|
    requires forall j | 0 <= j < k :: !p(s[j])
    requires k < |s| ==> p(s[k])
    ensures FindFirst(s, p) == k
  {
  }

  lemma TextPartShape(text: Option<string>)
    requires ValueText(text)
    ensures ',' !in TextPart(text)
    ensures TextPart(text) != [] ==> TextPart(text)[0] == ' '
  {
    if text.Some? {
      assert TextPart(text) == " = " + text.value;
    }
  }

  lemma RenderDeclShape(d: Decl)
    requires IsName(d.name) && ValueText(d.text)
    ensures var w := RenderDecl(d);
            w != [] && IsIdentChar(w[0]) && ',' !in w
  {
    TextPartShape(d.text);
    assert RenderDecl(d)[0] == d.name[0];
  }

  /** The identifier is cut where the identifier characters end. */
  lemma NameCut(name: string, x: string)
    requires IsName(name) && (x == [] || !IsIdentChar(x[0]))
    ensures FindFirst(name + x, c => !IsIdentChar(c)) == |name|
    ensures (name + x)[..|name|] == name && (name + x)[|name|..] == x
  {
    var w := name + x;
    assert forall k | 0 <= k < |name| :: w[k] == name[k];
    if x != [] {
      assert w[|name|] == x[0];
    }
    FindFirstAt(w, c => !IsIdentChar(c), |name|);
  }

  /** What follows a written-out identifier is read back as its value text. */
  lemma TailRender(text: Option<string>, tail: string)
    requires ValueText(text)
    requires tail == [] || tail[0] == ','
    ensures ScanTail(TextPart(text) + tail) == Success(Tail(text, tail))
  {
    match text
    case None =>
      assert TextPart(text) + tail == tail;
      FindFirstAt(tail, IsEqualsOrComma, 0);
    case Some(v) =>
      TailRenderValue(v, tail);
  }

  lemma TailRenderValue(v: string, tail: string)
    requires ValueText(Some(v))
    requires tail == [] || tail[0] == ','
    ensures ScanTail(TextPart(Some(v)) + tail) == Success(Tail(Some(v), tail))
  {
    EqualsAt(v, tail);
    ValueRender(v, tail);
  }

  /** A written-out value's text has its `=` second. */
  lemma EqualsAt(v: string, tail: string)
    ensures var s := TextPart(Some(v)) + tail;
            && FindFirst(s, IsEqualsOrComma) == 1 && s[1] == '='
            && s[1..] == "= " + v + tail
  {
    var s := TextPart(Some(v)) + tail;
    assert s == " = " + v + tail;
    FindFirstAt(s, IsEqualsOrComma, 1);
  }

  lemma ValueRender(v: string, tail: string)
    requires ValueText(Some(v))
    requires tail == [] || tail[0] == ','
    ensures ScanValue("= " + v + tail) == Success(Tail(Some(v), tail))
  {
    var s3 := "= " + v + tail;
    FindFirstAt(s3, IsIdentChar, 2);
    var s4 := s3[2..];
    assert s4 == v + tail;
    assert forall k | 0 <= k < |v| :: s4[k] == v[k];
    if tail != [] {
      assert s4[|v|] == tail[0];
    }
    FindFirstAt(s4, c => c == ',', |v|);
    assert s4[..|v|] == v && s4[|v|..] == tail;
  }

  lemma ScanDeclRender(d: Decl, tail: string)
    requires IsName(d.name) && ValueText(d.text)
    requires tail == [] || tail[0] == ','
    ensures ScanDecl(RenderDecl(d) + tail) == Success(Scanned(d, tail))
  {
    var x := TextPart(d.text) + tail;
    TextPartShape(d.text);
    assert x != [] ==> x[0] == ' ' || x[0] == ',';
    assert RenderDecl(d) + tail == d.name + x;
    NameCut(d.name, x);
    TailRender(d.text, tail);
  }

  /** Leading characters that are not identifier characters are skipped. */
  lemma ScanSkip(p: string, r: string)
    requires NoIdentChars(p) && r != [] && IsIdentChar(r[0])
    ensures Scan(p + r) == Scan(r)
  {
    assert forall k | 0 <= k < |p| :: (p + r)[k] == p[k];
    FindFirstAt(p + r, IsIdentChar, |p|);
    FindFirstAt(r, IsIdentChar, 0);
    assert (p + r)[|p|..] == r;
  }

  lemma ScanSeparator(r: string)
    requires r != [] && IsIdentChar(r[0])
    ensures Scan(", " + r) == Scan(r)
  {
    assert NoIdentChars(", ");
    ScanSkip(", ", r);
  }

  /** One step of `Scan` from an identifier character. */
  lemma ScanStep(w: string, d: Decl, tail: string, ds: seq<Decl>)
    requires w != [] && IsIdentChar(w[0])
    requires ScanDecl(w) == Success(Scanned(d, tail)) && Scan(tail) == Success(ds)
    ensures Scan(w) == Success([d] + ds)
  {
    FindFirstAt(w, IsIdentChar, 0);
    assert w[0..] == w;
  }

  lemma RenderCons(ds: seq<Decl>)
    requires |ds| >= 2
    ensures Render(ds) == RenderDecl(ds[0]) + (", " + Render(ds[1..]))
  {
  }

  /** Reading written-out declarations gives them back. */
  lemma {:induction false} ScanRender(ds: seq<Decl>)
    requires WellWritten(ds)
    ensures Scan(Render(ds)) == Success(ds)
    decreases |ds|
  {
    if ds == [] {
      assert Scan([]) == Success([]);
    } else if |ds| == 1 {
      ScanRenderOne(ds[0]);
      assert ds == [ds[0]] + [];
    } else {
      ScanRender(ds[1..]);
      RenderStart(ds[1..]);
      ScanRenderStep(ds[0], ds[1..], Render(ds[1..]));
      RenderCons(ds);
      HeadTail(ds);
    }
  }

  lemma HeadTail(ds: seq<Decl>)
    requires ds != []
    ensures [ds[0]] + ds[1..] == ds
  {
  }

  lemma ScanRenderOne(d: Decl)
    requires IsName(d.name) && ValueText(d.text)
    ensures Scan(RenderDecl(d)) == Success([d] + [])
  {
    var w := RenderDecl(d);
    RenderDeclShape(d);
    assert ScanDecl(w) == Success(Scanned(d, [])) by {
      assert w + [] == w;
      ScanDeclRender(d, []);
    }
    assert Scan([]) == Success([]);
    ScanStep(w, d, [], []);
  }

  lemma ScanRenderStep(d: Decl, rest: seq<Decl>, r: string)
    requires IsName(d.name) && ValueText(d.text)
    requires r != [] && IsIdentChar(r[0]) && Scan(r) == Success(rest)
    ensures Scan(RenderDecl(d) + (", " + r)) == Success([d] + rest)
  {
    var tail := ", " + r;
    RenderDeclShape(d);
    ScanSeparator(r);
    ScanDeclRender(d, tail);
    ScanStep(RenderDecl(d) + tail, d, tail, rest);
  }

  lemma RenderStart(ds: seq<Decl>)
    requires WellWritten(ds) && ds != []
    ensures Render(ds) != [] && IsIdentChar(Render(ds)[0])
  {
    RenderDeclShape(ds[0]);
    if |ds| > 1 {
      RenderCons(ds);
    }
  }

  /** Written-out declarations are counted one each, so the size taken
      from the count matches them. */
  lemma {:induction false} CountRender(ds: seq<Decl>)
    requires WellWritten(ds)
    ensures EntryCount(Render(ds)) == |ds|
    decreases |ds|
  {
    if ds == [] {
      assert LastSegment([]) == [];
    } else {
      RenderDeclShape(ds[0]);
      if |ds| == 1 {
        OneSegment(RenderDecl(ds[0]));
      } else {
        CountRender(ds[1..]);
        CountRenderStep(ds);
      }
    }
  }

  lemma CountRenderStep(ds: seq<Decl>)
    requires WellWritten(ds) && |ds| >= 2
    requires WellWritten(ds[1..]) && EntryCount(Render(ds[1..])) == |ds| - 1
    ensures EntryCount(Render(ds)) == |ds|
  {
    RenderCons(ds);
    CountHead(ds[0], ds[1..]);
  }

  lemma CountHead(d: Decl, rest: seq<Decl>)
    requires IsName(d.name) && ValueText(d.text)
    requires WellWritten(rest) && rest != []
    ensures EntryCount(RenderDecl(d) + (", " + Render(rest))) == EntryCount(Render(rest)) + 1
  {
    RenderDeclShape(d);
    RenderStart(rest);
    CountCons(RenderDecl(d), Render(rest), EntryCount(Render(rest)));
  }

  /** A declaration without commas in front of ", " adds one to the count. */
  lemma CountCons(w: string, r: string, k: nat)
    requires ',' !in w && r != [] && !IsSpace(r[0]) && EntryCount(r) == k
    ensures EntryCount(w + (", " + r)) == k + 1
  {
    CountSplit(", ", r);
    assert multiset(", ")[','] == 1;
    CountSplit(w, ", " + r);
    NoCommas(w);
  }

  /** For a written-out list, sized by its count, the source yields one
      entry per declaration, in order and valued by the implicit-value
      rule, exactly when every explicit value decodes. */
  lemma ParseRender(sum: DigitSum, t: IntType, ds: seq<Decl>)
    requires WellWritten(ds)
    ensures var r := Parse(sum, t, Render(ds), EntryCount(Render(ds)));
            && (r.Success? <==> AllDecode(sum, t, ds))
            && (r.Success? ==> ImplicitRule(sum, t, ds, r.value, 0))
  {
    ScanRender(ds);
    CountRender(ds);
    ParseRule(sum, t, Render(ds), EntryCount(Render(ds)));
  }

  // ---------------------------------------------------------------------
  // Trailing commas and blank lists

  /** A comma followed by whitespace holds no declaration. */
  lemma ScanBlankTail(ws: string)
    requires AllSpaces(ws)
    ensures Scan([','] + ws) == Success([])
  {
    var s := [','] + ws;
    assert NoIdentChars(s) by {
      forall k | 0 <= k < |s|
        ensures !IsIdentChar(s[k])
      {
        if k > 0 {
          assert s[k] == ws[k - 1];
        }
      }
    }
    FindFirstAt(s, IsIdentChar, |s|);
  }

  /** Reading written-out declarations followed by a tail that starts with
      a comma and holds no declaration gives them back. */
  lemma {:induction false} ScanRenderTail(ds: seq<Decl>, tail: string)
    requires WellWritten(ds) && ds != []
    requires tail != [] && tail[0] == ',' && Scan(tail) == Success([])
    ensures Scan(Render(ds) + tail) == Success(ds)
    decreases |ds|
  {
    if |ds| == 1 {
      ScanTailOne(ds[0], tail);
      assert ds == [ds[0]] + [];
    } else {
      ScanRenderTail(ds[1..], tail);
      RenderStart(ds[1..]);
      ScanTailStep(ds, tail);
    }
  }

  lemma ScanTailOne(d: Decl, tail: string)
    requires IsName(d.name) && ValueText(d.text)
    requires tail != [] && tail[0] == ',' && Scan(tail) == Success([])
    ensures Scan(Render([d]) + tail) == Success([d] + [])
  {
    var w := RenderDecl(d);
    RenderDeclShape(d);
    ScanDeclRender(d, tail);
    assert (w + tail)[0] == w[0];
    ScanStep(w + tail, d, tail, []);
  }

  lemma ScanTailStep(ds: seq<Decl>, tail: string)
    requires |ds| >= 2 && IsName(ds[0].name) && ValueText(ds[0].text)
    requires Render(ds[1..]) != [] && IsIdentChar(Render(ds[1..])[0])
    requires Scan(Render(ds[1..]) + tail) == Success(ds[1..])
    ensures Scan(Render(ds) + tail) == Success(ds)
  {
    var r := Render(ds[1..]);
    assert (r + tail)[0] == r[0];
    ScanRenderStep(ds[0], ds[1..], r + tail);
    RenderTailAssoc(ds, tail);
    HeadTail(ds);
  }

  lemma RenderTailAssoc(ds: seq<Decl>, tail: string)
    requires |ds| >= 2
    ensures Render(ds) + tail == RenderDecl(ds[0]) + (", " + (Render(ds[1..]) + tail))
  {
    var w := RenderDecl(ds[0]);
    var r := Render(ds[1..]);
    assert Render(ds) == w + (", " + r) by {
      RenderCons(ds);
    }
    SeparatorAssoc(w, r, tail);
  }

  lemma SeparatorAssoc(w: string, r: string, tail: string)
    ensures (w + (", " + r)) + tail == w + (", " + (r + tail))
    ensures w + (", " + r) == (w + ", ") + r
  {
  }

  /** The text after the last comma of a written-out list is its last
      declaration, so it is not blank. */
  lemma {:induction false} RenderNotBlank(ds: seq<Decl>)
    requires WellWritten(ds) && ds != []
    ensures !AllSpaces(LastSegment(Render(ds)))
    decreases |ds|
  {
    if |ds| == 1 {
      OneNotBlank(ds[0]);
    } else {
      RenderStart(ds[1..]);
      if ',' in Render(ds[1..]) {
        RenderNotBlank(ds[1..]);
      }
      NotBlankStep(ds);
    }
  }

  lemma OneNotBlank(d: Decl)
    requires IsName(d.name) && ValueText(d.text)
    ensures !AllSpaces(LastSegment(Render([d])))
  {
    var w := RenderDecl(d);
    RenderDeclShape(d);
    assert Render([d]) == w;
    WholeSegment(w);
    assert !IsSpace(w[0]);
  }

  /** A text without commas is its own last segment. */
  lemma WholeSegment(w: string)
    requires ',' !in w
    ensures LastSegment(w) == w
  {
    LastSegmentConcat([], w);
    assert [] + w == w;
  }

  lemma NotBlankStep(ds: seq<Decl>)
    requires |ds| >= 2
    requires Render(ds[1..]) != [] && IsIdentChar(Render(ds[1..])[0])
    requires ',' in Render(ds[1..]) ==> !AllSpaces(LastSegment(Render(ds[1..])))
    ensures !AllSpaces(LastSegment(Render(ds)))
  {
    var a := RenderDecl(ds[0]) + ", ";
    var r := Render(ds[1..]);
    assert Render(ds) == a + r by {
      RenderCons(ds);
      SeparatorAssoc(RenderDecl(ds[0]), r, []);
    }
    NotBlankConcat(a, r);
  }

  lemma NotBlankConcat(a: string, r: string)
    requires r != [] && IsIdentChar(r[0])
    requires ',' in r ==> !AllSpaces(LastSegment(r))
    ensures !AllSpaces(LastSegment(a + r))
  {
    LastSegmentConcat(a, r);
    if ',' !in r {
      assert (LastSegment(a) + r)[|LastSegment(a)|] == r[0];
    }
  }

  /** The macro's usual form: a written-out list closed by a comma and
      whitespace. The trailing comma adds no entry, and the list parses as
      it would without it. */
  lemma ParseRenderTrailing(sum: DigitSum, t: IntType, ds: seq<Decl>, ws: string)
    requires WellWritten(ds) && ds != [] && AllSpaces(ws)
    ensures EntryCount(Render(ds) + [','] + ws) == |ds|
    ensures var r := Parse(sum, t, Render(ds) + [','] + ws, |ds|);
            && (r.Success? <==> AllDecode(sum, t, ds))
            && (r.Success? ==> ImplicitRule(sum, t, ds, r.value, 0))
  {
    TrailingScan(ds, ws);
    ParseRule(sum, t, Render(ds) + [','] + ws, |ds|);
  }

  /** The list closed by a comma and whitespace reads back as the list, and
      is counted as it. */
  lemma TrailingScan(ds: seq<Decl>, ws: string)
    requires WellWritten(ds) && ds != [] && AllSpaces(ws)
    ensures Scan(Render(ds) + [','] + ws) == Success(ds)
    ensures EntryCount(Render(ds) + [','] + ws) == |ds|
  {
    TrailingRead(ds, ws);
    RenderNotBlank(ds);
    CountRender(ds);
    TrailingComma(Render(ds), ws);
  }

  lemma TrailingRead(ds: seq<Decl>, ws: string)
    requires WellWritten(ds) && ds != [] && AllSpaces(ws)
    ensures Scan(Render(ds) + [','] + ws) == Success(ds)
  {
    assert Render(ds) + [','] + ws == Render(ds) + ([','] + ws);
    ScanBlankTail(ws);
    ScanRenderTail(ds, [','] + ws);
  }

  /** A blank list (`ENUM_REFL(E, int)` or `ENUM_REFL(E, int, )`) has no
      entries. */
  lemma BlankParse(sum: DigitSum, t: IntType, text: string)
    requires AllSpaces(text)
    ensures EntryCount(text) == 0
    ensures Parse(sum, t, text, EntryCount(text)) == Success([])
  {
    BlankCount(text);
    FindFirstAt(text, IsIdentChar, |text|);
  }
}
