/** The reflection data of one enumeration, as the macro's container struct
    holds it, and the two public lookups `to_string` and `to_enum`. */
module Reflection {
  import opened Base
  import opened IntTypes
  import opened Count
  import opened Literal
  import opened Parser
  import opened ParserProofs
  import opened Tables

  /** `in_order_array`, `enum_to_string` and `string_to_enum`. */
  datatype Reflected = Reflected(entries: seq<Entry>, byValue: seq<Entry>, byName: seq<Entry>)

  /** Both tables are the entries, sorted by value and by name respectively. */
  predicate Valid(c: Reflected) {
    && multiset(c.byValue) == multiset(c.entries) && SortedBy(ByValue, c.byValue)
    && multiset(c.byName) == multiset(c.entries) && SortedBy(ByName, c.byName)
  }

  /** The container's initialisers, for the enumerator list `text` of an
      enumeration with underlying type `t`, built by the source's
      `build_in_order_array` (its own digit sum). The size is the count, so
      the "more entries" error never occurs. */
  method Reflect(t: IntType, text: string) returns (r: Result<Reflected>)
    ensures r.Success? <==> Parse(AsWritten, t, text, EntryCount(text)).Success?
    ensures r.Success? ==> r.value.entries == Parse(AsWritten, t, text, EntryCount(text)).value && Valid(r.value)
    ensures r.Failure? ==> r.error != MoreEntries
  {
    var n := NumberOfEntries(text);
    NoMoreEntries(AsWritten, t, text);
    match Parse(AsWritten, t, text, n)
    case Failure(e) =>
      r := Failure(e);
    case Success(es) =>
      r := Success(Reflected(es, SortBy(ByValue, es), SortBy(ByName, es)));
  }

  /** What `to_string(v)` returns: the name of the first entry with value
      `v` in the by-value table. */
  function StringOf(c: Reflected, v: int): Option<string> {
    match FirstMatch(ByValue, c.byValue, ValueKey(v))
    case None => None
    case Some(e) => Some(e.name)
  }

  /** What `to_enum(s)` returns: the value of the first entry named `s`
      in the by-name table. */
  function EnumOf(c: Reflected, s: string): Option<int> {
    match FirstMatch(ByName, c.byName, NameKey(s))
    case None => None
    case Some(e) => Some(e.value)
  }

  lemma InTable(table: seq<Entry>, entries: seq<Entry>, e: Entry)
    requires multiset(table) == multiset(entries)
    ensures e in table <==> e in entries
  {
    assert e in table <==> e in multiset(table);
    assert e in entries <==> e in multiset(entries);
  }

  /** `to_string`: a name exactly when some entry has the value, and then
      the name of such an entry. */
  method ToString(c: Reflected, v: int) returns (r: Option<string>)
    requires Valid(c)
    ensures r == StringOf(c, v)
    ensures r.Some? <==> exists i | 0 <= i < |c.entries| :: c.entries[i].value == v
    ensures r.Some? ==> Entry(v, r.value) in c.entries
  {
    var found := Lookup(ByValue, c.byValue, ValueKey(v));
    match found
    case None =>
      r := None;
      forall i | 0 <= i < |c.entries|
        ensures c.entries[i].value != v
      {
        InTable(c.byValue, c.entries, c.entries[i]);
        var j :| 0 <= j < |c.byValue| && c.byValue[j] == c.entries[i];
        assert KeyOf(ByValue, c.byValue[j]) != ValueKey(v);
      }
    case Some(e) =>
      r := Some(e.name);
      InTable(c.byValue, c.entries, e);
      assert e == Entry(v, e.name);
  }

  /** `to_enum`: a value exactly when some entry has the name, and then the
      value of such an entry. */
  method ToEnum(c: Reflected, s: string) returns (r: Option<int>)
    requires Valid(c)
    ensures r == EnumOf(c, s)
    ensures r.Some? <==> exists i | 0 <= i < |c.entries| :: c.entries[i].name == s
    ensures r.Some? ==> Entry(r.value, s) in c.entries
  {
    var found := Lookup(ByName, c.byName, NameKey(s));
    match found
    case None =>
      r := None;
      forall i | 0 <= i < |c.entries|
        ensures c.entries[i].name != s
      {
        InTable(c.byName, c.entries, c.entries[i]);
        var j :| 0 <= j < |c.byName| && c.byName[j] == c.entries[i];
        assert KeyOf(ByName, c.byName[j]) != NameKey(s);
      }
    case Some(e) =>
      r := Some(e.value);
      InTable(c.byName, c.entries, e);
      assert e == Entry(e.value, s);
  }

  // ---------------------------------------------------------------------
  // Round trips

  predicate UniqueNames(es: seq<Entry>) {
    forall i, j | 0 <= i < j < |es| :: es[i].name != es[j].name
  }

  predicate UniqueValues(es: seq<Entry>) {
    forall i, j | 0 <= i < j < |es| :: es[i].value != es[j].value
  }

  /** With distinct names, an entry's name leads back to that entry's value. */
  lemma EnumOfEntry(c: Reflected, e: Entry)
    requires Valid(c) && UniqueNames(c.entries) && e in c.entries
    ensures EnumOf(c, e.name) == Some(e.value)
  {
    InTable(c.byName, c.entries, e);
    var f := FirstMatch(ByName, c.byName, NameKey(e.name)).value;
    InTable(c.byName, c.entries, f);
    var i :| 0 <= i < |c.entries| && c.entries[i] == e;
    var j :| 0 <= j < |c.entries| && c.entries[j] == f;
    assert i == j;
  }

  /** With distinct values, an entry's value leads back to that entry's name. */
  lemma StringOfEntry(c: Reflected, e: Entry)
    requires Valid(c) && UniqueValues(c.entries) && e in c.entries
    ensures StringOf(c, e.value) == Some(e.name)
  {
    InTable(c.byValue, c.entries, e);
    var f := FirstMatch(ByValue, c.byValue, ValueKey(e.value)).value;
    InTable(c.byValue, c.entries, f);
    var i :| 0 <= i < |c.entries| && c.entries[i] == e;
    var j :| 0 <= j < |c.entries| && c.entries[j] == f;
    assert i == j;
  }

  /** `to_enum(to_string(v)) == v` for every value of the enumeration,
      when its names are distinct. */
  lemma RoundTripValue(c: Reflected, v: int)
    requires Valid(c) && UniqueNames(c.entries)
    requires StringOf(c, v).Some?
    ensures EnumOf(c, StringOf(c, v).value) == Some(v)
  {
    var e := FirstMatch(ByValue, c.byValue, ValueKey(v)).value;
    InTable(c.byValue, c.entries, e);
    EnumOfEntry(c, e);
  }

  /** `to_string(to_enum(s)) == s` for every name of the enumeration, when
      its values are distinct. */
  lemma RoundTripName(c: Reflected, s: string)
    requires Valid(c) && UniqueValues(c.entries)
    requires EnumOf(c, s).Some?
    ensures StringOf(c, EnumOf(c, s).value) == Some(s)
  {
    var e := FirstMatch(ByName, c.byName, NameKey(s)).value;
    InTable(c.byName, c.entries, e);
    StringOfEntry(c, e);
  }
}
