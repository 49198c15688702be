/** `build_enum_to_string_array`, `build_string_to_enum_array` and the
    search both lookups share: the entries sorted by value and by name, and
    a lookup that uses `std::ranges::lower_bound` on tables of at least
    `binary_search_limit` entries and a linear `find_if` on smaller ones. */
module Tables {
  import opened Base

  /** `binary_search_limit`: from this many entries on, lookups bisect. */
  const BinarySearchLimit: nat := 8

  /** Which field a table is sorted by and searched on. */
  datatype Order = ByValue | ByName

  /** The projection of the lookups: `a.first` or `a.second`. */
  datatype Key = ValueKey(v: int) | NameKey(s: string)

  function KeyOf(o: Order, e: Entry): Key {
    match o
    case ByValue => ValueKey(e.value)
    case ByName => NameKey(e.name)
  }

  predicate KindOf(o: Order, k: Key) {
    match o
    case ByValue => k.ValueKey?
    case ByName => k.NameKey?
  }

  /** `std::string_view`'s `<`: lexicographic by character, a proper
      prefix before the longer string. */
  predicate NameLess(a: string, b: string)
    decreases |a|
  {
    if a == [] then b != []
    else if b == [] then false
    else if a[0] != b[0] then a[0] < b[0]
    else NameLess(a[1..], b[1..])
  }

  /** The comparison of the sorts and of `lower_bound`: `<` on the
      underlying value, or on the name. Keys of different kinds are
      never compared. */
  predicate Less(a: Key, b: Key) {
    match (a, b)
    case (ValueKey(x), ValueKey(y)) => x < y
    case (NameKey(x), NameKey(y)) => NameLess(x, y)
    case _ => false
  }

  // ---------------------------------------------------------------------
  // `<` on names is a strict total order

  lemma {:induction false} NameLessIrreflexive(a: string)
    ensures !NameLess(a, a)
    decreases |a|
  {
    if a != [] {
      NameLessIrreflexive(a[1..]);
    }
  }

  lemma {:induction false} NameLessTransitive(a: string, b: string, c: string)
    requires NameLess(a, b) && NameLess(b, c)
    ensures NameLess(a, c)
    decreases |a|
  {
    if a != [] && b != [] && c != [] && a[0] == b[0] && b[0] == c[0] {
      NameLessTransitive(a[1..], b[1..], c[1..]);
    }
  }

  lemma {:induction false} NameLessTotal(a: string, b: string)
    ensures NameLess(a, b) || a == b || NameLess(b, a)
    decreases |a|
  {
    if a != [] && b != [] && a[0] == b[0] {
      NameLessTotal(a[1..], b[1..]);
      if a[1..] == b[1..] {
        assert a == [a[0]] + a[1..] && b == [b[0]] + b[1..];
      }
    }
  }

  lemma LessIrreflexive(a: Key)
    ensures !Less(a, a)
  {
    if a.NameKey? {
      NameLessIrreflexive(a.s);
    }
  }

  lemma LessTransitive(a: Key, b: Key, c: Key)
    requires Less(a, b) && Less(b, c)
    ensures Less(a, c)
  {
    if a.NameKey? {
      NameLessTransitive(a.s, b.s, c.s);
    }
  }

  lemma LessTotal(a: Key, b: Key)
    requires a.ValueKey? == b.ValueKey?
    ensures Less(a, b) || a == b || Less(b, a)
  {
    if a.NameKey? {
      NameLessTotal(a.s, b.s);
    }
  }

  /** From the three laws: `!(b < a)` and `b < c` give `a < c`, and so on. */
  lemma LessAfterLe(a: Key, b: Key, c: Key)
    requires a.ValueKey? == b.ValueKey? && !Less(b, a) && Less(b, c)
    ensures Less(a, c)
  {
    LessTotal(a, b);
    if Less(a, b) {
      LessTransitive(a, b, c);
    }
  }

  lemma LeAfterLe(a: Key, b: Key, c: Key)
    requires a.ValueKey? == b.ValueKey? == c.ValueKey? && !Less(b, a) && !Less(c, b)
    ensures !Less(c, a)
  {
    if Less(c, a) {
      LessAfterLe(b, c, a);
      LessIrreflexive(b);
      LessTransitive(b, a, b);
    }
  }

  // ---------------------------------------------------------------------
  // Sorting

  /** Non-decreasing by the order's key: no later entry is less than an earlier one. */
  predicate SortedBy(o: Order, xs: seq<Entry>) {
    forall i, j | 0 <= i < j < |xs| :: !Less(KeyOf(o, xs[j]), KeyOf(o, xs[i]))
  }

  /** Inserts `x` before the first entry that is not less than it. */
  function Insert(o: Order, x: Entry, xs: seq<Entry>): (r: seq<Entry>)
    requires SortedBy(o, xs)
    ensures multiset(r) == multiset(xs) + multiset{x}
    ensures SortedBy(o, r)
  {
    if xs == [] then [x]
    else if Less(KeyOf(o, xs[0]), KeyOf(o, x)) then
      var rest := Insert(o, x, xs[1..]);
      assert xs == [xs[0]] + xs[1..];
      InsertAfterHead(o, x, xs, rest);
      [xs[0]] + rest
    else
      InsertAtHead(o, x, xs);
      [x] + xs
  }

  lemma InsertAtHead(o: Order, x: Entry, xs: seq<Entry>)
    requires SortedBy(o, xs) && xs != [] && !Less(KeyOf(o, xs[0]), KeyOf(o, x))
    ensures SortedBy(o, [x] + xs)
  {
    var r := [x] + xs;
    forall i, j | 0 <= i < j < |r|
      ensures !Less(KeyOf(o, r[j]), KeyOf(o, r[i]))
    {
      if i == 0 {
        assert r[j] == xs[j - 1];
        if j > 1 {
          LeAfterLe(KeyOf(o, x), KeyOf(o, xs[0]), KeyOf(o, xs[j - 1]));
        }
      } else {
        assert r[i] == xs[i - 1] && r[j] == xs[j - 1];
      }
    }
  }

  lemma InsertAfterHead(o: Order, x: Entry, xs: seq<Entry>, rest: seq<Entry>)
    requires SortedBy(o, xs) && xs != [] && Less(KeyOf(o, xs[0]), KeyOf(o, x))
    requires SortedBy(o, rest) && multiset(rest) == multiset(xs[1..]) + multiset{x}
    ensures SortedBy(o, [xs[0]] + rest)
  {
    var r := [xs[0]] + rest;
    forall j | 0 < j < |r|
      ensures !Less(KeyOf(o, r[j]), KeyOf(o, xs[0]))
    {
      assert r[j] == rest[j - 1];
      assert r[j] in multiset(rest);
      if r[j] == x {
        if Less(KeyOf(o, x), KeyOf(o, xs[0])) {
          LessTransitive(KeyOf(o, x), KeyOf(o, xs[0]), KeyOf(o, x));
          LessIrreflexive(KeyOf(o, x));
        }
      } else {
        assert r[j] in multiset(xs[1..]);
        var k :| 0 <= k < |xs[1..]| && xs[1..][k] == r[j];
        assert xs[k + 1] == r[j];
      }
    }
    forall i, j | 0 <= i < j < |r|
      ensures !Less(KeyOf(o, r[j]), KeyOf(o, r[i]))
    {
      if i > 0 {
        assert r[i] == rest[i - 1] && r[j] == rest[j - 1];
      }
    }
  }

  /** `std::ranges::sort` on a copy of the entries. Its tie order is
      unspecified; this is one sorted permutation, and the lookups below
      are proved for every sorted table. */
  function SortBy(o: Order, es: seq<Entry>): (r: seq<Entry>)
    ensures multiset(r) == multiset(es)
    ensures SortedBy(o, r)
  {
    if es == [] then []
    else
      assert es == [es[0]] + es[1..];
      Insert(o, es[0], SortBy(o, es[1..]))
  }

  // ---------------------------------------------------------------------
  // Lookup

  /** The first entry of the table with key `k`: what both search branches return. */
  function FirstMatch(o: Order, table: seq<Entry>, k: Key): (r: Option<Entry>)
    ensures r.Some? <==> exists i | 0 <= i < |table| :: KeyOf(o, table[i]) == k
    ensures r.Some? ==> r.value in table && KeyOf(o, r.value) == k
  {
    if table == [] then None
    else if KeyOf(o, table[0]) == k then Some(table[0])
    else
      var r := FirstMatch(o, table[1..], k);
      assert forall i | 0 < i < |table| :: table[i] == table[1..][i - 1];
      assert r.Some? ==> r.value in table[1..];
      r
  }

  /** `std::ranges::lower_bound` with `std::less` on the projected key:
      the index of the first entry that is not less than `k`. */
  method LowerBound(o: Order, table: seq<Entry>, k: Key) returns (lo: nat)
    requires SortedBy(o, table) && KindOf(o, k)
    ensures lo <= |table|
    ensures forall i | 0 <= i < lo :: Less(KeyOf(o, table[i]), k)
    ensures forall i | lo <= i < |table| :: !Less(KeyOf(o, table[i]), k)
  {
    lo := 0;
    var count := |table|;
    while count > 0
      invariant 0 <= count && lo + count <= |table|
      invariant forall i | 0 <= i < lo :: Less(KeyOf(o, table[i]), k)
      invariant forall i | lo + count <= i < |table| :: !Less(KeyOf(o, table[i]), k)
      decreases count
    {
      var step := count / 2;
      var it := lo + step;
      if Less(KeyOf(o, table[it]), k) {
        forall i | lo <= i <= it
          ensures Less(KeyOf(o, table[i]), k)
        {
          if i < it {
            LessAfterLe(KeyOf(o, table[i]), KeyOf(o, table[it]), k);
          }
        }
        lo := it + 1;
        count := count - (step + 1);
      } else {
        forall i | it <= i < lo + count
          ensures !Less(KeyOf(o, table[i]), k)
        {
          if it < i {
            LeAfterLe(k, KeyOf(o, table[it]), KeyOf(o, table[i]));
          }
        }
        count := step;
      }
    }
  }

  /** `std::ranges::find_if` on the projected key. */
  method FindIf(o: Order, table: seq<Entry>, k: Key) returns (i: nat)
    ensures i <= |table|
    ensures forall j | 0 <= j < i :: KeyOf(o, table[j]) != k
    ensures i < |table| ==> KeyOf(o, table[i]) == k
  {
    i := 0;
    while i < |table| && KeyOf(o, table[i]) != k
      invariant i <= |table|
      invariant forall j | 0 <= j < i :: KeyOf(o, table[j]) != k
    {
      i := i + 1;
    }
  }

  /** The linear branch: the first entry with key `k`, if any. */
  method LinearLookup(o: Order, table: seq<Entry>, k: Key) returns (r: Option<Entry>)
    ensures r == FirstMatch(o, table, k)
  {
    var i := FindIf(o, table, k);
    if i == |table| {
      r := None;
    } else {
      r := Some(table[i]);
    }
    FirstMatchAt(o, table, k, i);
  }

  /** The bisecting branch: the entry at the lower bound, if its key is `k`. */
  method BinaryLookup(o: Order, table: seq<Entry>, k: Key) returns (r: Option<Entry>)
    requires SortedBy(o, table) && KindOf(o, k)
    ensures r == FirstMatch(o, table, k)
  {
    var lo := LowerBound(o, table, k);
    if lo == |table| || KeyOf(o, table[lo]) != k {
      r := None;
      forall i | 0 <= i < |table|
        ensures KeyOf(o, table[i]) != k
      {
        if i < lo {
          LessIrreflexive(k);
        } else if KeyOf(o, table[i]) == k {
          assert !Less(KeyOf(o, table[lo]), k);
          LessTotal(KeyOf(o, table[lo]), k);
        }
      }
      FirstMatchAt(o, table, k, |table|);
    } else {
      r := Some(table[lo]);
      forall j | 0 <= j < lo
        ensures KeyOf(o, table[j]) != k
      {
        LessIrreflexive(k);
      }
      FirstMatchAt(o, table, k, lo);
    }
  }

  /** `FirstMatch` is the entry at the first index whose key is `k`. */
  lemma {:induction false} FirstMatchAt(o: Order, table: seq<Entry>, k: Key, i: nat)
    requires i <= |table|
    requires forall j | 0 <= j < i :: KeyOf(o, table[j]) != k
    requires i < |table| ==> KeyOf(o, table[i]) == k
    ensures FirstMatch(o, table, k) == if i < |table| then Some(table[i]) else None
    decreases i
  {
    if i > 0 {
      assert KeyOf(o, table[0]) != k;
      FirstMatchAt(o, table[1..], k, i - 1);
    }
  }

  /** The lookup `to_string` and `to_enum` share: bisection on tables of
      at least `BinarySearchLimit` entries, a linear scan otherwise. Both
      give the first entry of the sorted table with the key. */
  method Lookup(o: Order, table: seq<Entry>, k: Key) returns (r: Option<Entry>)
    requires SortedBy(o, table) && KindOf(o, k)
    ensures r == FirstMatch(o, table, k)
    ensures r.Some? <==> exists i | 0 <= i < |table| :: KeyOf(o, table[i]) == k
    ensures r.Some? ==> r.value in table && KeyOf(o, r.value) == k
  {
    if |table| >= BinarySearchLimit {
      r := BinaryLookup(o, table, k);
    } else {
      r := LinearLookup(o, table, k);
    }
  }
}
