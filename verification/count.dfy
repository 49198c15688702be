/** `number_of_entries`: the count of enumerators in the stringified
    enumerator list, taken before the list is parsed and used as the size of
    the entry array. */
module Count {
  import opened Chars

  function Commas(s: string): nat {
    multiset(s)[',']
  }

  /** The text after the last comma, or all of `s` when it has none. */
  function LastSegment(s: string): string {
    if s == [] then []
    else if s[|s| - 1] == ',' then []
    else LastSegment(s[..|s| - 1]) + [s[|s| - 1]]
  }

  /** The number of entries the list declares: one per comma, plus one for
      a last entry that is not blank. A trailing comma therefore adds
      nothing, and a blank list declares none. */
  function EntryCount(s: string): nat {
    Commas(s) + if AllSpaces(LastSegment(s)) then 0 else 1
  }

  /** The source's loop: every comma counts and clears the "found
      something" flag, whitespace leaves it, anything else sets it; the
      flag adds one at the end. */
  method NumberOfEntries(s: string) returns (n: nat)
    ensures n == EntryCount(s)
  {
    var ret := 0;
    var found := false;
    for i := 0 to |s|
      invariant ret == Commas(s[..i])
      invariant found == !AllSpaces(LastSegment(s[..i]))
    {
      assert s[..i + 1] == s[..i] + [s[i]];
      assert s[..i + 1][..i] == s[..i];
      if s[i] == ',' {
        ret := ret + 1;
        found := false;
      } else if s[i] == ' ' || s[i] == '\t' || s[i] == '\r' || s[i] == '\n' {
        SpacesExtend(LastSegment(s[..i]), s[i]);
      } else {
        SpacesExtend(LastSegment(s[..i]), s[i]);
        found := true;
      }
    }
    assert s[..|s|] == s;
    n := ret + if found then 1 else 0;
  }

  lemma SpacesExtend(a: string, c: char)
    ensures AllSpaces(a + [c]) <==> AllSpaces(a) && IsSpace(c)
  {
    if AllSpaces(a + [c]) {
      assert forall i | 0 <= i < |a| :: a[i] == (a + [c])[i];
      assert (a + [c])[|a|] == c;
    }
  }

  // ---------------------------------------------------------------------
  // Properties of the count

  /** The last segment of a concatenation: that of the second part when it
      holds a comma, otherwise the first part's last segment extended by it. */
  lemma {:induction false} LastSegmentConcat(a: string, b: string)
    ensures ',' in b ==> LastSegment(a + b) == LastSegment(b)
    ensures ',' !in b ==> LastSegment(a + b) == LastSegment(a) + b
    decreases |b|
  {
    if b != [] {
      var b' := b[..|b| - 1];
      assert (a + b)[..|a + b| - 1] == a + b';
      assert b == b' + [b[|b| - 1]];
      LastSegmentConcat(a, b');
    } else {
      assert a + b == a;
    }
  }

  /** The count of `a + b` when `b` starts with a comma or another
      character that is not whitespace: the commas of `a` plus the count of `b`. */
  lemma CountSplit(a: string, b: string)
    requires b != [] && !IsSpace(b[0])
    ensures EntryCount(a + b) == Commas(a) + EntryCount(b)
  {
    assert multiset(a + b) == multiset(a) + multiset(b);
    LastSegmentConcat(a, b);
    LastSegmentConcat([], b);
    assert [] + b == b;
    if ',' !in b {
      assert (LastSegment(a) + b)[|LastSegment(a)|] == b[0];
    }
  }

  /** A text with no comma that does not start with whitespace declares one entry. */
  lemma OneSegment(s: string)
    requires s != [] && !IsSpace(s[0]) && ',' !in s
    ensures EntryCount(s) == 1
  {
    LastSegmentConcat([], s);
    assert [] + s == s;
    NoCommas(s);
  }

  /** A blank list (empty, or only spaces, tabs, CRs and LFs) declares no entries. */
  lemma BlankCount(s: string)
    ensures AllSpaces(s) <==> ',' !in s && EntryCount(s) == 0
  {
    LastSegmentConcat([], s);
    assert [] + s == s;
    if AllSpaces(s) {
      NoCommaInSpaces(s);
    }
  }

  lemma NoCommaInSpaces(s: string)
    requires AllSpaces(s)
    ensures ',' !in s
  {
  }

  lemma {:induction false} NoCommas(s: string)
    requires ',' !in s
    ensures Commas(s) == 0
  {
    if s != [] {
      assert s == [s[0]] + s[1..];
      assert multiset(s) == multiset([s[0]]) + multiset(s[1..]);
      NoCommas(s[1..]);
    }
  }

  /** A trailing comma, possibly followed by whitespace, adds nothing to a
      list whose last entry is not blank, and adds one blank entry's
      comma otherwise. */
  lemma TrailingComma(s: string, ws: string)
    requires AllSpaces(ws)
    ensures EntryCount(s + [','] + ws) == Commas(s) + 1
    ensures !AllSpaces(LastSegment(s)) ==> EntryCount(s + [','] + ws) == EntryCount(s)
  {
    var b := [','] + ws;
    assert s + [','] + ws == s + b;
    assert b[0] == ',';
    CountSplit(s, b);
    LastSegmentConcat([','], ws);
    assert LastSegment([',']) == [];
    assert [] + ws == ws;
    NoCommaInSpaces(ws);
    NoCommas(ws);
    assert multiset(b) == multiset([',']) + multiset(ws);
  }
}
