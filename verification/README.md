# enum_reflection in Dafny

A model of the compile-time core of the C++ header-only library
`enum_reflection`. `ENUM_REFL(E, T, ...)` declares an enumeration and keeps
its enumerator list as text. At compile time that text is:

- **counted** (`number_of_entries`);
- **scanned** into (value, name) entries in declaration order
  (`build_in_order_array`). An explicit value is decoded as a C++ integer
  literal by `decode_value`. An implicit value is the previous entry's value
  plus one, starting at 0.
- **copied** into a table sorted by value and a table sorted by name
  (`build_enum_to_string_array`, `build_string_to_enum_array`).

The two lookups `to_string` and `to_enum` then search those tables. They
bisect with `lower_bound` from `binary_search_limit` = 8 entries on, and scan
linearly below that.

The modules follow that structure:

| file | module | what it holds |
|---|---|---|
| `base.dfy` | `Base` | the error kinds (one per `throw`, plus the two compile failures below), `Result`, `Option`, `Entry` |
| `chars.dfy` | `Chars` | character classes and `FindFirst` (the `find_if` / `find_first_not_of` searches) |
| `int_types.dfy` | `IntTypes` | the underlying type (width, signedness), its range, two's-complement wrapping, and one arithmetic step (`Arith`) |
| `count.dfy` | `Count` | `number_of_entries` as a loop, and its declarative count |
| `literal.dfy` | `Literal` | `decode_value`: trimming, signs, suffix, base, and the digit sum both as written and corrected |
| `literal_proofs.dfy` | `LiteralProofs` | what `decode_value` computes: sign parity, the rejection cases, base selection, the value of every well-formed literal |
| `decoder.dfy` | `Decoder` | the two loops of `decode_value` as loops, proved equal to the recursive definitions |
| `parser.dfy` | `Parser` | `build_in_order_array`: the scan, the implicit counter, the size checks, with the digit sum as a parameter |
| `parser_proofs.dfy` | `ParserProofs` | the implicit-value rule, "never more entries than counted", and reading back written-out lists |
| `tables.dfy` | `Tables` | the two orders, the sort, `lower_bound`, `find_if` and the shared lookup |
| `reflection.dfy` | `Reflection` | the container's three arrays, `to_string`, `to_enum` and their round trips |
| `examples.dfy` | `Examples` | the repository's test vectors as lemmas |

Decisions about the C++ semantics:

- **Integer types.** An underlying type is a width (8, 16, 32 or 64 bits)
  plus signedness. `decode_value` does its arithmetic in `Int`.
  - Unsigned types wrap modulo 2^bits.
  - `int8_t` and `int16_t` are promoted to `int`, so their arithmetic does
    not overflow, and narrowing back wraps.
  - For `int32_t` and `int64_t`, overflow is undefined behaviour. That
    makes the constant evaluation ill-formed, so the build fails. The model
    reports it as the error `Overflow`.
  - The product `get_value(c) * multiplier` is not stored back into `Int`,
    so for promoted types it stays exact.
- **Empty prefix.** After a `0x` or `0b` prefix with no digits, the loop
  bound `value.size() - 1` wraps around, so the constant evaluation cannot
  finish. The model reports this as `NoDigits`.
- **`get_value`.** It is modelled as written: it does not check a digit
  against its base, and gives `x` the value 33.
- **Counter and skipped text.**
  - The implicit counter does not wrap. After an entry whose value is the
    type's maximum, the next implicit value is the maximum again
    (`src/enum_reflection.h:188-190`).
  - After an identifier, any characters up to the next `=` or `,` are
    skipped (`src/enum_reflection.h:194`).
  - Overflow in `int` and `long long` fails the build (see above).
- **Sort tie order.** `std::ranges::sort` leaves the order of equal keys
  unspecified. The container is therefore modelled with any sorted
  permutation (`Reflection.Valid`), and the lookups are proved for all of
  them. `Tables.SortBy` is one such sort.

## Model

| member | source | states |
|---|---|---|
| Count.NumberOfEntries | src/enum_reflection.h:39-59 | the loop returns the number of commas, plus one when the text after the last comma holds something other than space, tab, CR or LF |
| Count.BlankCount | src/enum_reflection.h:39-59 | a list counts 0 entries and holds no comma exactly when it is empty or only whitespace |
| Count.TrailingComma | src/enum_reflection.h:39-59 | a comma and whitespace at the end add one comma's count and no entry; appended to a list whose last entry is not blank, the count does not change |
| Count.CountSplit | src/enum_reflection.h:43-58 | the count of `a + b`, when `b` starts with a non-blank character, is the commas of `a` plus the count of `b` |
| Count.OneSegment | src/enum_reflection.h:39-59 | a comma-free text that starts with a non-blank character counts one entry |
| IntTypes.Wrap | src/enum_reflection.h:130-151 | truncation to the type's width gives a value of the type that is congruent to the input modulo 2^bits, and leaves in-range values alone |
| IntTypes.Arith | src/enum_reflection.h:130-151 | an arithmetic step yields the exact value iff it fits, fails with `Overflow` iff the type does not wrap and the value does not fit, and otherwise yields the congruent value of the type |
| IntTypes.WrapStep | src/enum_reflection.h:132 | multiplying and adding preserves congruence modulo 2^bits, so wrapping early or late gives the same value |
| Literal.Trim | src/enum_reflection.h:67-74 | `trim` is empty exactly for all-whitespace text, and otherwise neither starts nor ends with whitespace |
| Literal.TrimEnd | src/enum_reflection.h:72-73 | dropping trailing whitespace leaves a prefix followed only by whitespace |
| LiteralProofs.TrimSlice | src/enum_reflection.h:67-74 | `trim` returns the slice between the leading and the trailing whitespace |
| LiteralProofs.TrimPadded | src/enum_reflection.h:67-74 | trimming text padded with whitespace gives the text back |
| Literal.SplitLiteral | src/enum_reflection.h:76-128 | splitting yields a numeral with digits in a base from {2, 8, 10, 16}, or one of the five rejection errors |
| Literal.SplitUnsigned | src/enum_reflection.h:90-128 | an unsigned literal yields a valid numeral or one of the suffix, numeral, base or empty-prefix errors |
| Literal.DigitValue | src/enum_reflection.h:135-143 | `get_value` gives decimal digits their value and `a`-`f`/`A`-`F` 10-15, and stays within 0..33 on the numeral characters |
| Literal.TruncDivRounds | src/enum_reflection.h:148 | C++ division truncates toward zero: the quotient times the divisor is the multiple of the divisor nearest the dividend on zero's side |
| Literal.Decode | src/enum_reflection.h:61-152 | `decode_value` (corrected) yields a value of the type or one of the six errors |
| Literal.DecodeAsWritten | src/enum_reflection.h:61-152 | `decode_value` as written yields a value of the type or one of the six errors |
| LiteralProofs.DecodeAgrees | src/enum_reflection.h:130-151 | where the leading weight of a literal fits the type, the source's decoder and the corrected one give the same result |
| LiteralProofs.StripLead | src/enum_reflection.h:76-88 | any mix of whitespace and signs before a numeral is consumed, and the numeral is negative iff the number of `-` is odd |
| LiteralProofs.SplitAfterSign | src/enum_reflection.h:82-88 | after trimming, a `-` flips the sign, a `+` keeps it, and the rest is decoded again |
| LiteralProofs.SplitNoSign | src/enum_reflection.h:76-105 | without a sign, the trimmed text is split as an unsigned literal |
| LiteralProofs.SplitEmptyIff | src/enum_reflection.h:76-80 | "empty value" is reported exactly when the text is nothing but whitespace and signs |
| LiteralProofs.DecodeEmptyIff | src/enum_reflection.h:76-80 | the same for the whole decoder, with either digit sum |
| LiteralProofs.RejectionCases | src/enum_reflection.h:90-128 | for a numeral behind signs and whitespace, each rejection happens exactly in its case: non-letter suffix, non-digit start, unknown base letter, `0x`/`0b` with no digits; and success exactly otherwise |
| LiteralProofs.UnsignedCases | src/enum_reflection.h:90-128 | the same case analysis for an unsigned literal |
| LiteralProofs.SplitSpelling | src/enum_reflection.h:76-128 | a well-formed literal (signs, prefix, digits, letter suffix, whitespace) splits into its digits, the base its prefix names and the parity of its minus signs; a lone `0` gives zero |
| LiteralProofs.SplitCore | src/enum_reflection.h:105-128 | base selection: `0x`/`0X` is 16, `0b`/`0B` is 2, `0` then digits is 8, a nonzero digit is 10, and the suffix is discarded |
| LiteralProofs.PosValueSnoc | src/enum_reflection.h:145-151 | appending a digit multiplies the positional value by the base and adds the digit |
| LiteralProofs.LeadingZeros | src/enum_reflection.h:145-151 | leading zero digits do not change the positional value |
| LiteralProofs.HornerSumValue | src/enum_reflection.h:145-151 | digit-by-digit accumulation computes the positional value |
| LiteralProofs.HornerValue | src/enum_reflection.h:145-151 | the corrected digit sum in the type is the positional value taken into the type |
| LiteralProofs.HornerExact | src/enum_reflection.h:145-151 | in a type that does not wrap, a partial sum overflows only if the final value does |
| LiteralProofs.HornerWrapsSum | src/enum_reflection.h:145-151 | in a type that wraps, the digit sum is the exact sum wrapped |
| LiteralProofs.EvaluateValue | src/enum_reflection.h:130-151 | the corrected evaluation of a numeral is its signed positional value taken into the type |
| LiteralProofs.ScaleExact | src/enum_reflection.h:130-133 | while ±base^(len-1) fits the type, the multiplier loop computes it exactly |
| LiteralProofs.WeightedValue | src/enum_reflection.h:145-151 | started from the exact leading weight, the source's digit sum is the signed positional value taken into the type |
| LiteralProofs.WeightedZero | src/enum_reflection.h:145-149 | once the multiplier is 0, the remaining digits add nothing |
| LiteralProofs.EvaluateAsWrittenValue | src/enum_reflection.h:130-151 | when the leading weight fits the type, the source's evaluation equals the corrected one and is the signed positional value |
| LiteralProofs.DecodeSpelling | src/enum_reflection.h:61-152 | every well-formed literal decodes to its mathematical value, wrapped where the type wraps and `Overflow` where it does not and the value does not fit |
| LiteralProofs.DecodeAsWrittenSpelling | src/enum_reflection.h:61-152 | the source's decoder gives the same when the leading weight fits |
| Decoder.ScaleLoop | src/enum_reflection.h:130-133 | the `multiplier *= base` loop computes the recursive multiplier |
| Decoder.SumLoop | src/enum_reflection.h:145-151 | the `ret += get_value(c) * multiplier; multiplier /= base` loop computes the recursive digit sum |
| Decoder.DecodeValue | src/enum_reflection.h:61-152 | the decoder with both loops is the source's decoder, and where the leading weight fits it agrees with the corrected one |
| Parser.Next | src/enum_reflection.h:185-191 | the counter after an entry is one more, except at the type's maximum, where it stays |
| Parser.ScanDecl | src/enum_reflection.h:178-183 | the identifier is the maximal nonempty run of `[A-Za-z0-9_-]` at the scan position, and the rest is empty or starts at a comma |
| Parser.ScanTail | src/enum_reflection.h:193-205 | after the identifier the scan goes on at the next comma, or reads a value after `=`; a value text starts with an identifier character and holds no comma |
| Parser.ScanValue | src/enum_reflection.h:207-215 | after `=`, a value must follow ("Expected value after equals") and runs to the next comma |
| Parser.Scan | src/enum_reflection.h:172-221 | the declarations of a list each carry a nonempty identifier, or the scan fails with "Expected value after equals" |
| Parser.Build | src/enum_reflection.h:154-228 | with either digit sum, the loop either fails with one of the source's errors or returns exactly N entries, all values of the type, extending those found so far |
| Parser.Parse | src/enum_reflection.h:154-228 | `build_in_order_array` returns exactly N entries of the type or fails, with the source's digit sum (`AsWritten`) and with the corrected one |
| ParserProofs.BuildScan | src/enum_reflection.h:172-227 | for either digit sum, from any position the loop succeeds iff the declarations scan, their number makes N, and every explicit value decodes; the entries then follow the implicit-value rule from the current counter |
| ParserProofs.ParseRule | src/enum_reflection.h:154-228 | for either digit sum, `build_in_order_array` succeeds iff the list scans into exactly N declarations whose explicit values all decode, and then entry `i` has declaration `i`'s name and its decoded value, or the previous value plus one (0 first, saturating at the maximum) |
| ParserProofs.RuleCons | src/enum_reflection.h:185-220 | one entry, then the rule from the next counter, is the rule for the longer list |
| ParserProofs.AllDecodeCons | src/enum_reflection.h:217 | every explicit value of a longer list decodes iff the first's does and the rest do |
| ParserProofs.RuleStep | src/enum_reflection.h:185-191 | an implicit entry is the counter after the previous one |
| ParserProofs.ImplicitRun | src/enum_reflection.h:185-191 | a run of implicit entries counts on by one from the last explicit value and stays at the maximum once it reaches it |
| ParserProofs.ImplicitPrefix | src/enum_reflection.h:162-191 | a list starting with `i + 1` implicit entries numbers them 0..i, capped at the maximum |
| ParserProofs.NoMoreEntries | src/enum_reflection.h:16-19 | sized by `number_of_entries`, the parser never reports "Found more entries than expected" |
| ParserProofs.BuildNotMore | src/enum_reflection.h:173-176 | while the entries found plus those the rest of the text can still hold are at most N, the "more entries" error cannot occur |
| ParserProofs.DeclPotential | src/enum_reflection.h:178-219 | a declaration consumes at least one of the entries the count gives its text |
| ParserProofs.ScanDeclRender | src/enum_reflection.h:178-215 | a written-out declaration followed by a comma or nothing is read back as itself |
| ParserProofs.TailRender | src/enum_reflection.h:193-215 | the text after a written-out identifier is read back as its value text |
| ParserProofs.ScanSkip | src/enum_reflection.h:173 | characters that cannot start an identifier are skipped |
| ParserProofs.ScanRender | src/enum_reflection.h:172-221 | a list of written-out declarations separated by ", " scans back to those declarations |
| ParserProofs.ScanRenderTail | src/enum_reflection.h:172-221 | the same with a trailing comma and whitespace |
| ParserProofs.CountRender | src/enum_reflection.h:39-59 | a written-out list counts one entry per declaration |
| ParserProofs.RenderNotBlank | src/enum_reflection.h:54-58 | the text after the last comma of a written-out list is not blank |
| ParserProofs.ParseRender | src/enum_reflection.h:154-228 | for either digit sum, a written-out list, sized by its count, parses iff every explicit value decodes, into entries that follow the implicit-value rule |
| ParserProofs.ParseRenderTrailing | src/enum_reflection.h:154-228 | with the macro's trailing comma and whitespace, the count is still one per declaration and the list parses as it would without them |
| ParserProofs.BlankParse | src/enum_reflection.h:39-59 | a blank list counts no entries and parses to none |
| ParserProofs.BuildAgrees | src/enum_reflection.h:172-227 | where every explicit value's leading weight fits, the loop gives the same result with the source's digit sum as with the corrected one |
| ParserProofs.ParseAgrees | src/enum_reflection.h:154-228 | the same for `build_in_order_array` as a whole |
| Tables.NameLessIrreflexive | src/enum_reflection.h:242 | no name is less than itself |
| Tables.NameLessTransitive | src/enum_reflection.h:242 | `<` on names is transitive |
| Tables.NameLessTotal | src/enum_reflection.h:242 | any two different names are ordered |
| Tables.LessTransitive | src/enum_reflection.h:234-242 | the sort keys are ordered transitively |
| Tables.LessTotal | src/enum_reflection.h:234-242 | keys of one kind are equal or ordered |
| Tables.Insert | src/enum_reflection.h:230-244 | inserting into a sorted table keeps it sorted and adds exactly the entry |
| Tables.SortBy | src/enum_reflection.h:230-244 | the sorted copy is a permutation of the entries, non-decreasing by value or by name |
| Tables.FirstMatch | src/enum_reflection.h:288-297 | a matching entry is found iff some entry has the key, and it has the key |
| Tables.LowerBound | src/enum_reflection.h:286-287 | bisection returns the index that splits the sorted table into keys less than `k` and keys not less than `k` |
| Tables.FindIf | src/enum_reflection.h:293 | the linear search returns the first index with the key, or the end |
| Tables.LinearLookup | src/enum_reflection.h:293-297 | the linear branch returns the first entry with the key |
| Tables.BinaryLookup | src/enum_reflection.h:285-291 | the bisecting branch returns the same first entry with the key |
| Tables.FirstMatchAt | src/enum_reflection.h:288-297 | the first entry with the key is at the first index whose key matches |
| Tables.Lookup | src/enum_reflection.h:280-321 | both branches, chosen by `binary_search_limit`, give the first entry of the sorted table with the key; found iff present |
| Reflection.Reflect | src/enum_reflection.h:16-25 | the container is built iff the list parses, with the source's digit sum, at its own count; its entries are the parsed ones and its tables are sorted permutations; "more entries" never occurs |
| Reflection.ToString | src/enum_reflection.h:280-299 | `to_string(v)` gives a name iff some entry has value `v`, and then it is the name of such an entry |
| Reflection.ToEnum | src/enum_reflection.h:301-321 | `to_enum(s)` gives a value iff some entry is named `s`, and then it is the value of such an entry |
| Reflection.EnumOfEntry | src/enum_reflection.h:301-321 | with distinct names, an entry's name looks up that entry's value |
| Reflection.StringOfEntry | src/enum_reflection.h:280-299 | with distinct values, an entry's value looks up that entry's name |
| Reflection.RoundTripValue | src/enum_reflection.h:280-321 | with distinct names, `to_enum(*to_string(v)) == v` for every value that has a name |
| Reflection.RoundTripName | src/enum_reflection.h:280-321 | with distinct values, `to_string(*to_enum(s)) == s` for every name that has a value |
| Examples.IntHex | src/main.cpp:84 | `0x1234` in `int` is 0x1234, by both digit sums |
| Examples.IntOctal | src/main.cpp:84 | `01234` in `int` is 668, by both digit sums |
| Examples.IntBinary | src/main.cpp:84 | `0b1010` in `int` is 10, by both digit sums |
| Examples.IntNegativeHex | src/main.cpp:88 | `-0x1234l` in `int` is -0x1234, by both digit sums |
| Examples.IntPlusOctal | src/enum_reflection.h:86-88 | a leading `+` is dropped without changing the sign: `+01234ul` in `int` is 668, by both digit sums |
| Examples.IntOctalSuffix | src/main.cpp:87-89 | `01234ul` in `int` is 668, by both digit sums; it is also the text the `+01234ul` test hands the decoder, since the scanner starts a value at its first identifier character |
| Examples.IntNegativeBinary | src/main.cpp:88 | `-0b1010ll` in `int` is -10, by both digit sums |
| Examples.UInt8HexMax | src/main.cpp:104 | `0xff` in `uint8_t` is 255, by both digit sums |
| Examples.UInt8OctalMax | src/main.cpp:105 | `0377` in `uint8_t` is 255, by both digit sums |
| Examples.Int8HexMax | src/main.cpp:108 | `0x7f` in `int8_t` is 127, by both digit sums |
| Examples.Int8HexMin | src/main.cpp:108 | `-0x80` in `int8_t` is -128, by both digit sums |
| Examples.Int8OctalMax | src/main.cpp:109 | `0177` in `int8_t` is 127, by both digit sums |
| Examples.Int8OctalMin | src/main.cpp:109 | `-0200` in `int8_t` is -128, by both digit sums |
| Examples.Int32HexMax | src/main.cpp:124 | `0x7fffffff` in `int32_t` is its maximum, by both digit sums |
| Examples.Int32HexMin | src/main.cpp:124 | `-0x80000000l` in `int32_t` is its minimum, by both digit sums |
| Examples.UInt64HexMax | src/main.cpp:128 | `0xffffffffffffffffull` in `uint64_t` is its maximum, by both digit sums |
| Examples.ParseTenThenImplicit | src/main.cpp:80 | `VAL1 = 10, VAL2, VAL3,` counts 3 entries and parses to 10, 11, 12 with either digit sum |
| Examples.ParseTenMinusTen | src/main.cpp:82 | `VAL1 = 10, VAL2 = -10, VAL3,` parses to 10, -10, -9 with either digit sum: `-` is an identifier character, so the value handed to the decoder keeps its sign |
| Examples.ParseDescending | src/main.cpp:83 | `VAL1 = 3, VAL2 = 2, VAL3 = 1,` parses to 3, 2, 1 in list order with either digit sum |
| Examples.ParseUInt8Limits | src/main.cpp:104 | `VAL1 = 0xff, VAL2 = 0x00, VAL3,` in `uint8_t` parses to 255, 0, 1 with either digit sum: after the minimum comes the minimum plus one |
| Examples.ParseAlias | src/enum_reflection.h:185-220 | `A = 3, B = 2, C` parses to (3, A), (2, B), (3, C) with either digit sum: an implicit value counts on from the entry before it |
| Examples.AliasLookups | src/enum_reflection.h:280-321 | on those entries `to_enum("C")` is 3, `to_string(3)` is `A` or `C`, `to_string(2)` is `B`, and unknown keys give nothing |
| Examples.ParseEmpty | src/main.cpp:137-145 | empty and blank lists count no entries and parse to none with either digit sum |
| Examples.LeadingZeroWraps | src/enum_reflection.h:130-151 | `0x0ff` in `uint8_t` is 0 by the source's digit sum and 255 by the corrected one |
| Examples.LeadingZeroOverflows | src/enum_reflection.h:130-151 | `0x000000001` in `int` overflows in the source's multiplier loop, and is 1 by the corrected digit sum |
| Examples.LeadingZeroInList | src/enum_reflection.h:154-228 | `A = 0x0ff, B` in `uint8_t` parses to (0, A), (1, B) by the source's digit sum, and to (255, A), (255, B) by the corrected one |

## Left out

- The macros `ENUM_REFL_IMPL`, `ENUM_REFL` and `ENUM_REFL_NESTED` (`src/enum_reflection.h:10-31`). They are preprocessor stringification and an ADL hook. The model takes the enumerator text as input. Its whitespace is whatever the stringification leaves.
- The `enum_refl` concept, `is_enum_refl` and the `entries*()` accessors (`src/enum_reflection.h:248-278`). They are type-level dispatch with no behaviour. The container is the record `Reflection.Reflected`.
- Which alias wins among equal values or names. The order of equal keys after `std::ranges::sort` is unspecified, so lookups are stated as "the first match in the sorted table" and hold for every tie order.
- The conversion of a table lookup's key from `Enum` or `String` to the underlying value or `std::string_view`. Values are `int`s within the type's range, and names are character sequences compared byte-wise.
- `int64_t` test vectors. `src/main.cpp` has none, and the 64-bit signed type is modelled by the same rules as the others.
- The long enumeration `Test4` (`src/main.cpp:151-184`). It is not parsed as a concrete example. The lookups it exercises are proved for tables of every size by `Tables.Lookup`.
- `Examples.ParseTenThenImplicit`, `Examples.ParseTenMinusTen`, `Examples.ParseUInt8Limits`: these use the lists of `src/main.cpp:80`, `src/main.cpp:82` and `src/main.cpp:104` without the space that stringification leaves before each comma that follows an empty value. The scanner skips them, but that is not stated as a lemma for this concrete text.
- Compile-time evaluation limits, such as the constant evaluator's step limit. They are the reason `0x` with no digits fails, and the model reports that directly as `NoDigits`.
- No lemma exhibits the "Found less entries than expected" error. It is reachable, e.g. with an empty entry `A, , B` counted as three. `Reflection.Reflect` only states that the container is built exactly when the parse succeeds.

## Findings

| source | as written | input that shows it | evidently intended | confidence | as-written member | corrected member |
|---|---|---|---|---|---|---|
| src/enum_reflection.h:130-151 | The multiplier starts at ±base^(len-1), computed in `Int`, where `len` counts every digit, leading zeros included. When that power leaves `Int`'s range but the literal's value does not, the weights go wrong. In a type that wraps (unsigned, or promoted `int8_t`/`int16_t`), the multiplier wraps, e.g. to 0, and the sum is wrong. In `int`/`long long` the multiplication overflows, which is undefined behaviour, so the build fails. | `0x0ff` as `uint8_t`: 16^2 wraps to 0, so the result is 0. `0x000000001` as `int`: 16^8 overflows, so the build fails. | The literal's value: 255 and 1, as for the same literals without leading zeros. | not executed | Literal.DecodeAsWritten, Examples.LeadingZeroWraps, Examples.LeadingZeroOverflows, Examples.LeadingZeroInList | Literal.Decode, LiteralProofs.DecodeSpelling, ParserProofs.ParseAgrees |

The corrected decoder accumulates the digits most significant first
(`ret = ret * base + digit`), in the type. Every partial sum then lies
between 0 and the final value, so it overflows only when the value does.
`LiteralProofs.DecodeSpelling` proves that it gives every well-formed literal
its value in the type, leading zeros included.
`LiteralProofs.EvaluateAsWrittenValue`, `LiteralProofs.DecodeAsWrittenSpelling`
and `LiteralProofs.DecodeAgrees` show that the source's digit sum agrees with
it whenever the leading weight fits. That covers every literal in the
repository's tests.

The parser takes the digit sum as a parameter (`Literal.DigitSum`).
`Parse(AsWritten, ...)` is the source's `build_in_order_array`, and
`Reflection.Reflect` is built on it. `Parse(Corrected, ...)` is the fixed
one. `ParserProofs.ParseAgrees` shows that the two give the same entries
whenever every explicit value's leading weight fits, and
`Examples.LeadingZeroInList` shows a list on which they differ. The general
results about the parser (`ParserProofs.ParseRule` and the lemmas around it)
hold for both.
