# Compact strings of `java.lang.String`

This project models the compact-string core of `java.lang.String` and proves properties of it.

A `String` keeps its chars in a `byte[] value` together with a `coder`:

- **LATIN1** holds one byte per char.
- **UTF16** holds two bytes per UTF-16 code unit.

When the process-wide `COMPACT_STRINGS` flag is on, every constructor that builds from chars or code points picks LATIN1 exactly when each char fits in a byte. The copy constructor keeps its argument's coder, and the builder constructor keeps a LATIN1 builder LATIN1. Every public operation must behave as if it worked on the plain sequence of UTF-16 code units, whatever the coders of its operands.

The model represents these pieces as follows:

- **A value** is the closed datatype `Str = Narrow(seq<Latin1>) | Wide(seq<CodeUnit>)` (module `StringValue`). The observable content is `Units(s)`, the sequence of code units. The `Wide` buffer is modelled as its units rather than as pairs of bytes.
- **`COMPACT_STRINGS`** is an explicit `compact: bool` parameter.
- **The coder invariant** is `WellFormed(s, compact)`:
  - with compaction on, a Wide value holds some unit above `0xFF`;
  - with compaction off, every value is Wide.

  It is proved to make the representation of a content unique (`RepresentationUnique`).
- **The per-coder codecs** `StringLatin1` and `StringUTF16` are not part of this model. Module `Codecs` specifies each of them only by a reference definition over units:
  - `Lex` for `compareTo`;
  - `FirstMatch` / `LastMatch` with `IsLeftmost` / `IsRightmost` for `indexOf` / `lastIndexOf`;
  - `Hash` and `Poly` for `hashCode`;
  - `CodePointCountOf`;
  - `CodePointUnits` for `Character.toChars`.
- **Java `int` arithmetic** (module `JavaInt`) is modelled by `Wrap`, the 32-bit two's-complement reduction. It is used where the source relies on overflow: in `hashCode` and in the size hint of `replace`.
- **Exceptions** become the error kinds of `Failures.Result`:
  - `StringIndexOutOfBounds`;
  - `IndexOutOfBounds`;
  - `IllegalArgument`;
  - `OutOfMemory`.

The module layout is as follows:

| module | contents |
|---|---|
| `Bounds` | the four static range checks |
| `Construct` | the constructors and `valueOf(char)` |
| `Compare` | `equals`, `compareTo`, `contentEquals`, `hashCode` |
| `Search` | the shared `indexOf` / `lastIndexOf` primitives, `regionMatches`, `startsWith`, `endsWith` |
| `Transform` | `substring`, `concat`, `repeat` |
| `Replace` | literal `replace(CharSequence, CharSequence)` |
| `Split` | the one-char fast path of `split`, against a declarative description `IsFastSplit` of its result |
| `Scenarios` | worked instances |

For each operation, the model shows several things:

- The tag dispatch computes the same answer as the reference definition over units, for every tag combination the coder invariant allows.
- The operations that build values keep the invariant.
- Each operation meets a partner:
  - an inverse (`ConcatSubstringRoundTrip`);
  - a uniqueness lemma (`SplitSpecUnique`, `LeftmostUnique`);
  - or an ordering law (`CompareToAntisymmetric`, `CompareToTransitive`).

## Model

| member | source | states |
|---|---|---|
| Bounds.CheckIndex | src/java.base/share/classes/java/lang/String.java:4430-4435 | passes exactly when `0 <= index < length`, otherwise fails with a string-index error |
| Bounds.CheckOffset | src/java.base/share/classes/java/lang/String.java:4441-4446 | passes exactly when `0 <= offset <= length` (both ends included), otherwise a string-index error |
| Bounds.CheckBoundsOffCount | src/java.base/share/classes/java/lang/String.java:4460-4465 | the overflow-safe comparison `offset > length - count` accepts exactly the ranges with `0 <= offset`, `0 <= count`, `offset + count <= length` |
| Bounds.CheckBoundsBeginEnd | src/java.base/share/classes/java/lang/String.java:4475-4480 | passes exactly when `0 <= begin <= end <= length`, otherwise a string-index error |
| Bounds.BeginEndIsOffCount | src/java.base/share/classes/java/lang/String.java:4460-4480 | the begin/end check and the offset/count check accept the same ranges |
| StringValue.Length | src/java.base/share/classes/java/lang/String.java:899-901 | the byte length shifted by the coder is the number of code units, for both tags |
| StringValue.Select | src/java.base/share/classes/java/lang/String.java:4361-4377 | the selector keeps the units, picks Narrow exactly when compaction is on and every unit fits in a byte, and yields a well-formed value |
| StringValue.RepresentationUnique | src/java.base/share/classes/java/lang/String.java:4361-4377 | two well-formed values with the same units are the same value, tag included |
| StringValue.SelectOfUnits | src/java.base/share/classes/java/lang/String.java:345-349 | a well-formed value is what the selector builds from its own units, so copying a value's buffer and coder is the same as re-selecting |
| StringValue.WellFormedTagsDistinct | src/java.base/share/classes/java/lang/String.java:1441-1443 | under the invariant a Narrow value and a Wide value never hold the same content, which the mixed-tag short-circuits rely on |
| StringValue.CharAt | src/java.base/share/classes/java/lang/String.java:950-956 | succeeds exactly for indices inside the value and returns the unit there, otherwise a string-index error |
| StringValue.CodePointCount | src/java.base/share/classes/java/lang/String.java:1093-1102 | fails with an index error exactly when the range is not inside the value, otherwise counts the code points of the slice |
| Codecs.Compress | src/java.base/share/classes/java/lang/String.java:4367-4373 | compression succeeds exactly when every unit fits in a byte and then keeps the units |
| Codecs.FirstMatch | src/java.base/share/classes/java/lang/String.java:2357-2385 | the codec's forward search returns the leftmost match at or after `from`, or -1 when there is none |
| Codecs.LastMatch | src/java.base/share/classes/java/lang/String.java:2468-2498 | the codec's backward search returns the rightmost match at or before `from`, or -1 when there is none |
| Codecs.LeftmostUnique | src/java.base/share/classes/java/lang/String.java:2357-2385 | the leftmost-match description has at most one answer |
| Codecs.RightmostUnique | src/java.base/share/classes/java/lang/String.java:2468-2498 | the rightmost-match description has at most one answer |
| Codecs.NoWideNeedleInLatin1 | src/java.base/share/classes/java/lang/String.java:2380-2381 | a needle holding a unit above `0xFF` matches nowhere in a haystack of byte-sized units |
| Codecs.LexFirstDifference | src/java.base/share/classes/java/lang/String.java:1592-1621 | lexicographic order is the difference of the units at the first index where they differ, or the length difference when one is a prefix of the other |
| Codecs.LexAntisymmetric | src/java.base/share/classes/java/lang/String.java:1568-1652 | swapping the operands negates the result |
| Codecs.LexZeroIffEqual | src/java.base/share/classes/java/lang/String.java:1580-1585 | the order is zero exactly on equal unit sequences |
| Codecs.LexTransitive | src/java.base/share/classes/java/lang/String.java:1568-1652 | "less than" is transitive |
| Codecs.PolySnoc | src/java.base/share/classes/java/lang/String.java:2040-2050 | the exact polynomial grows by one Horner step `31 * h + c` per appended unit |
| Codecs.HashIsPolynomial | src/java.base/share/classes/java/lang/String.java:2040-2065 | the codec's wrapping Horner loop equals `s[0]*31^(n-1) + ... + s[n-1]` reduced to a Java `int` |
| Codecs.CodePointCountLatin1 | src/java.base/share/classes/java/lang/String.java:1093-1102 | on byte-sized units the code-point count is simply the length |
| Codecs.CodePointUnits | src/java.base/share/classes/java/lang/String.java:4493-4504 | a valid code point is encoded as itself below `0x10000` and otherwise as a high/low surrogate pair that decodes back to it |
| JavaInt.Wrap | src/java.base/share/classes/java/lang/String.java:2058-2065 | the reduction is congruent to its argument modulo 2^32 and leaves `int`-range values alone |
| JavaInt.WrapStep | src/java.base/share/classes/java/lang/String.java:2058-2065 | wrapping after each Horner step gives the same result as wrapping once at the end |
| JavaInt.WrapOverflow | src/java.base/share/classes/java/lang/String.java:2955-2958 | a non-negative sum below 2^32 wraps to a negative `int` exactly when it exceeds `Integer.MAX_VALUE` |
| Construct.FromCharsUnchecked | src/java.base/share/classes/java/lang/String.java:4361-4377 | an empty range gives the canonical empty value; otherwise the units are the slice and the value is Narrow exactly when compaction is on and the slice is byte-sized |
| Construct.FromChars | src/java.base/share/classes/java/lang/String.java:396-406 | a string-index error exactly when the range is outside the array; otherwise the selected value of the slice |
| Construct.EncodeCodePoints | src/java.base/share/classes/java/lang/String.java:447-464 | encoding succeeds exactly when every code point is valid, never shrinks, and keeps byte-sized input unchanged |
| Construct.EncodingKeepsWideUnit | src/java.base/share/classes/java/lang/String.java:447-464 | a code point above `0xFF` leaves a unit above `0xFF` in the encoding, so such input is never compressed |
| Construct.FromCodePoints | src/java.base/share/classes/java/lang/String.java:447-464 | a string-index error exactly for a bad range; an illegal-argument error exactly for an invalid code point inside a good range; otherwise a well-formed value whose units encode the slice, Narrow exactly when compaction is on and the slice is byte-sized |
| Construct.FromBuilder | src/java.base/share/classes/java/lang/String.java:4383-4401 | the copy holds the builder's used units and keeps a LATIN1 builder LATIN1; when the builder holds bytes only under compaction, the copy is the selected, well-formed value of those units |
| Construct.ValueOfChar | src/java.base/share/classes/java/lang/String.java:4138-4143 | a one-unit value, Narrow exactly when compaction is on and the char fits in a byte |
| Compare.CompareTo | src/java.base/share/classes/java/lang/String.java:1653-1662 | all four tag combinations give lexicographic order on units |
| Compare.CompareToFirstDifference | src/java.base/share/classes/java/lang/String.java:1592-1621 | the result is `this.charAt(k) - other.charAt(k)` at the first difference, or the length difference |
| Compare.CompareToAntisymmetric | src/java.base/share/classes/java/lang/String.java:1568-1662 | swapping the operands negates the result |
| Compare.CompareToTransitive | src/java.base/share/classes/java/lang/String.java:1568-1662 | the order is transitive |
| Compare.Equals | src/java.base/share/classes/java/lang/String.java:1376-1388 | a true answer means equal units; when the mixed-tag cases cannot hold equal content, it is true exactly on equal units |
| Compare.CompareToZeroIffEquals | src/java.base/share/classes/java/lang/String.java:1580-1590 | on well-formed values `compareTo` is zero exactly when `equals` holds, and that is exactly content equality |
| Compare.NonSyncContentEquals | src/java.base/share/classes/java/lang/String.java:1426-1447 | a true answer means the string and the builder's used part hold equal units; if the builder cannot be Narrow with Wide-only content, it is true exactly then |
| Compare.ContentEquals | src/java.base/share/classes/java/lang/String.java:1477-1510 | a true answer means equal content; for a general char sequence, it is true exactly on equal content |
| Compare.ContentEqualsIsContentEquality | src/java.base/share/classes/java/lang/String.java:1477-1510 | for well-formed operands, every branch decides content equality |
| Compare.HashCode | src/java.base/share/classes/java/lang/String.java:2058-2065 | the hash is the 31-polynomial of the units in 32-bit wrapping arithmetic, for either tag |
| Compare.HashCodeCached | src/java.base/share/classes/java/lang/String.java:2058-2065 | with an empty or correct cache, the answer and the new cache are the polynomial hash |
| Compare.EqualsConsistentWithHash | src/java.base/share/classes/java/lang/String.java:1376-1388 | equal strings have equal hash codes |
| Search.IndexOf | src/java.base/share/classes/java/lang/String.java:2357-2385 | `fromIndex >= srcCount` gives `srcCount` for an empty needle and -1 otherwise; an empty needle gives the clamped `fromIndex`; any other answer is a match at or after the clamped start; under the tag invariant, the answer is the leftmost match or -1 |
| Search.IndexOfFrom | src/java.base/share/classes/java/lang/String.java:2330-2332 | the answer is a match at or after the clamped start, and under the tag invariant it is the leftmost one |
| Search.IndexOfString | src/java.base/share/classes/java/lang/String.java:2292-2301 | any answer other than -1 is a match; under the tag invariant the answer is the leftmost match from 0, or -1 |
| Search.LastIndexOf | src/java.base/share/classes/java/lang/String.java:2468-2498 | any answer is a match at or before `fromIndex`; an empty needle gives `min(fromIndex, srcCount)` or -1; under the tag invariant it is the rightmost match |
| Search.LastIndexOfFrom | src/java.base/share/classes/java/lang/String.java:2441-2443 | any answer other than -1 is a match at or before `fromIndex`; under the tag invariant it is the rightmost such match, or -1 |
| Search.IndexOfChar | src/java.base/share/classes/java/lang/String.java:2167-2170 | an invalid code point is never found; otherwise the answer is the leftmost occurrence of its UTF-16 encoding from the clamped start |
| Search.RegionMatches | src/java.base/share/classes/java/lang/String.java:1799-1837 | true exactly when both offsets are non-negative, both regions fit (no overflow), and the units agree on the first `len` positions, for every tag mix; a `len <= 0` that passes the checks is true |
| Search.StartsWith | src/java.base/share/classes/java/lang/String.java:1965-1993 | true means the prefix occurs at `toffset`; under the tag invariant it is true exactly then |
| Search.StartsWithPrefix | src/java.base/share/classes/java/lang/String.java:2014-2016 | true exactly when the prefix's units begin the string, under the tag invariant |
| Search.EndsWith | src/java.base/share/classes/java/lang/String.java:2035-2037 | true exactly when the suffix's units end the string, under the tag invariant |
| Transform.NewString | src/java.base/share/classes/java/lang/String.java:2586-2587 | a slice keeps the units; a Narrow source gives Narrow; a well-formed source gives the selected value of the slice |
| Transform.Substring | src/java.base/share/classes/java/lang/String.java:2579-2588 | a string-index error exactly when `begin < 0`, `begin > end` or `end > length`; the full range returns the receiver; otherwise the units are the slice and the value is re-selected |
| Transform.SubstringFrom | src/java.base/share/classes/java/lang/String.java:2527-2540 | an error exactly for a begin outside `[0, length]`; 0 returns the receiver; otherwise the suffix, re-selected |
| Transform.Concat | src/java.base/share/classes/java/lang/String.java:2666-2684 | the units are the concatenation; an empty argument returns the receiver; equal tags keep the tag; differing tags with a non-empty argument give Wide; well-formedness is kept |
| Transform.ConcatSubstringRoundTrip | src/java.base/share/classes/java/lang/String.java:2666-2684 | substrings of a concatenation at the seam give back both operands |
| Transform.RepeatAdd | src/java.base/share/classes/java/lang/String.java:4310-4315 | `a` copies followed by `b` copies are `a + b` copies, which is what each doubling step relies on |
| Transform.RepeatMonotone | src/java.base/share/classes/java/lang/String.java:4310-4315 | fewer copies form a prefix of more copies, so the filled prefix of the buffer holds whole copies |
| Transform.RepeatBuffer | src/java.base/share/classes/java/lang/String.java:4306-4315 | the prefix-doubling copy loop fills the buffer with exactly `count` copies of the value |
| Transform.RepeatTagged | src/java.base/share/classes/java/lang/String.java:4299-4316 | the result has `count` copies of the units, keeps the tag, has `count` times the byte length, and stays well-formed |
| Transform.Repeat | src/java.base/share/classes/java/lang/String.java:4288-4317 | a negative count is exactly the illegal-argument case; 1 returns the receiver; 0 or an empty receiver gives `""`; the out-of-memory error is raised exactly when `MAX_VALUE / count < len` with `len > 1`; otherwise `count` copies, with the tag kept, a byte length that fits in an `int`, and the invariant kept |
| Replace.NextOccurrence | src/java.base/share/classes/java/lang/String.java:2963-2964 | any positive answer of the loop's next search is a later occurrence that does not overlap the current one; under the tag invariant it is the next such occurrence, the loop stops when there is none, and an empty target steps by one |
| Replace.ReplaceBuffer | src/java.base/share/classes/java/lang/String.java:2959-2966 | starting at the first occurrence, the append loop builds the left-to-right, non-overlapping replacement of every occurrence |
| Replace.ReplaceLiteral | src/java.base/share/classes/java/lang/String.java:2945-2967 | no occurrence returns the receiver; a new value is always the selected one of its units; under the tag invariant the result is the left-to-right replacement, and out of memory is raised exactly when there is an occurrence and the size hint overflows an `int` |
| Replace.NoMatchIsIdentity | src/java.base/share/classes/java/lang/String.java:2948-2951 | replacing a target that occurs nowhere changes nothing |
| Split.JoinUnique | src/java.base/share/classes/java/lang/String.java:3119-3153 | two part lists with delimiter-free parts before the last and the same join are equal, or the shorter one has the delimiter in its last part |
| Split.SplitSpecUnique | src/java.base/share/classes/java/lang/String.java:2995-3024 | the documented limit semantics admit at most one result, for every limit |
| Split.FastPathChar | src/java.base/share/classes/java/lang/String.java:3108-3118 | the fast path is taken exactly for one char that is not a regex metachar, or a backslash and a char that is not an ASCII letter or digit, provided the char is not a surrogate; the delimiter is the last char |
| Split.CutParts | src/java.base/share/classes/java/lang/String.java:3119-3137 | the scan either stops when the limit is reached, with parts that join back to the receiver, or consumes every delimiter, with the parts so far joining the consumed prefix; parts stay well-formed |
| Split.SplitFast | src/java.base/share/classes/java/lang/String.java:3119-3152 | the parts meet the documented limit semantics: `[this]` with no delimiter; at most `limit` parts, the last holding the rest, for `limit > 0`; every part with `limit < 0`; trailing empty parts dropped for `limit == 0`; joining with the delimiter gives back the receiver when the limit is not zero |
| Split.Split | src/java.base/share/classes/java/lang/String.java:3102-3155 | the regular-expression engine is used exactly when the pattern is not a fast-path char; otherwise the result meets the limit semantics |
| Split.ColonLimitTwo | src/java.base/share/classes/java/lang/String.java:3045-3047 | `"boo:and:foo"` split on `:` with limit 2 can only be `["boo", "and:foo"]` |
| Split.ColonParts | src/java.base/share/classes/java/lang/String.java:3048-3053 | `["boo", "and", "foo"]` is a delimiter-free decomposition of `"boo:and:foo"` on `:` |
| Split.ColonUnlimited | src/java.base/share/classes/java/lang/String.java:3048-3053 | with limit 5, -2 or 0 the result on `:` can only be `["boo", "and", "foo"]` |
| Split.LetterOParts | src/java.base/share/classes/java/lang/String.java:3054-3059 | `["b", "", ":and:f", "", ""]` is a delimiter-free decomposition of `"boo:and:foo"` on `o` |
| Split.LetterOUnlimited | src/java.base/share/classes/java/lang/String.java:3054-3059 | with limit 5 or -2 the result on `o` can only be `["b", "", ":and:f", "", ""]` |
| Split.LetterOZero | src/java.base/share/classes/java/lang/String.java:3060-3062 | with limit 0 the trailing empty parts go and the result is `["b", "", ":and:f"]` |
| Scenarios.HelloIsNarrow | src/java.base/share/classes/java/lang/String.java:396-398 | `"hello"` built from chars with compaction on is Narrow, has length 5, and has `'o'` at 4 |
| Scenarios.SupplementaryIsWide | src/java.base/share/classes/java/lang/String.java:447-464 | U+1F600 gives a Wide surrogate pair of length 2 and one code point |
| Scenarios.WideNeedleNotFoundInNarrow | src/java.base/share/classes/java/lang/String.java:2380-2381 | a Wide needle that breaks the invariant is reported absent from a Narrow haystack even though its content occurs there |
| Scenarios.RepeatThrice | src/java.base/share/classes/java/lang/String.java:4288-4317 | `"ab".repeat(3)` is the Narrow `"ababab"` |
| Scenarios.RepeatEdges | src/java.base/share/classes/java/lang/String.java:4288-4297 | `repeat(0)` is `""` and `repeat(-1)` is an illegal-argument error |

## Left out

- Charset constructors and `getBytes`: they delegate to `StringCoding`, which is not part of this model.
- `matches`, `replaceFirst`, `replaceAll` and the general path of `split` are left out because they use `java.util.regex`. `Split.Split` returns `Delegated` for a pattern the fast path does not take and says nothing further about it.
- Case mapping, `equalsIgnoreCase`, `compareToIgnoreCase`, `strip*`, `isBlank` and `lines` are left out because they need Unicode tables and locales.
- `format` and `valueOf(float/double)`: formatting and floating point.
- `intern`, `join`, `chars` / `codePoints` and the serialization fields: native code, `StringJoiner`, and streams.
- The `synchronized` `StringBuffer` branch of `contentEquals`: concurrency. `Compare.ContentEquals` covers builders through `NonSyncContentEquals` only.
- The racy write of the `hash` field: `Compare.HashCodeCached` models a single thread's view, in which the cache only memoises `HashCode`.
- JIT annotations and intrinsics are not modelled. `COMPACT_STRINGS` is a parameter rather than a static final field.
- Code-point accessors other than `codePointCount`, `lastIndexOf(int ch)` and `indexOf(int ch)` without `fromIndex` are not modelled. They are thin wrappers around the same codec calls.
- Exception messages are not modelled; only the exception kind is.
- Transform.NewString: `StringUTF16.newString` is not part of this model. A Wide slice is assumed to be compressed again when its content fits in bytes and compaction is on, so the value is re-selected.
- Transform.Concat: the `byte[]` size overflow of a concatenation longer than `Integer.MAX_VALUE` is not modelled, since values have no length bound here.
- Replace.ReplaceLiteral: the `StringBuilder` growth beyond `Integer.MAX_VALUE` while appending is not modelled. Only the explicit negative size-hint check raises out-of-memory.
- Transform.RepeatBuffer: the `byte[]` under construction is modelled by its filled prefix as a sequence. The doubling and the final partial copy are kept; the unfilled tail is not represented.
- Split.FastPathChar: the sign test `((ch-'0')|('9'-ch)) < 0` is modelled by what it means for a 16-bit char: `ch - lo < 0 || hi - ch < 0`.
- Compare.Equals: the mixed-tag branches answer false by tag alone. The contract therefore states content equality only when the tags cannot both hold the same content, as the invariant guarantees.
- Search.IndexOf: the Narrow-haystack / Wide-needle branch returns -1 without looking. The javadoc of `indexOf(String)` promises the first index where the needle's chars occur, which is 1 for a Wide needle holding only `'b'` in Narrow `"abc"`; the code returns -1, the model follows the code, and `Scenarios.WideNeedleNotFoundInNarrow` records that case. Such a needle cannot be built while the invariant holds.
- Search.IndexOfString: it reaches the same short-circuit through the shared primitive, so its leftmost answer is stated under the tag invariant only.
- Search.LastIndexOfFrom: the shared backward primitive has the same short-circuit, so its rightmost answer is stated under the tag invariant only.
- Replace.NextOccurrence: the loop searches with `indexOf(String)`, so a Wide target is never found in a Narrow receiver; the next occurrence is stated under the tag invariant only.
- Replace.ReplaceLiteral: for the same reason, the replacement result and the out-of-memory condition are stated under the tag invariant only.
