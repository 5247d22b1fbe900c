/** Ordering, equality and hashing. Each operation dispatches on the tags
    of its operands; each result depends only on the characters. */
module Compare {
  import opened JavaInt
  import opened Codecs
  import opened StringValue

  /** `compareTo`: same tags go to that codec's comparison, mixed tags to
      the codec that zero-extends the Narrow side. */
  function CompareTo(s: Str, t: Str): (r: int)
    ensures r == Lex(Units(s), Units(t))
  {
    match (s, t)
    case (Narrow(a), Narrow(b)) => Lex(a, b)   // StringLatin1.compareTo
    case (Wide(a), Wide(b)) => Lex(a, b)       // StringUTF16.compareTo
    case (Narrow(a), Wide(b)) => Lex(a, b)     // StringLatin1.compareToUTF16
    case (Wide(a), Narrow(b)) => Lex(a, b)     // StringUTF16.compareToLatin1
  }

  /** The documented result of `compareTo`, for every tag combination:
      the difference of the chars at the first index where the strings
      differ, or else the difference of the lengths. */
  lemma CompareToFirstDifference(s: Str, t: Str)
    ensures forall k :: (0 <= k < Min(Length(s), Length(t)) && Units(s)[..k] == Units(t)[..k]
                         && Units(s)[k] != Units(t)[k]) ==>
              CompareTo(s, t) == Units(s)[k] as int - Units(t)[k] as int
    ensures Units(s)[..Min(Length(s), Length(t))] == Units(t)[..Min(Length(s), Length(t))] ==>
              CompareTo(s, t) == Length(s) - Length(t)
  {
    LexFirstDifference(Units(s), Units(t));
  }

  /** Swapping the operands negates `compareTo`, so the signs are opposite. */
  lemma CompareToAntisymmetric(s: Str, t: Str)
    ensures CompareTo(s, t) == -CompareTo(t, s)
  {
    LexAntisymmetric(Units(s), Units(t));
  }

  /** `compareTo` orders strictly: precedence is transitive. */
  lemma CompareToTransitive(s: Str, t: Str, u: Str)
    requires CompareTo(s, t) < 0 && CompareTo(t, u) < 0
    ensures CompareTo(s, u) < 0
  {
    LexTransitive(Units(s), Units(t), Units(u));
  }

  /** `equals`: the same tag and the same buffer. No cross-tag comparison
      is made. */
  function Equals(s: Str, t: Str): (r: bool)
    ensures r ==> Units(s) == Units(t)
    ensures MixedTagsDistinct(s, t) && MixedTagsDistinct(t, s) ==> (r <==> Units(s) == Units(t))
  {
    match (s, t)
    case (Narrow(a), Narrow(b)) => a == b      // StringLatin1.equals
    case (Wide(a), Wide(b)) => a == b          // StringUTF16.equals
    case _ => false
  }

  /** In a process, `equals` is equality of content and `compareTo` is 0
      exactly when `equals` holds. */
  lemma CompareToZeroIffEquals(s: Str, t: Str, compact: bool)
    requires WellFormed(s, compact) && WellFormed(t, compact)
    ensures CompareTo(s, t) == 0 <==> Equals(s, t)
    ensures Equals(s, t) <==> Units(s) == Units(t)
  {
    WellFormedTagsDistinct(s, t, compact);
    LexZeroIffEqual(Units(s), Units(t));
  }

  /** `nonSyncContentEquals`: a builder of the same coder is compared buffer
      against buffer; a Narrow string against a UTF16 builder unit by unit;
      a Wide string against a LATIN1 builder is unequal at once. */
  function NonSyncContentEquals(s: Str, sb: Builder): (r: bool)
    requires ValidBuilder(sb)
    ensures r ==> Units(s) == BuilderUnits(sb)
    ensures MixedTagsDistinct(sb.buffer, s) ==> (r <==> Units(s) == BuilderUnits(sb))
  {
    var len := Length(s);
    if len != sb.count then false
    else
      match (s, sb.buffer)
      case (Narrow(a), Narrow(b)) => RangesAgree(a, 0, b, 0, |a|)
      case (Wide(a), Wide(b)) => RangesAgree(a, 0, b, 0, |a|)
      case (Wide(_), Narrow(_)) => false
      case (Narrow(a), Wide(b)) => RangesAgree(a, 0, b, 0, len)   // StringUTF16.contentEquals
  }

  /** The argument of `contentEquals(CharSequence)`: a builder, a string, or
      any other sequence of chars. */
  datatype CharSeq = BuilderSeq(sb: Builder) | StringSeq(str: Str) | OtherSeq(chars: seq<CodeUnit>)

  predicate ValidCharSeq(cs: CharSeq) {
    cs.BuilderSeq? ==> ValidBuilder(cs.sb)
  }

  function CharSeqUnits(cs: CharSeq): seq<CodeUnit>
    requires ValidCharSeq(cs)
  {
    match cs
    case BuilderSeq(sb) => BuilderUnits(sb)
    case StringSeq(t) => Units(t)
    case OtherSeq(c) => c
  }

  /** `contentEquals(CharSequence)`: a builder goes to
      `nonSyncContentEquals`, a string to `equals`, anything else is
      compared length first and then char by char. */
  function ContentEquals(s: Str, cs: CharSeq): (r: bool)
    requires ValidCharSeq(cs)
    ensures r ==> Units(s) == CharSeqUnits(cs)
    ensures cs.OtherSeq? ==> (r <==> Units(s) == CharSeqUnits(cs))
  {
    match cs
    case BuilderSeq(sb) => NonSyncContentEquals(s, sb)
    case StringSeq(t) => Equals(s, t)
    case OtherSeq(c) =>
      if |c| != Length(s) then false
      else
        match s
        case Narrow(a) => RangesAgree(a, 0, c, 0, |c|)
        case Wide(a) => RangesAgree(a, 0, c, 0, |c|)   // StringUTF16.contentEquals
  }

  /** In a process (strings well-formed, builders LATIN1 only under
      compaction), `contentEquals` is equality of content. */
  lemma ContentEqualsIsContentEquality(s: Str, cs: CharSeq, compact: bool)
    requires ValidCharSeq(cs)
    requires WellFormed(s, compact)
    requires cs.StringSeq? ==> WellFormed(cs.str, compact)
    requires cs.BuilderSeq? && cs.sb.buffer.Narrow? ==> compact
    ensures ContentEquals(s, cs) <==> Units(s) == CharSeqUnits(cs)
  {
    if cs.StringSeq? {
      WellFormedTagsDistinct(s, cs.str, compact);
    }
  }

  /** `hashCode`: the codec's hash of the buffer, 0 for the empty string. */
  function HashCode(s: Str): (r: Int32)
    ensures r == Wrap(Poly(Units(s)))
  {
    HashIsPolynomial(Units(s));
    if ByteLength(s) == 0 then 0
    else
      match s
      case Narrow(b) => Hash(b)    // StringLatin1.hashCode
      case Wide(c) => Hash(c)      // StringUTF16.hashCode
  }

  /** `hashCode` with its cache field: a zero field on a non-empty value is
      filled in; any other field is returned. While the field holds 0 or
      the hash, the answer is the hash and the field afterwards holds it. */
  function HashCodeCached(s: Str, cache: Int32): (r: (Int32, Int32))
    requires cache == 0 || cache == HashCode(s)
    ensures r.0 == Wrap(Poly(Units(s)))
    ensures r.1 == r.0
  {
    if cache == 0 && ByteLength(s) > 0 then (HashCode(s), HashCode(s)) else (cache, cache)
  }

  /** `equals` is consistent with `hashCode`. */
  lemma EqualsConsistentWithHash(s: Str, t: Str)
    requires Equals(s, t)
    ensures HashCode(s) == HashCode(t)
  {
  }
}
