/** The constructors that choose a representation for new content, and the
    one-char `valueOf`. Each runs the representation selector, so each
    result is well-formed and is the unique value for its content. */
module Construct {
  import opened Failures
  import opened Codecs
  import opened StringValue
  import Bounds

  /** The package-private `String(char[] value, int off, int len, Void)`:
      its callers have checked the range. An empty range gives `""`; else
      the chars are compressed to bytes when compaction is on and they all
      fit, and kept as units otherwise. */
  function FromCharsUnchecked(compact: bool, value: seq<CodeUnit>, off: nat, len: nat): (r: Str)
    requires off + len <= |value|
    ensures len == 0 ==> r == Empty(compact)
    ensures Units(r) == value[off..off + len]
    ensures r.Narrow? <==> compact && AllLatin1(value[off..off + len])
    ensures WellFormed(r, compact)
  {
    if len == 0 then Empty(compact)
    else
      var slice := value[off..off + len];
      if compact && Compress(slice).Some? then Narrow(Compress(slice).value)
      else Wide(slice)
  }

  /** `String(char[] value, int offset, int count)`: the range check, then
      the selector. */
  function FromChars(compact: bool, value: seq<CodeUnit>, offset: int, count: int): (r: Result<Str>)
    ensures r.Err? <==> offset < 0 || count < 0 || offset + count > |value|
    ensures r.Err? ==> r.error == StringIndexOutOfBounds
    ensures r.Ok? ==> Units(r.value) == value[offset..offset + count]
    ensures r.Ok? ==> r.value == Select(compact, value[offset..offset + count])
  {
    match Bounds.CheckBoundsOffCount(offset, count, |value|)
    case Fail(e) => Err(e)
    case Pass => Ok(FromCharsUnchecked(compact, value, offset, count))
  }

  /** The UTF-16 encoding of a run of code points, or nothing when one of
      them is not a valid code point. */
  function EncodeCodePoints(cps: seq<int>): (r: Option<seq<CodeUnit>>)
    ensures r.Some? <==> forall i :: 0 <= i < |cps| ==> 0 <= cps[i] <= MaxCodePoint
    ensures r.Some? ==> |r.value| >= |cps|
    ensures AllLatin1(cps) ==> r == Some(cps)
    decreases |cps|
  {
    if |cps| == 0 then Some([])
    else
      assert AllLatin1(cps) ==> AllLatin1(cps[1..]) && cps == [cps[0]] + cps[1..] by {
        if AllLatin1(cps) {
          forall i | 0 <= i < |cps[1..]| ensures 0 <= cps[1..][i] < 0x100 {
            assert cps[1..][i] == cps[i + 1];
          }
        }
      }
      match CodePointUnits(cps[0])
      case None => None
      case Some(head) =>
        match EncodeCodePoints(cps[1..])
        case None => None
        case Some(tail) => Some(head + tail)
  }

  /** A valid code point above 0xFF leaves a unit above 0xFF in the
      encoding: a BMP unit keeps its value, a supplementary one gives a
      surrogate. */
  lemma {:induction false} EncodingKeepsWideUnit(cps: seq<int>, i: int)
    requires 0 <= i < |cps| && cps[i] >= 0x100
    requires EncodeCodePoints(cps).Some?
    ensures !AllLatin1(EncodeCodePoints(cps).value)
    decreases |cps|
  {
    var head := CodePointUnits(cps[0]).value;
    var tail := EncodeCodePoints(cps[1..]).value;
    assert EncodeCodePoints(cps).value == head + tail;
    if i == 0 {
      assert (head + tail)[0] == head[0];
    } else {
      assert cps[1..][i - 1] == cps[i];
      EncodingKeepsWideUnit(cps[1..], i - 1);
      var j :| 0 <= j < |tail| && !(0 <= tail[j] < 0x100);
      assert (head + tail)[|head| + j] == tail[j];
    }
  }

  /** `String(int[] codePoints, int offset, int count)`: the range check,
      `""` for an empty range, bytes when compaction is on and every code
      point fits, else the UTF-16 encoding, which rejects an invalid code
      point. */
  function FromCodePoints(compact: bool, codePoints: seq<int>, offset: int, count: int): (r: Result<Str>)
    ensures r.Err? && r.error == StringIndexOutOfBounds <==>
              offset < 0 || count < 0 || offset + count > |codePoints|
    ensures r.Err? && r.error == IllegalArgument <==>
              0 <= offset && 0 <= count && offset + count <= |codePoints|
              && exists i :: offset <= i < offset + count && !(0 <= codePoints[i] <= MaxCodePoint)
    ensures r.Ok? ==> count == 0 ==> r.value == Empty(compact)
    ensures r.Ok? ==> Some(Units(r.value)) == EncodeCodePoints(codePoints[offset..offset + count])
    ensures r.Ok? ==> (r.value.Narrow? <==> compact && AllLatin1(codePoints[offset..offset + count]))
    ensures r.Ok? ==> WellFormed(r.value, compact)
  {
    if Bounds.CheckBoundsOffCount(offset, count, |codePoints|).Fail? then Err(StringIndexOutOfBounds)
    else
    var slice := codePoints[offset..offset + count];
    assert forall i :: offset <= i < offset + count ==> codePoints[i] == slice[i - offset];
    if count == 0 then Ok(Empty(compact))
    else if compact && AllLatin1(slice) then
      var bytes := seq(count, i requires 0 <= i < count => slice[i] as Latin1);
      assert bytes == slice;
      Ok(Narrow(bytes))
    else
      match EncodeCodePoints(slice)
      case None => Err(IllegalArgument)
      case Some(units) =>
        assert compact ==> !AllLatin1(units) by {
          if compact {
            var i :| 0 <= i < |slice| && !(0 <= slice[i] < 0x100);
            EncodingKeepsWideUnit(slice, i);
          }
        }
        Ok(Wide(units))
  }

  /** The package-private `String(AbstractStringBuilder asb, Void)`: a
      LATIN1 builder's bytes are copied as they are; a UTF16 builder's
      chars are compressed when compaction is on and they all fit. A
      builder only holds bytes while compaction is on; under that
      invariant the copy is the selected value of the builder's chars. */
  function FromBuilder(compact: bool, sb: Builder): (r: Str)
    requires ValidBuilder(sb)
    ensures Units(r) == BuilderUnits(sb)
    ensures sb.buffer.Narrow? ==> r.Narrow?
    ensures (sb.buffer.Narrow? ==> compact) ==> WellFormed(r, compact) && r == Select(compact, BuilderUnits(sb))
  {
    var units := BuilderUnits(sb);
    if sb.buffer.Narrow? then
      assert AllLatin1(units);
      Narrow(sb.buffer.bytes[..sb.count])
    else if compact && Compress(units).Some? then Narrow(Compress(units).value)
    else Wide(units)
  }

  /** `valueOf(char c)`: one byte when compaction is on and `c` fits, one
      unit otherwise. */
  function ValueOfChar(compact: bool, c: CodeUnit): (r: Str)
    ensures Units(r) == [c] && WellFormed(r, compact)
    ensures r.Narrow? <==> compact && c < 0x100
  {
    if compact && c < 0x100 then Narrow([c])
    else
      assert [c][0] == c;
      Wide([c])
  }
}
