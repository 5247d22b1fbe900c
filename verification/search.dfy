/** Searching and matching. The shared static `indexOf`/`lastIndexOf`
    primitives clamp `fromIndex` and then dispatch three ways on the
    (haystack, needle) tags; `regionMatches` and `startsWith` check their
    ranges before reading any buffer. */
module Search {
  import opened Codecs
  import opened StringValue

  function Max(x: int, y: int): int { if x >= y then x else y }

  /** The static `indexOf(src, srcCoder, srcCount, tgtStr, fromIndex)`,
      shared with the builders: `src` holds `srcCount` chars in use. */
  function IndexOf(src: Str, srcCount: int, tgt: Str, fromIndex: int): (r: int)
    requires 0 <= srcCount <= Length(src)
    ensures fromIndex >= srcCount ==> r == (if Length(tgt) == 0 then srcCount else -1)
    ensures fromIndex < srcCount && Length(tgt) == 0 ==> r == Max(fromIndex, 0)
    ensures r != -1 ==> MatchesAt(Units(src)[..srcCount], Units(tgt), r)
                        && r >= Min(Max(fromIndex, 0), srcCount)
    ensures MixedTagsDistinct(src, tgt) && (fromIndex <= srcCount || Length(tgt) > 0) ==>
              IsLeftmost(Units(src)[..srcCount], Units(tgt), Max(fromIndex, 0), r)
  {
    var tgtCount := Length(tgt);
    if fromIndex >= srcCount then
      if tgtCount == 0 then srcCount else -1
    else
      var from := if fromIndex < 0 then 0 else fromIndex;
      if tgtCount == 0 then from
      else if tgtCount > srcCount then -1
      else
        match (src, tgt)
        case (Narrow(a), Narrow(b)) => FirstMatch(a[..srcCount], b, from)   // StringLatin1.indexOf
        case (Wide(a), Wide(b)) => FirstMatch(a[..srcCount], b, from)       // StringUTF16.indexOf
        case (Narrow(a), Wide(b)) =>
          if !AllLatin1(b) then
            var i :| 0 <= i < |b| && !(0 <= b[i] < 0x100);
            assert AllLatin1(a[..srcCount]);
            NoWideNeedleInLatin1(a[..srcCount], b, i);
            -1
          else -1
        case (Wide(a), Narrow(b)) => FirstMatch(a[..srcCount], b, from)     // StringUTF16.indexOfLatin1
  }

  /** `indexOf(String str, int fromIndex)`. */
  function IndexOfFrom(s: Str, str: Str, fromIndex: int): (r: int)
    ensures r != -1 ==> MatchesAt(Units(s), Units(str), r) && r >= Min(Max(fromIndex, 0), Length(s))
    ensures MixedTagsDistinct(s, str) && (fromIndex <= Length(s) || Length(str) > 0) ==>
              IsLeftmost(Units(s), Units(str), Max(fromIndex, 0), r)
  {
    assert Units(s)[..Length(s)] == Units(s);
    IndexOf(s, Length(s), str, fromIndex)
  }

  /** `indexOf(String str)`: the same dispatch, searching from 0. */
  function IndexOfString(s: Str, str: Str): (r: int)
    ensures r != -1 ==> MatchesAt(Units(s), Units(str), r) && MixedTagsDistinct(s, str)
    ensures MixedTagsDistinct(s, str) ==> IsLeftmost(Units(s), Units(str), 0, r)
  {
    match (s, str)
    case (Narrow(a), Narrow(b)) => FirstMatch(a, b, 0)
    case (Wide(a), Wide(b)) => FirstMatch(a, b, 0)
    case (Narrow(a), Wide(b)) =>
      if !AllLatin1(b) then
        var i :| 0 <= i < |b| && !(0 <= b[i] < 0x100);
        NoWideNeedleInLatin1(a, b, i);
        -1
      else -1
    case (Wide(a), Narrow(b)) => FirstMatch(a, b, 0)
  }

  /** The static `lastIndexOf(src, srcCoder, srcCount, tgtStr, fromIndex)`:
      `fromIndex` is first lowered to the last position a match can start. */
  function LastIndexOf(src: Str, srcCount: int, tgt: Str, fromIndex: int): (r: int)
    requires 0 <= srcCount <= Length(src)
    ensures r != -1 ==> MatchesAt(Units(src)[..srcCount], Units(tgt), r) && r <= fromIndex
    ensures Length(tgt) == 0 ==> r == (if Min(fromIndex, srcCount) < 0 then -1 else Min(fromIndex, srcCount))
    ensures MixedTagsDistinct(src, tgt) ==> IsRightmost(Units(src)[..srcCount], Units(tgt), fromIndex, r)
  {
    var tgtCount := Length(tgt);
    var rightIndex := srcCount - tgtCount;
    var from := if fromIndex > rightIndex then rightIndex else fromIndex;
    var h := Units(src)[..srcCount];
    assert forall k :: from < k <= fromIndex ==> !MatchesAt(h, Units(tgt), k);
    if from < 0 then -1
    else if tgtCount == 0 then from
    else
      match (src, tgt)
      case (Narrow(a), Narrow(b)) => LastMatch(a[..srcCount], b, from)   // StringLatin1.lastIndexOf
      case (Wide(a), Wide(b)) => LastMatch(a[..srcCount], b, from)       // StringUTF16.lastIndexOf
      case (Narrow(a), Wide(b)) =>
        if !AllLatin1(b) then
          var i :| 0 <= i < |b| && !(0 <= b[i] < 0x100);
          assert AllLatin1(a[..srcCount]);
          NoWideNeedleInLatin1(a[..srcCount], b, i);
          -1
        else -1
      case (Wide(a), Narrow(b)) => LastMatch(a[..srcCount], b, from)     // StringUTF16.lastIndexOfLatin1
  }

  /** `lastIndexOf(String str, int fromIndex)`. */
  function LastIndexOfFrom(s: Str, str: Str, fromIndex: int): (r: int)
    ensures r != -1 ==> MatchesAt(Units(s), Units(str), r) && r <= fromIndex
    ensures MixedTagsDistinct(s, str) ==> IsRightmost(Units(s), Units(str), fromIndex, r)
  {
    assert Units(s)[..Length(s)] == Units(s);
    LastIndexOf(s, Length(s), str, fromIndex)
  }

  /** `indexOf(int ch, int fromIndex)`: the codec of the tag searches for
      the UTF-16 encoding of `ch`. The Narrow codec answers -1 at once for
      a `ch` no byte can hold; a Wide one for an invalid code point. */
  function IndexOfChar(s: Str, ch: int, fromIndex: int): (r: int)
    ensures !(0 <= ch <= MaxCodePoint) ==> r == -1
    ensures 0 <= ch <= MaxCodePoint ==>
              IsLeftmost(Units(s), CodePointUnits(ch).value, Max(fromIndex, 0), r)
  {
    var from := Max(fromIndex, 0);
    match s
    case Narrow(b) =>
      if 0 <= ch < 0x100 then FirstMatch(b, [ch], from)      // StringLatin1.indexOf
      else
        assert 0 <= ch <= MaxCodePoint ==> forall k :: !MatchesAt(b, CodePointUnits(ch).value, k) by {
          if 0 <= ch <= MaxCodePoint {
            var n := CodePointUnits(ch).value;
            assert !(0 <= n[0] < 0x100);
            NoWideNeedleInLatin1(b, n, 0);
          }
        }
        -1
    case Wide(c) =>
      if 0 <= ch <= MaxCodePoint then FirstMatch(c, CodePointUnits(ch).value, from)   // StringUTF16.indexOf
      else -1
  }

  /** `regionMatches(toffset, other, ooffset, len)`: false for a negative
      offset or a region past either end (the ends computed in `long`, so
      without overflow); otherwise the chars of the two regions compared
      one by one, whatever the tags. A region of `len <= 0` that passes
      the checks matches. */
  function RegionMatches(s: Str, toffset: int, other: Str, ooffset: int, len: int): (r: bool)
    ensures r <==> 0 <= toffset && 0 <= ooffset
                   && toffset + len <= Length(s) && ooffset + len <= Length(other)
                   && (len <= 0 || Units(s)[toffset..toffset + len] == Units(other)[ooffset..ooffset + len])
  {
    if ooffset < 0 || toffset < 0 || toffset > Length(s) - len || ooffset > Length(other) - len then false
    else
      match (s, other)
      case (Narrow(a), Narrow(b)) => RangesAgree(a, toffset, b, ooffset, len)
      case (Wide(a), Wide(b)) => RangesAgree(a, toffset, b, ooffset, len)
      case (Narrow(a), Wide(b)) => RangesAgree(a, toffset, b, ooffset, len)
      case (Wide(a), Narrow(b)) => RangesAgree(a, toffset, b, ooffset, len)
  }

  /** `startsWith(prefix, toffset)`: false when the prefix cannot fit at
      `toffset`; a Narrow receiver never starts with a Wide prefix. */
  function StartsWith(s: Str, prefix: Str, toffset: int): (r: bool)
    ensures r ==> 0 <= toffset && toffset + Length(prefix) <= Length(s)
                  && Units(s)[toffset..toffset + Length(prefix)] == Units(prefix)
    ensures MixedTagsDistinct(s, prefix) ==>
              (r <==> 0 <= toffset && toffset + Length(prefix) <= Length(s)
                      && Units(s)[toffset..toffset + Length(prefix)] == Units(prefix))
  {
    if toffset < 0 || toffset > Length(s) - Length(prefix) then false
    else
      assert Units(prefix)[0..Length(prefix)] == Units(prefix);
      match (s, prefix)
      case (Narrow(a), Narrow(p)) => RangesAgree(a, toffset, p, 0, |p|)
      case (Wide(a), Wide(p)) => RangesAgree(a, toffset, p, 0, |p|)
      case (Narrow(a), Wide(p)) =>
        if !AllLatin1(p) then
          var i :| 0 <= i < |p| && !(0 <= p[i] < 0x100);
          assert a[toffset..toffset + |p|][i] == a[toffset + i];
          false
        else false
      case (Wide(a), Narrow(p)) => RangesAgree(a, toffset, p, 0, |p|)
  }

  /** `startsWith(prefix)`. */
  function StartsWithPrefix(s: Str, prefix: Str): (r: bool)
    ensures r ==> Length(prefix) <= Length(s) && Units(s)[..Length(prefix)] == Units(prefix)
    ensures MixedTagsDistinct(s, prefix) ==>
              (r <==> Length(prefix) <= Length(s) && Units(s)[..Length(prefix)] == Units(prefix))
  {
    StartsWith(s, prefix, 0)
  }

  /** `endsWith(suffix)`: `startsWith` at `length() - suffix.length()`. */
  function EndsWith(s: Str, suffix: Str): (r: bool)
    ensures r ==> Length(suffix) <= Length(s) && Units(s)[Length(s) - Length(suffix)..] == Units(suffix)
    ensures MixedTagsDistinct(s, suffix) ==>
              (r <==> Length(suffix) <= Length(s) && Units(s)[Length(s) - Length(suffix)..] == Units(suffix))
  {
    StartsWith(s, suffix, Length(s) - Length(suffix))
  }
}
