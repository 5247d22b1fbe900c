/** The compact string value of String.java: a buffer plus an encoding tag
    (the `coder` field), here a closed sum type so that a tag can never
    disagree with its buffer. A Narrow (LATIN1) value holds one byte per
    char; a Wide (UTF16) value holds one 16-bit code unit per char. The
    process-wide COMPACT_STRINGS flag is the parameter `compact`. */
module StringValue {
  import opened Failures
  import opened Codecs
  import Bounds

  datatype Str = Narrow(bytes: seq<Latin1>) | Wide(chars: seq<CodeUnit>)

  /** The characters a value stands for, whatever its tag: what every
      operation must be faithful to. */
  function Units(s: Str): seq<CodeUnit> {
    match s
    case Narrow(b) => b
    case Wide(c) => c
  }

  /** The `coder` byte: LATIN1 = 0, UTF16 = 1. */
  function Coder(s: Str): nat {
    if s.Narrow? then 0 else 1
  }

  /** The length of the `byte[] value` field: two bytes per Wide unit. */
  function ByteLength(s: Str): nat {
    match s
    case Narrow(b) => |b|
    case Wide(c) => 2 * |c|
  }

  /** `length()`: the byte length shifted right by the coder. */
  function Length(s: Str): (r: nat)
    ensures r == |Units(s)|
  {
    if Coder(s) == 0 then ByteLength(s) else ByteLength(s) / 2
  }

  /** A Wide value is used only when some unit does not fit in a byte. */
  predicate Canonical(s: Str) {
    s.Wide? ==> !AllLatin1(s.chars)
  }

  /** The invariant every value in a process keeps: with compaction on, the
      tag is Narrow exactly when the content allows it; with compaction
      off, every value is Wide. */
  predicate WellFormed(s: Str, compact: bool) {
    if compact then Canonical(s) else s.Wide?
  }

  /** The representation selector: Narrow exactly when compaction is on and
      every unit fits in a byte, else Wide. */
  function Select(compact: bool, u: seq<CodeUnit>): (r: Str)
    ensures Units(r) == u
    ensures r.Narrow? <==> compact && AllLatin1(u)
    ensures WellFormed(r, compact)
  {
    if compact then
      match Compress(u)
      case Some(b) => Narrow(b)
      case None => Wide(u)
    else Wide(u)
  }

  /** The canonical empty value `""`. */
  function Empty(compact: bool): (r: Str)
    ensures Units(r) == [] && WellFormed(r, compact)
  {
    Select(compact, [])
  }

  /** Under the invariant, content determines the value: two well-formed
      values with the same characters have the same tag and buffer. */
  lemma RepresentationUnique(a: Str, b: Str, compact: bool)
    requires WellFormed(a, compact) && WellFormed(b, compact)
    requires Units(a) == Units(b)
    ensures a == b
  {
    if a.Narrow? != b.Narrow? {
      assert AllLatin1(Units(a));
    }
  }

  /** Selecting the content of a well-formed value gives that value back. */
  lemma SelectOfUnits(s: Str, compact: bool)
    requires WellFormed(s, compact)
    ensures Select(compact, Units(s)) == s
  {
    RepresentationUnique(Select(compact, Units(s)), s, compact);
  }

  /** The state an AbstractStringBuilder exposes to String.java: its buffer
      (as a value of the same shape) and the count of chars in use. */
  datatype Builder = Builder(buffer: Str, count: nat)

  predicate ValidBuilder(sb: Builder) {
    sb.count <= Length(sb.buffer)
  }

  function BuilderUnits(sb: Builder): seq<CodeUnit>
    requires sb.count <= Length(sb.buffer)
  {
    Units(sb.buffer)[..sb.count]
  }

  /** The condition the mixed-tag short cuts rely on: when `n` is Narrow
      and `w` is Wide, `w` holds a unit that no byte can equal. */
  predicate MixedTagsDistinct(n: Str, w: Str) {
    n.Narrow? && w.Wide? ==> !AllLatin1(w.chars)
  }

  /** In one process the invariant makes the short cuts sound: any two
      well-formed values satisfy it in both orders. */
  lemma WellFormedTagsDistinct(a: Str, b: Str, compact: bool)
    requires WellFormed(a, compact) && WellFormed(b, compact)
    ensures MixedTagsDistinct(a, b) && MixedTagsDistinct(b, a)
  {
  }

  /** The unit-by-unit comparison loops String.java runs itself: `n`
      units of `a` from `i` against `n` units of `b` from `j`, stopping
      at the first pair that differs. */
  function RangesAgree(a: seq<int>, i: nat, b: seq<int>, j: nat, n: int): (r: bool)
    requires n <= 0 || (i + n <= |a| && j + n <= |b|)
    ensures r <==> n <= 0 || a[i..i + n] == b[j..j + n]
    decreases n
  {
    if n <= 0 then true
    else
      assert a[i..i + n] == [a[i]] + a[i + 1..i + n];
      assert b[j..j + n] == [b[j]] + b[j + 1..j + n];
      if a[i] != b[j] then false
      else RangesAgree(a, i + 1, b, j + 1, n - 1)
  }

  /** `charAt(index)`: the codec of the tag reads the unit, after
      `checkIndex` against the length. */
  function CharAt(s: Str, index: int): (r: Result<CodeUnit>)
    ensures r.Ok? <==> 0 <= index < Length(s)
    ensures r.Ok? ==> r.value == Units(s)[index]
    ensures r.Err? ==> r.error == StringIndexOutOfBounds
  {
    match Bounds.CheckIndex(index, Length(s))
    case Fail(e) => Err(e)
    case Pass =>
      match s
      case Narrow(b) => Ok(b[index])
      case Wide(c) => Ok(c[index])
  }

  /** `codePointCount(begin, end)`: on a Narrow value simply `end - begin`,
      on a Wide value the UTF-16 count over the slice. */
  function CodePointCount(s: Str, begin: int, end: int): (r: Result<nat>)
    ensures r.Err? <==> begin < 0 || begin > end || end > Length(s)
    ensures r.Err? ==> r.error == IndexOutOfBounds
    ensures r.Ok? ==> r.value == CodePointCountOf(Units(s)[begin..end])
  {
    if begin < 0 || begin > end || end > Length(s) then Err(IndexOutOfBounds)
    else if s.Narrow? then
      CodePointCountLatin1(Units(s)[begin..end]);
      Ok(end - begin)
    else Ok(CodePointCountOf(s.chars[begin..end]))
  }
}
