/** The static range checks of String.java. Each either passes or raises
    StringIndexOutOfBoundsException before any buffer is touched. */
module Bounds {
  import opened Failures

  /** `checkIndex`: `index` names a char of a value of length `length`. */
  function CheckIndex(index: int, length: int): (r: Outcome)
    ensures r.Pass? <==> 0 <= index < length
    ensures r.Fail? ==> r.error == StringIndexOutOfBounds
  {
    if index < 0 || index >= length then Fail(StringIndexOutOfBounds) else Pass
  }

  /** `checkOffset`: `offset` is a position between chars, ends included. */
  function CheckOffset(offset: int, length: int): (r: Outcome)
    ensures r.Pass? <==> 0 <= offset <= length
    ensures r.Fail? ==> r.error == StringIndexOutOfBounds
  {
    if offset < 0 || offset > length then Fail(StringIndexOutOfBounds) else Pass
  }

  /** `checkBoundsOffCount`: the `count` positions from `offset` all lie
      inside `[0, length)`. The source compares `offset > length - count`
      so that no sum can overflow; the exact condition is the same. */
  function CheckBoundsOffCount(offset: int, count: int, length: int): (r: Outcome)
    ensures r.Pass? <==> 0 <= offset && 0 <= count && offset + count <= length
    ensures r.Fail? ==> r.error == StringIndexOutOfBounds
  {
    if offset < 0 || count < 0 || offset > length - count then Fail(StringIndexOutOfBounds) else Pass
  }

  /** `checkBoundsBeginEnd`: `[begin, end)` is a range inside `[0, length)`. */
  function CheckBoundsBeginEnd(begin: int, end: int, length: int): (r: Outcome)
    ensures r.Pass? <==> 0 <= begin <= end <= length
    ensures r.Fail? ==> r.error == StringIndexOutOfBounds
  {
    if begin < 0 || begin > end || end > length then Fail(StringIndexOutOfBounds) else Pass
  }

  /** The two range checks accept the same ranges, described by their ends
      or by their start and size. */
  lemma BeginEndIsOffCount(begin: int, end: int, length: int)
    ensures CheckBoundsBeginEnd(begin, end, length) == CheckBoundsOffCount(begin, end - begin, length)
  {
  }
}
