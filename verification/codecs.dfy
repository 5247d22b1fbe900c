/** The per-width codecs that String.java delegates to (StringLatin1 and
    StringUTF16) are not part of this model. Each codec operation is given
    here only by its contract over the sequence of UTF-16 code units it
    reads: a direct reference definition, with the property a caller may
    rely on proved about it. Both widths share these definitions, because
    a Narrow byte read through its codec is the code unit of the same
    value (zero extension). */
module Codecs {
  import opened JavaInt
  import opened Failures

  /** A byte of a Narrow buffer, read unsigned (`b & 0xff`). */
  type Latin1 = x: int | 0 <= x < 0x100
  /** A UTF-16 code unit, a Java `char`. */
  type CodeUnit = x: int | 0 <= x < 0x1_0000

  const MinHighSurrogate: int := 0xD800
  const MaxHighSurrogate: int := 0xDBFF
  const MinLowSurrogate: int := 0xDC00
  const MaxLowSurrogate: int := 0xDFFF
  const MinSupplementary: int := 0x1_0000
  const MaxCodePoint: int := 0x10_FFFF

  predicate IsHighSurrogate(c: int) { MinHighSurrogate <= c <= MaxHighSurrogate }
  predicate IsLowSurrogate(c: int) { MinLowSurrogate <= c <= MaxLowSurrogate }

  /** Every unit fits in one byte (StringLatin1.canEncode for each). */
  predicate AllLatin1(u: seq<int>) {
    forall i :: 0 <= i < |u| ==> 0 <= u[i] < 0x100
  }

  /** StringUTF16.compress: the byte copy of the units, or nothing when some
      unit does not fit in a byte. */
  function Compress(u: seq<CodeUnit>): (r: Option<seq<Latin1>>)
    ensures r.Some? <==> AllLatin1(u)
    ensures r.Some? ==> r.value == u
  {
    if AllLatin1(u) then Some(seq(|u|, i requires 0 <= i < |u| => u[i] as Latin1)) else None
  }

  // ---------------------------------------------------------------------
  // Substring search

  /** `n` occurs in `h` starting at position `k`. */
  predicate MatchesAt(h: seq<int>, n: seq<int>, k: int) {
    0 <= k && k + |n| <= |h| && h[k..k + |n|] == n
  }

  /** `r` is the leftmost position at or after `from` where `n` occurs in
      `h`, or -1 when there is none. */
  ghost predicate IsLeftmost(h: seq<int>, n: seq<int>, from: int, r: int) {
    || (r == -1 && forall k :: from <= k ==> !MatchesAt(h, n, k))
    || (from <= r && MatchesAt(h, n, r) && forall k :: from <= k < r ==> !MatchesAt(h, n, k))
  }

  /** `r` is the rightmost position at or before `from` where `n` occurs in
      `h`, or -1 when there is none. */
  ghost predicate IsRightmost(h: seq<int>, n: seq<int>, from: int, r: int) {
    || (r == -1 && forall k :: k <= from ==> !MatchesAt(h, n, k))
    || (r <= from && MatchesAt(h, n, r) && forall k :: r < k <= from ==> !MatchesAt(h, n, k))
  }

  /** The codecs' forward search (`indexOf(src, srcCount, tgt, tgtCount, from)`). */
  function FirstMatch(h: seq<int>, n: seq<int>, from: nat): (r: int)
    ensures IsLeftmost(h, n, from, r)
    decreases |h| - from
  {
    if from + |n| > |h| then -1
    else if h[from..from + |n|] == n then from
    else FirstMatch(h, n, from + 1)
  }

  /** The codecs' backward search (`lastIndexOf(src, srcCount, tgt, tgtCount, from)`). */
  function LastMatch(h: seq<int>, n: seq<int>, from: int): (r: int)
    ensures IsRightmost(h, n, from, r)
    decreases from + 1
  {
    if from < 0 then -1
    else if MatchesAt(h, n, from) then from
    else LastMatch(h, n, from - 1)
  }

  /** The answer of a search is determined by the question: there is only
      one leftmost and one rightmost position. */
  lemma LeftmostUnique(h: seq<int>, n: seq<int>, from: int, r1: int, r2: int)
    requires IsLeftmost(h, n, from, r1) && IsLeftmost(h, n, from, r2)
    ensures r1 == r2
  {
  }

  lemma RightmostUnique(h: seq<int>, n: seq<int>, from: int, r1: int, r2: int)
    requires IsRightmost(h, n, from, r1) && IsRightmost(h, n, from, r2)
    ensures r1 == r2
  {
  }

  /** A needle holding a unit above 0xFF never occurs in a haystack of
      bytes: the fact behind the Narrow-haystack/Wide-needle short cuts. */
  lemma NoWideNeedleInLatin1(h: seq<int>, n: seq<int>, i: int)
    requires AllLatin1(h)
    requires 0 <= i < |n| && n[i] >= 0x100
    ensures forall k :: !MatchesAt(h, n, k)
  {
  }

  // ---------------------------------------------------------------------
  // Lexicographic comparison

  /** The codecs' `compareTo` family: the difference of the first pair of
      units that differ, or else the difference of the lengths. */
  function Lex(a: seq<int>, b: seq<int>): int
    decreases |a|
  {
    if |a| == 0 || |b| == 0 then |a| - |b|
    else if a[0] != b[0] then a[0] - b[0]
    else Lex(a[1..], b[1..])
  }

  function Min(x: int, y: int): int { if x <= y then x else y }

  /** The documented meaning of `compareTo`: where the sequences first
      differ at `k`, the result is `a[k] - b[k]`; with no difference in the
      common part, it is `|a| - |b|`. */
  lemma {:induction false} LexFirstDifference(a: seq<int>, b: seq<int>)
    ensures forall k :: 0 <= k < Min(|a|, |b|) && a[..k] == b[..k] && a[k] != b[k] ==>
              Lex(a, b) == a[k] - b[k]
    ensures a[..Min(|a|, |b|)] == b[..Min(|a|, |b|)] ==> Lex(a, b) == |a| - |b|
    decreases |a|
  {
    if |a| == 0 || |b| == 0 {
    } else {
      LexFirstDifference(a[1..], b[1..]);
      forall k | 0 <= k < Min(|a|, |b|) && a[..k] == b[..k] && a[k] != b[k]
        ensures Lex(a, b) == a[k] - b[k]
      {
        if k > 0 {
          assert a[0] == a[..k][0] == b[..k][0] == b[0];
          assert a[1..][..k - 1] == a[1..k] == a[..k][1..];
          assert b[1..][..k - 1] == b[1..k] == b[..k][1..];
          assert a[1..][k - 1] == a[k];
          assert b[1..][k - 1] == b[k];
        }
      }
      var m := Min(|a|, |b|);
      if a[..m] == b[..m] {
        assert a[0] == a[..m][0];
        assert a[1..][..m - 1] == a[..m][1..];
        assert b[1..][..m - 1] == b[..m][1..];
      }
    }
  }

  /** Lexicographic comparison is exact negation under swapping. */
  lemma {:induction false} LexAntisymmetric(a: seq<int>, b: seq<int>)
    ensures Lex(a, b) == -Lex(b, a)
    decreases |a|
  {
    if |a| != 0 && |b| != 0 && a[0] == b[0] {
      LexAntisymmetric(a[1..], b[1..]);
    }
  }

  /** Lexicographic comparison is zero exactly on equal sequences. */
  lemma {:induction false} LexZeroIffEqual(a: seq<int>, b: seq<int>)
    ensures Lex(a, b) == 0 <==> a == b
    decreases |a|
  {
    if |a| != 0 && |b| != 0 && a[0] == b[0] {
      LexZeroIffEqual(a[1..], b[1..]);
      if a[1..] == b[1..] {
        assert a == [a[0]] + a[1..];
        assert b == [b[0]] + b[1..];
      }
    }
  }

  /** Lexicographic precedence is transitive. */
  lemma {:induction false} LexTransitive(a: seq<int>, b: seq<int>, c: seq<int>)
    requires Lex(a, b) < 0 && Lex(b, c) < 0
    ensures Lex(a, c) < 0
    decreases |a|
  {
    if |a| != 0 && |b| != 0 && |c| != 0 && a[0] == b[0] && b[0] == c[0] {
      LexTransitive(a[1..], b[1..], c[1..]);
    }
  }

  // ---------------------------------------------------------------------
  // Hashing

  /** The codecs' `hashCode` loop: `h = 31 * h + u[i]` in `int` arithmetic,
      starting from 0. */
  function Hash(u: seq<int>): Int32
    decreases |u|
  {
    if |u| == 0 then 0 else Wrap(31 * Hash(u[..|u| - 1]) + u[|u| - 1])
  }

  function Pow31(e: nat): int { if e == 0 then 1 else 31 * Pow31(e - 1) }

  /** The documented hash polynomial `u[0]*31^(n-1) + ... + u[n-1]`,
      computed exactly. */
  function Poly(u: seq<int>): int
    decreases |u|
  {
    if |u| == 0 then 0 else u[0] * Pow31(|u| - 1) + Poly(u[1..])
  }

  /** Appending a unit multiplies the polynomial by 31 and adds the unit. */
  lemma {:induction false} PolySnoc(u: seq<int>, c: int)
    ensures Poly(u + [c]) == 31 * Poly(u) + c
    decreases |u|
  {
    if |u| == 0 {
      assert Poly([c]) == c * Pow31(0) + Poly([]);
    } else {
      assert (u + [c])[1..] == u[1..] + [c];
      PolySnoc(u[1..], c);
      calc {
        Poly(u + [c]);
        u[0] * Pow31(|u|) + Poly(u[1..] + [c]);
        u[0] * (31 * Pow31(|u| - 1)) + 31 * Poly(u[1..]) + c;
        31 * (u[0] * Pow31(|u| - 1) + Poly(u[1..])) + c;
      }
    }
  }

  /** The wrapping loop computes the documented polynomial, wrapped once. */
  lemma {:induction false} HashIsPolynomial(u: seq<int>)
    ensures Hash(u) == Wrap(Poly(u))
    decreases |u|
  {
    if |u| > 0 {
      var p := u[..|u| - 1];
      var c := u[|u| - 1];
      assert u == p + [c];
      HashIsPolynomial(p);
      PolySnoc(p, c);
      WrapStep(Poly(p), c);
    }
  }

  // ---------------------------------------------------------------------
  // Code points

  /** StringUTF16.codePointCount over a whole sequence: a high surrogate
      followed by a low surrogate counts once, every other unit once. */
  function CodePointCountOf(u: seq<int>): nat
    decreases |u|
  {
    if |u| == 0 then 0
    else if |u| >= 2 && IsHighSurrogate(u[0]) && IsLowSurrogate(u[1]) then 1 + CodePointCountOf(u[2..])
    else 1 + CodePointCountOf(u[1..])
  }

  /** Bytes are never surrogates, so a Narrow sequence has one code point
      per unit. */
  lemma {:induction false} CodePointCountLatin1(u: seq<int>)
    requires AllLatin1(u)
    ensures CodePointCountOf(u) == |u|
    decreases |u|
  {
    if |u| > 0 {
      assert AllLatin1(u[1..]) by {
        forall i | 0 <= i < |u[1..]| ensures 0 <= u[1..][i] < 0x100 {
          assert u[1..][i] == u[i + 1];
        }
      }
      CodePointCountLatin1(u[1..]);
    }
  }

  function HighSurrogateOf(cp: int): CodeUnit
    requires MinSupplementary <= cp <= MaxCodePoint
  {
    (cp - MinSupplementary) / 0x400 + MinHighSurrogate
  }

  function LowSurrogateOf(cp: int): CodeUnit
    requires MinSupplementary <= cp <= MaxCodePoint
  {
    (cp - MinSupplementary) % 0x400 + MinLowSurrogate
  }

  /** The UTF-16 encoding of one code point (Character.toChars), or nothing
      for a value that is not a valid code point. */
  function CodePointUnits(cp: int): (r: Option<seq<CodeUnit>>)
    ensures r.Some? <==> 0 <= cp <= MaxCodePoint
    ensures r.Some? && cp < MinSupplementary ==> r.value == [cp]
    ensures r.Some? && cp >= MinSupplementary ==>
              |r.value| == 2 && IsHighSurrogate(r.value[0]) && IsLowSurrogate(r.value[1])
              && (r.value[0] - MinHighSurrogate) * 0x400 + (r.value[1] - MinLowSurrogate) + MinSupplementary == cp
  {
    if 0 <= cp < MinSupplementary then Some([cp])
    else if MinSupplementary <= cp <= MaxCodePoint then Some([HighSurrogateOf(cp), LowSurrogateOf(cp)])
    else None
  }
}
