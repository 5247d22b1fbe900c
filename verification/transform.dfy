/** The operations that build a new value from existing ones. Each keeps
    the content exact and each keeps the representation invariant:
    substring never widens, concat widens only for mixed tags, repeat
    keeps the tag. */
module Transform {
  import opened JavaInt
  import opened Failures
  import opened Codecs
  import opened StringValue
  import Bounds

  /** The codecs' `newString(value, index, len)`: a Narrow slice stays
      Narrow; a Wide slice is compressed to bytes when compaction is on and
      it fits (StringUTF16.newString, which is not part of this model, is
      taken to do so). */
  function NewString(compact: bool, s: Str, index: nat, len: nat): (r: Str)
    requires index + len <= Length(s)
    ensures Units(r) == Units(s)[index..index + len]
    ensures s.Narrow? ==> r.Narrow?
    ensures WellFormed(s, compact) ==> r == Select(compact, Units(s)[index..index + len])
  {
    match s
    case Narrow(b) =>
      var r := Narrow(b[index..index + len]);
      assert WellFormed(s, compact) ==> WellFormed(r, compact);
      assert WellFormed(s, compact) ==> r == Select(compact, Units(s)[index..index + len]) by {
        if WellFormed(s, compact) {
          RepresentationUnique(r, Select(compact, Units(s)[index..index + len]), compact);
        }
      }
      r
    case Wide(c) => Select(compact, c[index..index + len])
  }

  /** `substring(beginIndex, endIndex)`: the range check, the receiver
      itself for the whole range, else a copy of the slice. */
  function Substring(compact: bool, s: Str, begin: int, end: int): (r: Result<Str>)
    ensures r.Err? <==> begin < 0 || begin > end || end > Length(s)
    ensures r.Err? ==> r.error == StringIndexOutOfBounds
    ensures begin == 0 && end == Length(s) ==> r == Ok(s)
    ensures r.Ok? ==> Units(r.value) == Units(s)[begin..end]
    ensures r.Ok? && s.Narrow? ==> r.value.Narrow?
    ensures r.Ok? && WellFormed(s, compact) ==> r.value == Select(compact, Units(s)[begin..end])
  {
    match Bounds.CheckBoundsBeginEnd(begin, end, Length(s))
    case Fail(e) => Err(e)
    case Pass =>
      if begin == 0 && end == Length(s) then
        assert Units(s)[begin..end] == Units(s);
        assert WellFormed(s, compact) ==> s == Select(compact, Units(s)) by {
          if WellFormed(s, compact) { SelectOfUnits(s, compact); }
        }
        Ok(s)
      else Ok(NewString(compact, s, begin, end - begin))
  }

  /** `substring(beginIndex)`: the two checks of the one-argument form, the
      receiver itself from 0, else a copy of the tail. */
  function SubstringFrom(compact: bool, s: Str, begin: int): (r: Result<Str>)
    ensures r.Err? <==> begin < 0 || begin > Length(s)
    ensures r.Err? ==> r.error == StringIndexOutOfBounds
    ensures begin == 0 ==> r == Ok(s)
    ensures r.Ok? ==> Units(r.value) == Units(s)[begin..]
    ensures r.Ok? && WellFormed(s, compact) ==> r.value == Select(compact, Units(s)[begin..])
  {
    if begin < 0 then Err(StringIndexOutOfBounds)
    else
      var subLen := Length(s) - begin;
      if subLen < 0 then Err(StringIndexOutOfBounds)
      else if begin == 0 then
        assert Units(s)[0..] == Units(s);
        assert WellFormed(s, compact) ==> s == Select(compact, Units(s)) by {
          if WellFormed(s, compact) { SelectOfUnits(s, compact); }
        }
        Ok(s)
      else
        assert Units(s)[begin..begin + subLen] == Units(s)[begin..];
        Ok(NewString(compact, s, begin, subLen))
  }

  /** `concat(str)`: the receiver for an empty argument; one buffer of the
      common tag for equal tags; a Wide buffer, with the Narrow side
      zero-extended, for differing tags. */
  function Concat(s: Str, t: Str): (r: Str)
    ensures Units(r) == Units(s) + Units(t)
    ensures Length(t) == 0 ==> r == s
    ensures s.Narrow? == t.Narrow? ==> r.Narrow? == s.Narrow?
    ensures s.Narrow? != t.Narrow? && Length(t) > 0 ==> r.Wide?
    ensures forall compact :: WellFormed(s, compact) && WellFormed(t, compact) ==> WellFormed(r, compact)
  {
    if Length(t) == 0 then
      assert Units(s) + Units(t) == Units(s);
      s
    else
      var r :=
        match (s, t)
        case (Narrow(a), Narrow(b)) => Narrow(a + b)
        case (Wide(a), Wide(b)) => Wide(a + b)
        case _ => Wide(Units(s) + Units(t));   // getBytes(buf, 0, UTF16) on each side
      assert Units(r) == Units(s) + Units(t);
      assert forall compact :: WellFormed(s, compact) && WellFormed(t, compact) ==> WellFormed(r, compact) by {
        forall compact | WellFormed(s, compact) && WellFormed(t, compact)
          ensures WellFormed(r, compact)
        {
          if r.Wide? && compact {
            if s.Wide? {
              var i :| 0 <= i < |Units(s)| && !(0 <= Units(s)[i] < 0x100);
              assert Units(r)[i] == Units(s)[i];
            } else {
              var i :| 0 <= i < |Units(t)| && !(0 <= Units(t)[i] < 0x100);
              assert Units(r)[|Units(s)| + i] == Units(t)[i];
            }
          }
        }
      }
      r
  }

  /** The concatenation `s.concat(t)` splits back into its two operands. */
  lemma ConcatSubstringRoundTrip(compact: bool, s: Str, t: Str)
    requires WellFormed(s, compact) && WellFormed(t, compact)
    ensures Substring(compact, Concat(s, t), 0, Length(s)) == Ok(s)
    ensures Substring(compact, Concat(s, t), Length(s), Length(s) + Length(t)) == Ok(t)
  {
    var c := Concat(s, t);
    assert Units(c)[0..Length(s)] == Units(s);
    assert Units(c)[Length(s)..Length(s) + Length(t)] == Units(t);
    SelectOfUnits(s, compact);
    SelectOfUnits(t, compact);
  }

  // ---------------------------------------------------------------------
  // repeat

  /** `count` copies of `u`, one after another. */
  function RepeatUnits<T>(u: seq<T>, count: nat): seq<T> {
    if count == 0 then [] else u + RepeatUnits(u, count - 1)
  }

  function Pow2(k: nat): nat { if k == 0 then 1 else 2 * Pow2(k - 1) }

  /** `a` copies followed by `b` copies are `a + b` copies. */
  lemma {:induction false} RepeatAdd<T>(u: seq<T>, a: nat, b: nat)
    ensures RepeatUnits(u, a) + RepeatUnits(u, b) == RepeatUnits(u, a + b)
  {
    if a > 0 {
      RepeatAdd(u, a - 1, b);
      assert RepeatUnits(u, a) + RepeatUnits(u, b)
          == u + (RepeatUnits(u, a - 1) + RepeatUnits(u, b));
    }
  }

  /** `count` copies hold `|u| * count` elements. */
  lemma {:induction false} RepeatLength<T>(u: seq<T>, count: nat)
    ensures |RepeatUnits(u, count)| == |u| * count
  {
    if count > 0 {
      RepeatLength(u, count - 1);
      assert |u| * count == |u| + |u| * (count - 1);
    }
  }

  /** More copies are a longer sequence that begins with the fewer ones. */
  lemma RepeatMonotone<T>(u: seq<T>, a: nat, b: nat)
    requires |u| > 0
    ensures a <= b <==> |RepeatUnits(u, a)| <= |RepeatUnits(u, b)|
    ensures a <= b ==> RepeatUnits(u, a) <= RepeatUnits(u, b)
  {
    if a <= b {
      RepeatAdd(u, a, b - a);
    } else {
      RepeatAdd(u, b, a - b);
      assert |RepeatUnits(u, a - b)| > 0;
    }
  }

  /** The repetition of a byte buffer is the same sequence read as units. */
  lemma {:induction false} RepeatWiden(b: seq<Latin1>, count: nat)
    ensures RepeatUnits<Latin1>(b, count) == RepeatUnits<CodeUnit>(b, count)
  {
    if count > 0 {
      RepeatWiden(b, count - 1);
    }
  }

  /** Copies of a single element fill every position with it. */
  lemma {:induction false} RepeatSingle<T>(u: seq<T>, count: nat)
    requires |u| == 1
    ensures RepeatUnits(u, count) == seq(count, _ => u[0])
  {
    if count > 0 {
      RepeatSingle(u, count - 1);
    }
  }

  lemma {:induction false} RepeatOfEmpty<T>(u: seq<T>, count: nat)
    requires u == []
    ensures RepeatUnits(u, count) == []
  {
    if count > 0 {
      RepeatOfEmpty(u, count - 1);
    }
  }

  /** The buffer work of `repeat` for a buffer of at least one element and
      a positive count: copy the buffer once, then copy the filled prefix
      onto its own end while the rest is larger than it, then copy the
      exact remainder. The filled prefix always holds whole copies, `2^k`
      of them after `k` doublings. The `byte[]` of size `limit` is modelled
      by its filled prefix. */
  method RepeatBuffer<T>(value: seq<T>, count: nat) returns (r: seq<T>)
    requires |value| > 0 && count > 0
    ensures r == RepeatUnits(value, count)
  {
    var len := |value|;
    var limit := len * count;
    RepeatLength(value, count);
    var multiple := value;
    assert RepeatUnits(value, 1) == value + [];
    RepeatMonotone(value, 1, count);
    var copied := len;
    ghost var reps: nat := 1;
    ghost var doublings: nat := 0;
    while copied < limit - copied
      invariant 1 <= reps <= count && reps == Pow2(doublings)
      invariant copied == |multiple| <= limit
      invariant multiple == RepeatUnits(value, reps)
      decreases limit - copied
    {
      RepeatAdd(value, reps, reps);
      RepeatMonotone(value, reps + reps, count);
      multiple := multiple + multiple;
      copied := copied + copied;
      reps := reps + reps;
      doublings := doublings + 1;
    }
    ghost var rest: nat := count - reps;
    RepeatAdd(value, reps, rest);
    RepeatMonotone(value, rest, reps);
    multiple := multiple + multiple[..limit - copied];
    r := multiple;
  }

  lemma DivBound(limit: int, count: int, len: int)
    requires count > 0 && len >= 0 && limit >= 0 && limit / count >= len
    ensures len * count <= limit
  {
    assert limit == count * (limit / count) + limit % count;
    assert len * count <= (limit / count) * count;
  }

  /** The general case of `repeat`: the doubled buffer, at the tag of the
      receiver. */
  method RepeatTagged(compact: bool, s: Str, count: nat) returns (r: Str)
    requires count > 0 && Length(s) > 0
    ensures Units(r) == RepeatUnits(Units(s), count)
    ensures r.Narrow? == s.Narrow?
    ensures ByteLength(r) == ByteLength(s) * count
    ensures WellFormed(s, compact) ==> WellFormed(r, compact)
  {
    match s {
      case Narrow(b) =>
        var multiple := RepeatBuffer(b, count);
        RepeatWiden(b, count);
        RepeatLength(b, count);
        r := Narrow(multiple);
      case Wide(c) =>
        var multiple := RepeatBuffer(c, count);
        RepeatLength(c, count);
        assert 2 * (|c| * count) == (2 * |c|) * count;
        assert WellFormed(s, compact) ==> WellFormed(Wide(multiple), compact) by {
          if WellFormed(s, compact) && compact {
            var i :| 0 <= i < |c| && !(0 <= c[i] < 0x100);
            assert multiple == c + RepeatUnits(c, count - 1);
            assert multiple[i] == c[i];
          }
        }
        r := Wide(multiple);
    }
  }

  /** `repeat(count)`: a negative count is an illegal argument; 1 gives
      the receiver; an empty receiver or 0 gives `""`; a one-byte receiver
      is filled directly; otherwise a result whose byte length would pass
      `Integer.MAX_VALUE` is refused before any buffer is made, and the
      buffer is filled by doubling. */
  method Repeat(compact: bool, s: Str, count: Int32) returns (r: Result<Str>)
    ensures r.Err? ==> r.error == IllegalArgument || r.error == OutOfMemory
    ensures r == Err(IllegalArgument) <==> count < 0
    ensures count == 1 ==> r == Ok(s)
    ensures count >= 0 && count != 1 && (count == 0 || Length(s) == 0) ==> r == Ok(Empty(compact))
    ensures r == Err(OutOfMemory) <==> count > 1 && ByteLength(s) > 1 && MaxInt / count < ByteLength(s)
    ensures r.Ok? ==> Units(r.value) == RepeatUnits(Units(s), count as nat)
    ensures r.Ok? && count > 0 && Length(s) > 0 ==> r.value.Narrow? == s.Narrow?
    ensures r.Ok? && ByteLength(s) <= MaxInt ==> ByteLength(r.value) <= MaxInt
    ensures r.Ok? && WellFormed(s, compact) ==> WellFormed(r.value, compact)
  {
    if count < 0 {
      return Err(IllegalArgument);
    }
    if count == 1 {
      assert RepeatUnits(Units(s), 0) == [];
      assert Units(s) + [] == Units(s);
      return Ok(s);
    }
    var len := ByteLength(s);
    if len == 0 || count == 0 {
      assert Units(s) == [] ==> RepeatUnits(Units(s), count as nat) == [] by {
        if Units(s) == [] { RepeatOfEmpty(Units(s), count as nat); }
      }
      return Ok(Empty(compact));
    }
    if len == 1 {
      var single := seq(count, _ => s.bytes[0]);
      RepeatSingle(Units(s), count as nat);
      return Ok(Narrow(single));
    }
    if MaxInt / count < len {
      return Err(OutOfMemory);
    }
    DivBound(MaxInt, count, len);
    var multiple := RepeatTagged(compact, s, count as nat);
    r := Ok(multiple);
  }
}
