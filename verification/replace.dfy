/** `replace(CharSequence target, CharSequence replacement)`: literal,
    left-to-right, non-overlapping replacement, driven by the shared
    `indexOf` primitive. */
module Replace {
  import opened JavaInt
  import opened Failures
  import opened Codecs
  import opened StringValue
  import Search

  /** The reference meaning, read from position `i` on: where `t` occurs,
      emit `rep` and resume after the occurrence; otherwise keep the char.
      An empty `t` occurs before every char and at the end. */
  function ReplaceFrom(u: seq<int>, t: seq<int>, rep: seq<int>, i: nat): seq<int>
    requires i <= |u|
    decreases |u| - i, |t|
  {
    if |t| == 0 then
      if i == |u| then rep else rep + [u[i]] + ReplaceFrom(u, t, rep, i + 1)
    else if MatchesAt(u, t, i) then rep + ReplaceFrom(u, t, rep, i + |t|)
    else if i == |u| then []
    else [u[i]] + ReplaceFrom(u, t, rep, i + 1)
  }

  /** Left-to-right, non-overlapping replacement of every occurrence. */
  function ReplaceAll(u: seq<int>, t: seq<int>, rep: seq<int>): seq<int> {
    ReplaceFrom(u, t, rep, 0)
  }

  /** The loop condition of `replace` after an occurrence at `j`: while
      `j` is still inside the receiver, the next occurrence searched from
      `j + max(tgtLen, 1)`; the loop stops at a non-positive answer. */
  method NextOccurrence(s: Str, target: Str, j: nat) returns (r: int)
    requires MatchesAt(Units(s), Units(target), j)
    ensures r > 0 ==> j + |Units(target)| <= r && j < r && MatchesAt(Units(s), Units(target), r)
    ensures MixedTagsDistinct(s, target) && |Units(target)| > 0 ==>
              forall k :: j + |Units(target)| <= k && (r <= 0 || k < r) ==> !MatchesAt(Units(s), Units(target), k)
    ensures MixedTagsDistinct(s, target) && |Units(target)| == 0 ==>
              r == (if j < |Units(s)| then j + 1 else -1)
  {
    var tgtLen := Length(target);
    var tgtLen1 := if tgtLen > 1 then tgtLen else 1;
    if j < Length(s) {
      assert Units(s)[..Length(s)] == Units(s);
      r := Search.IndexOf(s, Length(s), target, j + tgtLen1);
    } else {
      r := -1;
    }
  }

  /** `replace(target, replacement)`: the receiver when `target` does not
      occur; an OutOfMemoryError when the length hint
      `length() - target.length() + replacement.length()` overflows `int`;
      else the content the `StringBuilder` loop assembles, in the
      representation its `toString` selects. When the search is exact
      (always, for values of one process) that content is the
      left-to-right replacement, and the error happens exactly when
      `target` occurs and the new length exceeds `Integer.MAX_VALUE`. */
  method ReplaceLiteral(compact: bool, s: Str, target: Str, replacement: Str) returns (r: Result<Str>)
    ensures r.Err? ==> r.error == OutOfMemory
    ensures (forall k :: !MatchesAt(Units(s), Units(target), k)) ==> r == Ok(s)
    ensures r.Ok? && r.value != s ==> r.value == Select(compact, Units(r.value))
    ensures MixedTagsDistinct(s, target) && r.Ok? ==>
              Units(r.value) == ReplaceAll(Units(s), Units(target), Units(replacement))
    ensures MixedTagsDistinct(s, target) && Length(s) <= MaxInt && Length(replacement) <= MaxInt ==>
              (r.Err? <==> (exists k :: MatchesAt(Units(s), Units(target), k))
                           && Length(s) - Length(target) + Length(replacement) > MaxInt)
  {
    var u, t, rep := Units(s), Units(target), Units(replacement);
    var j := Search.IndexOfString(s, target);
    if j < 0 {
      if MixedTagsDistinct(s, target) {
        assert |t| > 0 by { assert |t| == 0 ==> MatchesAt(u, t, 0); }
        NoMatchIsIdentity(u, t, rep);
      }
      return Ok(s);
    }
    var thisLen, tgtLen, replLen := Length(s), Length(target), Length(replacement);
    assert 0 <= thisLen - tgtLen;
    var newLenHint := Wrap(thisLen - tgtLen + replLen);
    if thisLen <= MaxInt && replLen <= MaxInt {
      WrapOverflow(thisLen - tgtLen + replLen);
    }
    if newLenHint < 0 {
      return Err(OutOfMemory);
    }
    var sb := ReplaceBuffer(s, target, rep, j);
    r := Ok(Select(compact, sb));
  }

  /** The `StringBuilder` loop of `replace`, started at the first
      occurrence `j`: append the chars before each occurrence and the
      replacement, then the rest after the last occurrence. */
  method ReplaceBuffer(s: Str, target: Str, rep: seq<CodeUnit>, first: nat) returns (sb: seq<CodeUnit>)
    requires MixedTagsDistinct(s, target)
    requires MatchesAt(Units(s), Units(target), first) && IsLeftmost(Units(s), Units(target), 0, first)
    ensures sb == ReplaceAll(Units(s), Units(target), rep)
  {
    var u, t := Units(s), Units(target);
    var tgtLen := Length(target);
    var j := first;
    sb := [];
    var i := 0;
    Start(u, t, rep, j);
    while true
      invariant 0 <= i <= j && MatchesAt(u, t, j)
      invariant sb + u[i..j] + ReplaceFrom(u, t, rep, j) == ReplaceAll(u, t, rep)
      decreases |u| - j
    {
      var found := NextOccurrence(s, target, j);
      var next := j + tgtLen;
      Turn(u, t, rep, sb, i, j, next, found);
      sb := sb + u[i..j] + rep;
      i := next;
      if found <= 0 {
        break;
      }
      j := found;
    }
    sb := sb + u[i..];
  }

  /** Before the loop: nothing is appended yet, and `first` is the
      leftmost occurrence. */
  lemma Start(u: seq<int>, t: seq<int>, rep: seq<int>, first: nat)
    requires MatchesAt(u, t, first) && IsLeftmost(u, t, 0, first)
    ensures [] + u[0..first] + ReplaceFrom(u, t, rep, first) == ReplaceAll(u, t, rep)
  {
    if |t| > 0 {
      KeepUntil(u, t, rep, 0, first);
    } else {
      assert first == 0 by { assert MatchesAt(u, t, 0); }
    }
    assert [] + u[0..first] == u[0..first];
  }

  /** One turn of the loop keeps the buffer in step with the reference:
      what is appended, followed by the reference replacement of the rest,
      is the whole replacement. */
  lemma Turn(u: seq<int>, t: seq<int>, rep: seq<int>, sb: seq<int>, i: nat, j: nat, next: nat, found: int)
    requires i <= j && MatchesAt(u, t, j) && next == j + |t|
    requires sb + u[i..j] + ReplaceFrom(u, t, rep, j) == ReplaceAll(u, t, rep)
    requires found > 0 ==> j + |t| <= found && j < found && MatchesAt(u, t, found)
    requires |t| > 0 ==>
               forall k :: j + |t| <= k && (found <= 0 || k < found) ==> !MatchesAt(u, t, k)
    requires |t| == 0 ==> found == (if j < |u| then j + 1 else -1)
    ensures found > 0 ==>
              sb + u[i..j] + rep + u[next..found] + ReplaceFrom(u, t, rep, found) == ReplaceAll(u, t, rep)
    ensures found <= 0 ==> sb + u[i..j] + rep + u[next..] == ReplaceAll(u, t, rep)
  {
    var prev, x := sb + u[i..j], ReplaceFrom(u, t, rep, j);
    if found <= 0 {
      Finish(u, t, rep, j, next);
      Regroup(prev, x, rep, u[next..], ReplaceAll(u, t, rep));
    } else {
      if |t| > 0 {
        AdvanceOver(u, t, rep, j, next, found);
      } else {
        AdvanceEmpty(u, t, rep, j, next, found);
      }
      RegroupStep(prev, x, rep, u[next..found], ReplaceFrom(u, t, rep, found), ReplaceAll(u, t, rep));
    }
  }

  /** Re-bracketing the buffer and the reference, at the last turn. */
  lemma Regroup(prev: seq<int>, x: seq<int>, rep: seq<int>, rest: seq<int>, whole: seq<int>)
    requires prev + x == whole && x == rep + rest
    ensures prev + rep + rest == whole
  {
  }

  /** Re-bracketing the buffer and the reference, at a further turn. */
  lemma RegroupStep(prev: seq<int>, x: seq<int>, rep: seq<int>, mid: seq<int>,
                    tail: seq<int>, whole: seq<int>)
    requires prev + x == whole && x == rep + (mid + tail)
    ensures prev + rep + mid + tail == whole
  {
  }

  // ---------------------------------------------------------------------
  // The reference, step by step

  /** With no occurrence of a non-empty `t` at or after `i`, the rest is
      kept. */
  lemma {:induction false} NoMatchKeeps(u: seq<int>, t: seq<int>, rep: seq<int>, i: nat)
    requires |t| > 0 && i <= |u|
    requires forall k :: i <= k ==> !MatchesAt(u, t, k)
    ensures ReplaceFrom(u, t, rep, i) == u[i..]
    decreases |u| - i
  {
    if i < |u| {
      assert !MatchesAt(u, t, i);
      NoMatchKeeps(u, t, rep, i + 1);
      assert u[i..] == [u[i]] + u[i + 1..];
    }
  }

  /** With no occurrence of a non-empty `t`, nothing is replaced. */
  lemma NoMatchIsIdentity(u: seq<int>, t: seq<int>, rep: seq<int>)
    requires |t| > 0 && forall k :: !MatchesAt(u, t, k)
    ensures ReplaceAll(u, t, rep) == u
  {
    NoMatchKeeps(u, t, rep, 0);
    assert u[0..] == u;
  }

  /** With no occurrence of a non-empty `t` in `[i, p)`, the chars before
      `p` are kept. */
  lemma {:induction false} KeepUntil(u: seq<int>, t: seq<int>, rep: seq<int>, i: nat, p: nat)
    requires |t| > 0 && i <= p <= |u|
    requires forall k :: i <= k < p ==> !MatchesAt(u, t, k)
    ensures ReplaceFrom(u, t, rep, i) == u[i..p] + ReplaceFrom(u, t, rep, p)
    decreases p - i
  {
    if i < p {
      assert !MatchesAt(u, t, i);
      KeepUntil(u, t, rep, i + 1, p);
      ConsAssoc(u, i, p, ReplaceFrom(u, t, rep, p));
    }
  }

  lemma ConsAssoc(u: seq<int>, i: nat, p: nat, rest: seq<int>)
    requires i < p <= |u|
    ensures [u[i]] + (u[i + 1..p] + rest) == u[i..p] + rest
  {
    assert u[i..p] == [u[i]] + u[i + 1..p];
  }

  /** The reference at an occurrence of a non-empty `t`. */
  lemma StepOver(u: seq<int>, t: seq<int>, rep: seq<int>, j: nat, next: nat)
    requires |t| > 0 && MatchesAt(u, t, j) && next == j + |t|
    ensures ReplaceFrom(u, t, rep, j) == rep + ReplaceFrom(u, t, rep, next)
  {
  }

  lemma Chain(a: seq<int>, rep: seq<int>, b: seq<int>, c: seq<int>)
    requires a == rep + b && b == c
    ensures a == rep + c
  {
  }

  /** One turn of the loop for a non-empty `t`: the occurrence at `j`
      becomes `rep`, and the chars up to the next occurrence `found` are
      kept. */
  lemma AdvanceOver(u: seq<int>, t: seq<int>, rep: seq<int>, j: nat, next: nat, found: nat)
    requires |t| > 0 && MatchesAt(u, t, j) && next == j + |t| && next <= found <= |u|
    requires forall k :: next <= k < found ==> !MatchesAt(u, t, k)
    ensures ReplaceFrom(u, t, rep, j) == rep + (u[next..found] + ReplaceFrom(u, t, rep, found))
  {
    StepOver(u, t, rep, j, next);
    KeepUntil(u, t, rep, next, found);
    Chain(ReplaceFrom(u, t, rep, j), rep, ReplaceFrom(u, t, rep, next),
          u[next..found] + ReplaceFrom(u, t, rep, found));
  }

  /** One turn of the loop for the empty `t`: `rep`, then the char at `j`. */
  lemma AdvanceEmpty(u: seq<int>, t: seq<int>, rep: seq<int>, j: nat, next: nat, found: nat)
    requires |t| == 0 && next == j && found == j + 1 <= |u|
    ensures ReplaceFrom(u, t, rep, j) == rep + (u[next..found] + ReplaceFrom(u, t, rep, found))
  {
    assert u[next..found] == [u[j]];
  }

  /** The last turn of the loop: the occurrence at `j` becomes `rep` and
      the rest is kept. */
  lemma Finish(u: seq<int>, t: seq<int>, rep: seq<int>, j: nat, next: nat)
    requires MatchesAt(u, t, j) && next == j + |t|
    requires |t| > 0 ==> forall k :: next <= k ==> !MatchesAt(u, t, k)
    requires |t| == 0 ==> j == |u|
    ensures ReplaceFrom(u, t, rep, j) == rep + u[next..]
  {
    if |t| > 0 {
      StepOver(u, t, rep, j, next);
      NoMatchKeeps(u, t, rep, next);
    }
  }
}
