/** The fast path of `split(regex, limit)`: a pattern that stands for one
    literal char is applied by a direct scan with `indexOf(ch, off)`
    instead of the regular-expression engine. The parts are described
    here by their inverse, joining with the delimiter, and that
    description is shown to fix the parts completely. */
module Split {
  import opened Failures
  import opened Codecs
  import opened StringValue
  import Search
  import Transform

  // ---------------------------------------------------------------------
  // Joining, the inverse of splitting

  /** The parts with the delimiter between consecutive ones. */
  function Join(ps: seq<seq<int>>, d: int): seq<int>
    decreases |ps|
  {
    if |ps| == 0 then []
    else if |ps| == 1 then ps[0]
    else ps[0] + [d] + Join(ps[1..], d)
  }

  /** The parts each followed by the delimiter: what a scan has consumed
      once it has cut those parts. */
  function Terminated(ps: seq<seq<int>>, d: int): seq<int>
    decreases |ps|
  {
    if |ps| == 0 then [] else ps[0] + [d] + Terminated(ps[1..], d)
  }

  /** No part holds the delimiter. */
  ghost predicate AllFree(ps: seq<seq<int>>, d: int) {
    forall i :: 0 <= i < |ps| ==> d !in ps[i]
  }

  /** Every unit of `t` is the delimiter. */
  ghost predicate DelimitersOnly(t: seq<int>, d: int) {
    forall k :: 0 <= k < |t| ==> t[k] == d
  }

  /** What the fast path returns for content `u`, delimiter `d` and
      `limit`, given as the conditions the parts `fs` meet:
      - no delimiter in `u`: the one part `u`;
      - `limit > 0`: at most `limit` parts that join back to `u`, none but
        the last holding a delimiter, and the last holding none either
        when fewer than `limit` parts were cut;
      - `limit < 0`: parts without delimiters that join back to `u`;
      - `limit == 0`: the same, except that trailing empty parts are
        dropped, so that the join is `u` less a run of delimiters at its
        end and the last part is not empty.
      `SplitSpecUnique` shows at most one `fs` meets these. */
  ghost predicate IsFastSplit(u: seq<int>, d: int, limit: int, fs: seq<seq<int>>) {
    if d !in u then fs == [u]
    else if limit > 0 then
      0 < |fs| <= limit && Join(fs, d) == u
      && (forall i :: 0 <= i < |fs| - 1 ==> d !in fs[i])
      && (|fs| < limit ==> d !in fs[|fs| - 1])
    else if limit < 0 then
      Join(fs, d) == u && AllFree(fs, d)
    else
      var j := Join(fs, d);
      AllFree(fs, d) && j <= u && DelimitersOnly(u[|j|..], d)
      && (|fs| > 0 ==> |fs[|fs| - 1]| > 0)
  }

  // ---------------------------------------------------------------------
  // Algebra of joining

  lemma {:induction false} TerminatedSnoc(ps: seq<seq<int>>, p: seq<int>, d: int)
    ensures Terminated(ps + [p], d) == Terminated(ps, d) + p + [d]
    decreases |ps|
  {
    if |ps| == 0 {
      assert ps + [p] == [p];
      assert [p][1..] == [];
    } else {
      var head, rest := ps[0], Terminated(ps[1..], d);
      assert (ps + [p])[1..] == ps[1..] + [p];
      TerminatedSnoc(ps[1..], p, d);
      Assoc(head + [d], rest, p + [d]);
    }
  }

  lemma Assoc(a: seq<int>, b: seq<int>, c: seq<int>)
    ensures a + (b + c) == a + b + c
  {
  }

  lemma {:induction false} JoinSnoc(ps: seq<seq<int>>, p: seq<int>, d: int)
    ensures Join(ps + [p], d) == Terminated(ps, d) + p
    decreases |ps|
  {
    if |ps| == 0 {
      assert ps + [p] == [p];
    } else {
      assert (ps + [p])[1..] == ps[1..] + [p];
      JoinSnoc(ps[1..], p, d);
    }
  }

  /** A non-empty list of parts ends with its last part. */
  lemma JoinLast(ps: seq<seq<int>>, d: int)
    requires |ps| > 0
    ensures Join(ps, d) == Terminated(ps[..|ps| - 1], d) + ps[|ps| - 1]
  {
    assert ps == ps[..|ps| - 1] + [ps[|ps| - 1]];
    JoinSnoc(ps[..|ps| - 1], ps[|ps| - 1], d);
  }

  lemma {:induction false} TerminatedIsJoin(ps: seq<seq<int>>, d: int)
    requires |ps| > 0
    ensures Terminated(ps, d) == Join(ps, d) + [d]
    decreases |ps|
  {
    if |ps| > 1 {
      TerminatedIsJoin(ps[1..], d);
    }
  }

  /** In `a + [d] + x` with no delimiter in `a`, the first delimiter is
      at index `|a|`. */
  lemma DelimiterAfter(a: seq<int>, x: seq<int>, d: int)
    requires d !in a
    ensures (a + [d] + x)[|a|] == d
    ensures forall i :: 0 <= i < |a| ==> (a + [d] + x)[i] != d
  {
    forall i | 0 <= i < |a| ensures (a + [d] + x)[i] != d {
      assert (a + [d] + x)[i] == a[i];
    }
  }

  /** The first delimiter of a joined content ends its first part. */
  lemma FirstDelimiter(a: seq<int>, x: seq<int>, b: seq<int>, y: seq<int>, d: int)
    requires d !in a && d !in b
    requires a + [d] + x == b + [d] + y
    ensures a == b && x == y
  {
    var w := a + [d] + x;
    DelimiterAfter(a, x, d);
    DelimiterAfter(b, y, d);
    assert a == w[..|a|] && b == w[..|b|];
    assert x == w[|a| + 1..] && y == w[|b| + 1..];
  }

  /** Two lists of parts with the same join, whose parts before the last
      hold no delimiter, are equal when equally long; otherwise the last
      part of the shorter one holds a delimiter. */
  lemma {:induction false} JoinUnique(ps: seq<seq<int>>, qs: seq<seq<int>>, d: int)
    requires |ps| > 0 && |qs| > 0
    requires forall i :: 0 <= i < |ps| - 1 ==> d !in ps[i]
    requires forall i :: 0 <= i < |qs| - 1 ==> d !in qs[i]
    requires Join(ps, d) == Join(qs, d)
    ensures |ps| == |qs| ==> ps == qs
    ensures |ps| < |qs| ==> d in ps[|ps| - 1]
    decreases |ps|
  {
    if |ps| == 1 && |qs| > 1 {
      assert Join(qs, d)[|qs[0]|] == d;
    } else if |ps| > 1 && |qs| > 1 {
      FirstDelimiter(ps[0], Join(ps[1..], d), qs[0], Join(qs[1..], d), d);
      JoinUnique(ps[1..], qs[1..], d);
      if |ps| == |qs| {
        assert ps == [ps[0]] + ps[1..] && qs == [qs[0]] + qs[1..];
      }
    }
  }

  /** Dropping empty parts from the end of a list removes delimiters from
      the end of its join. */
  lemma {:induction false} JoinTrim(fs: seq<seq<int>>, n: nat, d: int)
    requires n <= |fs|
    requires forall k :: n <= k < |fs| ==> fs[k] == []
    ensures Join(fs[..n], d) <= Join(fs, d)
    ensures DelimitersOnly(Join(fs, d)[|Join(fs[..n], d)|..], d)
    decreases |fs|
  {
    if n < |fs| {
      var init := fs[..|fs| - 1];
      JoinLast(fs, d);
      assert Join(fs, d) == Terminated(init, d);
      assert init[..n] == fs[..n];
      if |init| > 0 {
        TerminatedIsJoin(init, d);
        JoinTrim(init, n, d);
      }
    } else {
      assert fs[..n] == fs;
    }
  }

  /** The join of non-empty parts without delimiters is empty exactly when
      there are no parts, and otherwise ends with a unit other than the
      delimiter. */
  lemma JoinEnd(fs: seq<seq<int>>, d: int)
    requires AllFree(fs, d)
    requires |fs| > 0 ==> |fs[|fs| - 1]| > 0
    ensures |fs| == 0 <==> Join(fs, d) == []
    ensures |fs| > 0 ==> Join(fs, d)[|Join(fs, d)| - 1] != d
  {
    if |fs| > 0 {
      JoinLast(fs, d);
      var last := fs[|fs| - 1];
      assert d !in last;
      assert Join(fs, d)[|Join(fs, d)| - 1] == last[|last| - 1];
    }
  }

  /** A prefix of `u` followed by delimiters only is no shorter than
      another prefix that is empty or ends in another unit. */
  lemma TrimmedPrefixLonger(u: seq<int>, j: seq<int>, k: seq<int>, d: int)
    requires j <= u && DelimitersOnly(u[|j|..], d)
    requires k <= u
    requires |k| > 0 ==> k[|k| - 1] != d
    ensures |k| <= |j|
  {
    TailIsDelimiters(u, j, d);
  }

  lemma TailIsDelimiters(u: seq<int>, j: seq<int>, d: int)
    requires |j| <= |u| && DelimitersOnly(u[|j|..], d)
    ensures forall i :: |j| <= i < |u| ==> u[i] == d
  {
    forall i | |j| <= i < |u| ensures u[i] == d {
      assert u[|j|..][i - |j|] == u[i];
    }
  }

  /** Two prefixes of `u` followed by delimiters only, each empty or ending
      in another unit, are equal. */
  lemma TrimmedPrefixUnique(u: seq<int>, j: seq<int>, k: seq<int>, d: int)
    requires j <= u && DelimitersOnly(u[|j|..], d)
    requires k <= u && DelimitersOnly(u[|k|..], d)
    requires |j| > 0 ==> j[|j| - 1] != d
    requires |k| > 0 ==> k[|k| - 1] != d
    ensures j == k
  {
    TrimmedPrefixLonger(u, j, k, d);
    TrimmedPrefixLonger(u, k, j, d);
    assert j == u[..|j|] && k == u[..|k|];
  }

  /** The description of the fast path fixes its result: for each content,
      delimiter and limit, at most one list of parts meets it. */
  lemma SplitSpecUnique(u: seq<int>, d: int, limit: int, fs: seq<seq<int>>, gs: seq<seq<int>>)
    requires IsFastSplit(u, d, limit, fs) && IsFastSplit(u, d, limit, gs)
    ensures fs == gs
  {
    if d !in u {
    } else if limit != 0 {
      assert |fs| > 0 && |gs| > 0;
      JoinUnique(fs, gs, d);
      JoinUnique(gs, fs, d);
    } else {
      JoinEnd(fs, d);
      JoinEnd(gs, d);
      TrimmedPrefixUnique(u, Join(fs, d), Join(gs, d), d);
      if |fs| > 0 && |gs| > 0 {
        JoinUnique(fs, gs, d);
        JoinUnique(gs, fs, d);
      }
    }
  }

  // ---------------------------------------------------------------------
  // The scan

  /** The contents of a list of values. */
  function Contents(parts: seq<Str>): seq<seq<int>> {
    seq(|parts|, i requires 0 <= i < |parts| => Units(parts[i]))
  }

  lemma ContentsSnoc(list: seq<Str>, p: Str)
    ensures Contents(list + [p]) == Contents(list) + [Units(p)]
  {
  }

  lemma AppendFree(fs: seq<seq<int>>, p: seq<int>, d: int)
    requires AllFree(fs, d) && d !in p
    ensures AllFree(fs + [p], d)
  {
  }

  lemma ContentsPrefix(list: seq<Str>, n: nat)
    requires n <= |list|
    ensures Contents(list[..n]) == Contents(list)[..n]
  {
  }

  /** `indexOf(ch, off)` for a char that is one code unit, read as a
      position in the content. */
  method NextDelimiter(s: Str, ch: CodeUnit, off: nat) returns (next: int)
    requires off <= Length(s)
    ensures next == -1 ==> ch !in Units(s)[off..]
    ensures next != -1 ==> off <= next < Length(s) && Units(s)[next] == ch && ch !in Units(s)[off..next]
  {
    next := Search.IndexOfChar(s, ch, off);
    ghost var u := Units(s);
    assert CodePointUnits(ch).value == [ch];
    assert Search.Max(off, 0) == off;
    if next == -1 {
      forall i | 0 <= i < |u[off..]| ensures u[off..][i] != ch {
        assert !MatchesAt(u, [ch], off + i);
        assert u[off + i..off + i + 1] == [u[off..][i]];
      }
    } else {
      assert u[next..next + 1] == [u[next]];
      forall i | 0 <= i < |u[off..next]| ensures u[off..next][i] != ch {
        assert !MatchesAt(u, [ch], off + i);
        assert u[off + i..off + i + 1] == [u[off..next][i]];
      }
    }
  }

  /** `substring(begin, end)` for a range already known to be inside. */
  method Segment(compact: bool, s: Str, begin: nat, end: nat) returns (p: Str)
    requires begin <= end <= Length(s)
    ensures Units(p) == Units(s)[begin..end]
    ensures WellFormed(s, compact) ==> WellFormed(p, compact)
  {
    var r := Transform.Substring(compact, s, begin, end);
    p := r.value;
  }

  /** The state of the scan once it has cut the parts `fs`: they hold no
      delimiter and, each followed by one, make up the first `off` units
      of `u`; so `off` is 0 only before the first cut, and `u` holds a
      delimiter after it. */
  ghost predicate Consumed(u: seq<int>, d: int, fs: seq<seq<int>>, off: int) {
    && 0 <= off <= |u|
    && Terminated(fs, d) == u[..off]
    && AllFree(fs, d)
    && (off == 0 <==> |fs| == 0)
    && (off > 0 ==> d in u)
  }

  /** Cutting the part up to the next delimiter extends what the scan has
      consumed to just past that delimiter. */
  lemma CutStep(u: seq<int>, d: int, fs: seq<seq<int>>, off: nat, next: nat, p: seq<int>)
    requires Consumed(u, d, fs, off)
    requires off <= next < |u| && u[next] == d && p == u[off..next] && d !in p
    ensures Consumed(u, d, fs + [p], next + 1)
  {
    TerminatedSnoc(fs, p, d);
    assert u[..off] + u[off..next] + [d] == u[..next + 1];
    AppendFree(fs, p, d);
  }

  /** Adding the rest of the content as the last part joins back to it. */
  lemma LastPart(u: seq<int>, d: int, fs: seq<seq<int>>, off: nat, p: seq<int>)
    requires Consumed(u, d, fs, off) && p == u[off..|u|]
    ensures Join(fs + [p], d) == u
    ensures forall i :: 0 <= i < |fs + [p]| - 1 ==> d !in (fs + [p])[i]
    ensures d !in p ==> AllFree(fs + [p], d)
  {
    JoinSnoc(fs, p, d);
    assert u[..off] + u[off..] == u;
    if d !in p {
      AppendFree(fs, p, d);
    }
  }

  /** With the rest added as the last part, the parts meet the
      description for a non-zero limit that was not reached. */
  lemma FinishRest(u: seq<int>, d: int, limit: int, fs: seq<seq<int>>, off: nat, p: seq<int>)
    requires Consumed(u, d, fs, off) && off > 0
    requires p == u[off..|u|] && d !in p
    requires limit > 0 ==> |fs| < limit
    ensures Join(fs + [p], d) == u && AllFree(fs + [p], d)
    ensures limit != 0 ==> IsFastSplit(u, d, limit, fs + [p])
  {
    LastPart(u, d, fs, off, p);
  }

  /** The parts the scan cut when it reached a positive limit meet the
      description. */
  lemma FinishCut(u: seq<int>, d: int, limit: int, fs: seq<seq<int>>)
    requires d in u && limit > 0 && |fs| == limit && Join(fs, d) == u
    requires forall i :: 0 <= i < |fs| - 1 ==> d !in fs[i]
    ensures IsFastSplit(u, d, limit, fs)
  {
  }

  /** Dropping the empty parts at the end gives the parts for a limit of
      zero. */
  lemma FinishTrimmed(u: seq<int>, d: int, fs: seq<seq<int>>, n: nat)
    requires d in u && Join(fs, d) == u && AllFree(fs, d)
    requires n <= |fs| && forall k :: n <= k < |fs| ==> fs[k] == []
    requires n > 0 ==> fs[n - 1] != []
    ensures IsFastSplit(u, d, 0, fs[..n])
  {
    JoinTrim(fs, n, d);
  }

  /** The count of parts left once the empty ones at the end are dropped. */
  method TrailingNonEmpty(list: seq<Str>) returns (n: nat)
    ensures n <= |list|
    ensures forall k :: n <= k < |list| ==> Contents(list)[k] == []
    ensures n > 0 ==> Contents(list)[n - 1] != []
  {
    n := |list|;
    while n > 0 && Length(list[n - 1]) == 0
      invariant n <= |list|
      invariant forall k :: n <= k < |list| ==> Contents(list)[k] == []
    {
      n := n - 1;
    }
  }

  /** The loop of the fast path: cut a part at each delimiter until there
      is none left or, with a positive limit, until `limit - 1` parts are
      cut, in which case the whole rest becomes the last part and `cut`
      is set. `off` is where the uncut rest begins. */
  method CutParts(compact: bool, s: Str, ch: CodeUnit, limit: int) returns (list: seq<Str>, off: nat, ghost cut: bool)
    ensures off == 0 <==> ch !in Units(s)
    ensures off == 0 ==> list == []
    ensures cut ==> limit > 0 && |list| == limit
    ensures cut ==> Join(Contents(list), ch) == Units(s)
    ensures cut ==> forall i :: 0 <= i < |list| - 1 ==> ch !in Contents(list)[i]
    ensures !cut ==> Consumed(Units(s), ch, Contents(list), off) && ch !in Units(s)[off..]
    ensures !cut && limit > 0 ==> |list| < limit
    ensures WellFormed(s, compact) ==> forall i :: 0 <= i < |list| ==> WellFormed(list[i], compact)
  {
    ghost var u := Units(s);
    ghost var wf := WellFormed(s, compact);
    off := 0;
    var limited := limit > 0;
    list := [];
    cut := false;
    while true
      invariant Consumed(u, ch, Contents(list), off)
      invariant limited ==> |list| < limit
      invariant wf ==> forall i :: 0 <= i < |list| ==> WellFormed(list[i], compact)
      invariant !cut
      decreases |u| - off
    {
      var next := NextDelimiter(s, ch, off);
      if next == -1 {
        break;
      }
      if !limited || |list| < limit - 1 {
        var part := Segment(compact, s, off, next);
        CutStep(u, ch, Contents(list), off, next, Units(part));
        ContentsSnoc(list, part);
        list := list + [part];
        off := next + 1;
      } else {
        var last := Length(s);
        var part := Segment(compact, s, off, last);
        LastPart(u, ch, Contents(list), off, Units(part));
        ContentsSnoc(list, part);
        list := list + [part];
        off := last;
        cut := true;
        return;
      }
    }
  }

  /** The scan of the fast path: cut at each delimiter, except that with a
      positive limit the last of `limit` parts takes the whole rest; the
      receiver itself when there was no delimiter; the rest of the content
      as a last part unless the limit was reached; with a limit of zero,
      the empty parts at the end dropped. */
  method SplitFast(compact: bool, s: Str, ch: CodeUnit, limit: int) returns (parts: seq<Str>)
    ensures IsFastSplit(Units(s), ch, limit, Contents(parts))
    ensures ch !in Units(s) ==> parts == [s]
    ensures WellFormed(s, compact) ==> forall i :: 0 <= i < |parts| ==> WellFormed(parts[i], compact)
  {
    ghost var u := Units(s);
    var list, off, cut := CutParts(compact, s, ch, limit);
    if off == 0 {
      assert Contents([s]) == [u];
      return [s];
    }
    var limited := limit > 0;
    if !limited || |list| < limit {
      var part := Segment(compact, s, off, Length(s));
      FinishRest(u, ch, limit, Contents(list), off, Units(part));
      ContentsSnoc(list, part);
      list := list + [part];
    } else {
      FinishCut(u, ch, limit, Contents(list));
    }
    if limit == 0 {
      var n := TrailingNonEmpty(list);
      FinishTrimmed(u, ch, Contents(list), n);
      ContentsPrefix(list, n);
      parts := list[..n];
    } else {
      parts := list;
    }
  }

  // ---------------------------------------------------------------------
  // Choosing the fast path

  /** The chars that have a meaning of their own in a regular expression
      and so cannot stand for themselves: `.$|()[{^?*+\`. */
  const MetaChars: seq<int> :=
    ['.' as int, '$' as int, '|' as int, '(' as int, ')' as int, '[' as int,
     '{' as int, '^' as int, '?' as int, '*' as int, '+' as int, '\\' as int]

  const Backslash: int := '\\' as int

  predicate IsAsciiAlphanumeric(c: int) {
    '0' as int <= c <= '9' as int || 'a' as int <= c <= 'z' as int || 'A' as int <= c <= 'Z' as int
  }

  /** Java's `((c - lo) | (hi - c)) < 0`: the sign bit of a bitwise or is
      set exactly when it is set in one of the operands, so the test holds
      when one of the differences is negative. */
  predicate OutsideRange(c: int, lo: int, hi: int) {
    c - lo < 0 || hi - c < 0
  }

  /** The test at the head of `split`: the char the pattern stands for,
      when it is one char that is not a metacharacter, or a backslash and
      one char that is not an ASCII digit or letter; never a surrogate. */
  function FastPathChar(regex: Str): (r: Option<CodeUnit>)
    ensures r.Some? <==>
              ((Length(regex) == 1 && Units(regex)[0] !in MetaChars)
               || (Length(regex) == 2 && Units(regex)[0] == Backslash && !IsAsciiAlphanumeric(Units(regex)[1])))
              && !(MinHighSurrogate <= Units(regex)[Length(regex) - 1] <= MaxLowSurrogate)
    ensures r.Some? ==> r.value == Units(regex)[Length(regex) - 1]
  {
    var p := Units(regex);
    var ch :=
      if |p| == 1 && p[0] !in MetaChars then Some(p[0])
      else if |p| == 2 && p[0] == Backslash
              && OutsideRange(p[1], '0' as int, '9' as int)
              && OutsideRange(p[1], 'a' as int, 'z' as int)
              && OutsideRange(p[1], 'A' as int, 'Z' as int) then Some(p[1])
      else None;
    if ch.Some? && (ch.value < MinHighSurrogate || ch.value > MaxLowSurrogate) then ch else None
  }

  /** What `split` returns: the parts of the fast path, or the call handed
      to `java.util.regex.Pattern`, which is not part of this model. */
  datatype SplitOutcome = Parts(parts: seq<Str>) | Delegated

  /** `split(regex, limit)`: the fast path exactly when the pattern stands
      for one literal char, with the parts `IsFastSplit` fixes. */
  method Split(compact: bool, s: Str, regex: Str, limit: int) returns (r: SplitOutcome)
    ensures r.Delegated? <==> FastPathChar(regex).None?
    ensures r.Parts? ==> IsFastSplit(Units(s), FastPathChar(regex).value, limit, Contents(r.parts))
    ensures r.Parts? && WellFormed(s, compact) ==>
              forall i :: 0 <= i < |r.parts| ==> WellFormed(r.parts[i], compact)
  {
    match FastPathChar(regex)
    case Some(ch) =>
      var parts := SplitFast(compact, s, ch, limit);
      r := Parts(parts);
    case None =>
      r := Delegated;
  }

  // ---------------------------------------------------------------------
  // The examples of the documentation of `split`

  /** The code units of an ASCII text. */
  function Chars(t: string): seq<int> {
    seq(|t|, i requires 0 <= i < |t| => t[i] as int)
  }

  /** `"boo:and:foo".split(":", 2)` is `{ "boo", "and:foo" }`. */
  lemma ColonLimitTwo(fs: seq<seq<int>>)
    requires IsFastSplit(Chars("boo:and:foo"), ':' as int, 2, fs)
    ensures fs == [Chars("boo"), Chars("and:foo")]
  {
    var u := Chars("boo:and:foo");
    var e := [Chars("boo"), Chars("and:foo")];
    assert u[3] == ':' as int;
    assert Join(e, ':' as int) == u;
    SplitSpecUnique(u, ':' as int, 2, fs, e);
  }

  /** `"boo:and:foo"` is `"boo"`, `"and"` and `"foo"` joined by `:`. */
  lemma ColonParts()
    ensures Join([Chars("boo"), Chars("and"), Chars("foo")], ':' as int) == Chars("boo:and:foo")
    ensures AllFree([Chars("boo"), Chars("and"), Chars("foo")], ':' as int)
  {
    var e := [Chars("boo"), Chars("and"), Chars("foo")];
    assert Join(e[2..], ':' as int) == Chars("foo");
    assert Join(e[1..], ':' as int) == Chars("and:foo");
  }

  /** `"boo:and:foo".split(":", n)` for `n` of 5, -2 or 0 is
      `{ "boo", "and", "foo" }`. */
  lemma ColonUnlimited(limit: int, fs: seq<seq<int>>)
    requires limit == 5 || limit == -2 || limit == 0
    requires IsFastSplit(Chars("boo:and:foo"), ':' as int, limit, fs)
    ensures fs == [Chars("boo"), Chars("and"), Chars("foo")]
  {
    var u := Chars("boo:and:foo");
    ColonParts();
    assert u[3] == ':' as int;
    assert u[|u|..] == [];
    SplitSpecUnique(u, ':' as int, limit, fs, [Chars("boo"), Chars("and"), Chars("foo")]);
  }

  /** `"boo:and:foo"` is `"b"`, `""`, `":and:f"`, `""` and `""` joined by
      `o`. */
  lemma LetterOParts()
    ensures Join([Chars("b"), [], Chars(":and:f"), [], []], 'o' as int) == Chars("boo:and:foo")
    ensures AllFree([Chars("b"), [], Chars(":and:f"), [], []], 'o' as int)
  {
    var e := [Chars("b"), [], Chars(":and:f"), [], []];
    var o := 'o' as int;
    LetterOTail();
    assert e[2..] == [Chars(":and:f"), [], []];
    assert Join(e[1..], o) == [] + [o] + Chars(":and:foo");
    assert Chars("b") + [o] + Chars("o:and:foo") == Chars("boo:and:foo");
    assert 'o' !in "b" && 'o' !in ":and:f";
  }

  lemma LetterOTail()
    ensures Join([Chars(":and:f"), [], []], 'o' as int) == Chars(":and:foo")
  {
    var o := 'o' as int;
    var e := [Chars(":and:f"), [], []];
    assert Join(e[1..], o) == [o];
  }

  /** `"boo:and:foo".split("o", n)` for `n` of 5 or -2 is
      `{ "b", "", ":and:f", "", "" }`. */
  lemma LetterOUnlimited(limit: int, fs: seq<seq<int>>)
    requires limit == 5 || limit == -2
    requires IsFastSplit(Chars("boo:and:foo"), 'o' as int, limit, fs)
    ensures fs == [Chars("b"), [], Chars(":and:f"), [], []]
  {
    var u := Chars("boo:and:foo");
    LetterOParts();
    assert u[1] == 'o' as int;
    SplitSpecUnique(u, 'o' as int, limit, fs, [Chars("b"), [], Chars(":and:f"), [], []]);
  }

  /** `"boo:and:foo".split("o", 0)` is `{ "b", "", ":and:f" }`: the two
      empty parts at the end are dropped. */
  lemma LetterOZero(fs: seq<seq<int>>)
    requires IsFastSplit(Chars("boo:and:foo"), 'o' as int, 0, fs)
    ensures fs == [Chars("b"), [], Chars(":and:f")]
  {
    var u := Chars("boo:and:foo");
    var e := [Chars("b"), [], Chars(":and:f")];
    var o := 'o' as int;
    assert u[1] == o;
    assert Join(e[1..], o) == Chars("o:and:f");
    assert Join(e, o) == Chars("boo:and:f");
    assert u[9..] == [o, o];
    SplitSpecUnique(u, o, 0, fs, e);
  }
}
