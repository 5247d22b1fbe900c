/** Concrete cases of the model, each a worked instance of the contracts
    of the operations it calls. */
module Scenarios {
  import opened JavaInt
  import opened Failures
  import opened Codecs
  import opened StringValue
  import Construct
  import Search
  import Transform

  const Hello: seq<CodeUnit> := ['h' as int, 'e' as int, 'l' as int, 'l' as int, 'o' as int]

  /** `new String("hello".toCharArray())` with compaction on is Narrow,
      five chars long, and its char at 4 is `'o'`. */
  lemma HelloIsNarrow()
    ensures Construct.FromChars(true, Hello, 0, 5) == Ok(Narrow(Hello))
    ensures Length(Narrow(Hello)) == 5
    ensures CharAt(Narrow(Hello), 4) == Ok('o' as int)
  {
    assert AllLatin1(Hello[0..5]);
    assert Hello[0..5] == Hello;
  }

  /** `new String(new int[] { 0x1F600 }, 0, 1)`: the code point is
      outside the Basic Multilingual Plane, so even with compaction on
      the value is Wide, holding the surrogate pair; it is two chars long
      and one code point. */
  lemma SupplementaryIsWide()
    ensures Construct.FromCodePoints(true, [0x1F600], 0, 1) == Ok(Wide([0xD83D, 0xDE00]))
    ensures Length(Wide([0xD83D, 0xDE00])) == 2
    ensures CodePointCount(Wide([0xD83D, 0xDE00]), 0, 2) == Ok(1)
  {
    var cps: seq<int> := [0x1F600];
    assert cps[0..1] == cps;
    assert !(0 <= cps[0] < 0x100);
    var units := Construct.EncodeCodePoints(cps).value;
    assert units == CodePointUnits(0x1F600).value;
    assert [0xD83D, 0xDE00][2..] == [];
  }

  /** `indexOf` decides a Narrow receiver and a Wide argument by their
      tags alone: a Wide value holding only `'b'`, which no process
      following the invariant builds, is not found in Narrow `"abc"`
      although its chars occur at 1. */
  lemma WideNeedleNotFoundInNarrow()
    ensures Search.IndexOfFrom(Narrow([97, 98, 99]), Wide([98]), 0) == -1
    ensures MatchesAt([97, 98, 99], [98], 1)
    ensures !WellFormed(Wide([98]), true) && !WellFormed(Narrow([97, 98, 99]), false)
  {
    assert [97, 98, 99][1..2] == [98];
  }

  /** `"ab".repeat(3)` is `"ababab"`. */
  method RepeatThrice() returns (r: Result<Str>)
    ensures r == Ok(Narrow([97, 98, 97, 98, 97, 98]))
  {
    var ab: seq<CodeUnit> := [97, 98];
    r := Transform.Repeat(true, Narrow([97, 98]), 3);
    assert Transform.RepeatUnits(ab, 1) == ab;
    assert Transform.RepeatUnits(ab, 3) == ab + ab + ab;
    assert r.Ok?;
    assert Units(r.value) == [97, 98, 97, 98, 97, 98];
    assert r.value.Narrow?;
  }

  /** `"x".repeat(0)` is `""` and `"x".repeat(-1)` is refused. */
  method RepeatEdges() returns (zero: Result<Str>, negative: Result<Str>)
    ensures zero == Ok(Narrow([]))
    ensures negative == Err(IllegalArgument)
  {
    zero := Transform.Repeat(true, Narrow([120]), 0);
    negative := Transform.Repeat(true, Narrow([120]), -1);
  }
}
