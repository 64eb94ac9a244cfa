/** Folding block-delimiter sequences away in place: each delimiter's literal run
    moves to the sequence behind it. */
module MergeDelimiters {

  const U32: nat := 0x1_0000_0000

  type u32 = x: int | 0 <= x < 0x1_0000_0000

  datatype Sequence = Sequence(offset: u32, litLength: u32, matchLength: u32, rep: u32) {
    predicate Delimiter() {
      offset == 0 && matchLength == 0
    }
  }

  /** What a sequence says apart from its literal run. */
  datatype Match = Match(offset: u32, matchLength: u32, rep: u32)

  function AddU32(a: u32, b: u32): u32 {
    if a + b < U32 then a + b else a + b - U32
  }

  /** The pure fold: `carry` is the literal run of the delimiters just passed. */
  function Merged(s: seq<Sequence>, carry: u32): seq<Sequence> {
    if s == [] then []
    else if s[0].Delimiter() then Merged(s[1..], AddU32(s[0].litLength, carry))
    else [s[0].(litLength := AddU32(s[0].litLength, carry))] + Merged(s[1..], 0)
  }

  /** A carry may as well already sit in the first sequence's literal run. */
  lemma CarryInto(s: seq<Sequence>, carry: u32)
    requires s != []
    ensures Merged(s[0 := s[0].(litLength := AddU32(s[0].litLength, carry))], 0) == Merged(s, carry)
  {
    var t := s[0 := s[0].(litLength := AddU32(s[0].litLength, carry))];
    assert t[1..] == s[1..];
    assert AddU32(AddU32(s[0].litLength, carry), 0) == AddU32(s[0].litLength, carry);
  }

  /** A delimiter gives its literals to the sequence behind it, if there is one. */
  lemma PassDelimiter(rest: seq<Sequence>)
    requires rest != [] && rest[0].Delimiter()
    ensures Merged(rest, 0) ==
            if |rest| == 1 then []
            else Merged(rest[1..][0 := rest[1].(litLength := AddU32(rest[1].litLength, rest[0].litLength))], 0)
  {
    if |rest| > 1 {
      CarryInto(rest[1..], rest[0].litLength);
    }
  }

  lemma KeepSequence(done: seq<Sequence>, rest: seq<Sequence>)
    requires rest != [] && !rest[0].Delimiter()
    ensures done + Merged(rest, 0) == (done + [rest[0]]) + Merged(rest[1..], 0)
  {
    assert rest[0].(litLength := AddU32(rest[0].litLength, 0)) == rest[0];
  }

  /** One pass over the array; the result is the number of sequences left in
      front. */
  method MergeBlockDelimiters(sequences: array<Sequence>, seqsSize: nat) returns (out: nat)
    requires seqsSize <= sequences.Length
    modifies sequences
    ensures out <= seqsSize
    ensures sequences[..out] == Merged(old(sequences[..seqsSize]), 0)
    ensures sequences[seqsSize..] == old(sequences[seqsSize..])
  {
    hide Merged;
    if seqsSize == 0 {
      MergedNothing();
      return 0;
    }
    out := 0;
    var i := 0;
    while i < seqsSize
      invariant 0 <= out <= i <= seqsSize
      invariant sequences[..out] + Merged(sequences[i..seqsSize], 0) == Merged(old(sequences[..seqsSize]), 0)
      invariant sequences[seqsSize..] == old(sequences[seqsSize..])
    {
      ghost var rest, done := sequences[i..seqsSize], sequences[..out];
      if sequences[i].offset == 0 && sequences[i].matchLength == 0 {
        PassDelimiter(rest);
        if i != seqsSize - 1 {
          sequences[i + 1] := sequences[i + 1].(litLength := AddU32(sequences[i + 1].litLength, sequences[i].litLength));
          assert sequences[i + 1..seqsSize] ==
                 rest[1..][0 := rest[1].(litLength := AddU32(rest[1].litLength, rest[0].litLength))];
        } else {
          MergedNothing();
          assert sequences[i + 1..seqsSize] == [];
        }
        assert sequences[..out] == done;
      } else {
        KeepSequence(done, rest);
        sequences[out] := sequences[i];
        out := out + 1;
        assert sequences[..out] == done + [rest[0]];
        assert sequences[i + 1..seqsSize] == rest[1..];
      }
      i := i + 1;
    }
    MergedNothing();
    assert sequences[i..seqsSize] == [];
  }

  lemma MergedNothing()
    ensures Merged([], 0) == []
  {
  }

  // ------------------------------------------------------------------
  // What the fold keeps
  // ------------------------------------------------------------------

  function Matches(s: seq<Sequence>): seq<Match> {
    if s == [] then []
    else if s[0].Delimiter() then Matches(s[1..])
    else [Match(s[0].offset, s[0].matchLength, s[0].rep)] + Matches(s[1..])
  }

  function Literals(s: seq<Sequence>): nat {
    if s == [] then 0 else s[0].litLength + Literals(s[1..])
  }

  /** The literal run of the delimiters at the very end. */
  function TrailingLiterals(s: seq<Sequence>): nat
    decreases |s|
  {
    if s == [] || !s[|s| - 1].Delimiter() then 0
    else s[|s| - 1].litLength + TrailingLiterals(s[..|s| - 1])
  }

  /** No delimiter is left, and the matches are the original ones in order. */
  lemma {:induction false} MergedKeepsMatches(s: seq<Sequence>, carry: u32)
    ensures forall k :: 0 <= k < |Merged(s, carry)| ==> !Merged(s, carry)[k].Delimiter()
    ensures Matches(Merged(s, carry)) == Matches(s) && |Merged(s, carry)| == |Matches(s)|
  {
    if s != [] {
      MergedKeepsMatches(s[1..], if s[0].Delimiter() then AddU32(s[0].litLength, carry) else 0);
      if !s[0].Delimiter() {
        assert Merged(s, carry)[1..] == Merged(s[1..], 0);
      }
    }
  }

  predicate AllDelimiters(s: seq<Sequence>) {
    forall k :: 0 <= k < |s| ==> s[k].Delimiter()
  }

  lemma {:induction false} TrailingOfDelimiters(s: seq<Sequence>)
    requires AllDelimiters(s)
    ensures TrailingLiterals(s) == Literals(s)
  {
    if s != [] {
      var front := s[..|s| - 1];
      TrailingOfDelimiters(front);
      LiteralsSplit(front, [s[|s| - 1]]);
      assert front + [s[|s| - 1]] == s;
    }
  }

  lemma {:induction false} LiteralsSplit(a: seq<Sequence>, b: seq<Sequence>)
    ensures Literals(a + b) == Literals(a) + Literals(b)
  {
    if a == [] {
      assert a + b == b;
    } else {
      LiteralsSplit(a[1..], b);
      assert (a + b)[1..] == a[1..] + b;
    }
  }

  /** A first sequence that is followed by a real one leaves the trailing run
      alone, and so does a real first one. */
  lemma {:induction false} TrailingSkipsFirst(s: seq<Sequence>)
    requires s != [] && !AllDelimiters(s)
    ensures !AllDelimiters(s[1..]) || !s[0].Delimiter()
    ensures TrailingLiterals(s) == TrailingLiterals(s[1..])
    decreases |s|
  {
    if |s| > 1 && s[|s| - 1].Delimiter() {
      var front := s[..|s| - 1];
      var k :| 0 <= k < |s| && !s[k].Delimiter();
      assert k < |front| && front[k] == s[k];
      TrailingSkipsFirst(front);
      assert front[1..] == s[1..][..|s| - 2];
    }
  }

  /** How often the 32-bit sums that reach the result wrap. */
  function Wraps(s: seq<Sequence>, carry: u32): nat {
    if AllDelimiters(s) then 0
    else (if s[0].litLength + carry < U32 then 0 else 1)
         + Wraps(s[1..], if s[0].Delimiter() then AddU32(s[0].litLength, carry) else 0)
  }

  lemma {:induction false} DelimitersVanish(s: seq<Sequence>, carry: u32)
    requires AllDelimiters(s)
    ensures Merged(s, carry) == []
  {
    if s != [] {
      DelimitersVanish(s[1..], AddU32(s[0].litLength, carry));
    }
  }

  lemma {:induction false} ConservedWith(s: seq<Sequence>, carry: u32)
    requires !AllDelimiters(s)
    ensures Literals(Merged(s, carry)) + U32 * Wraps(s, carry) == Literals(s) + carry - TrailingLiterals(s)
  {
    TrailingSkipsFirst(s);
    if s[0].Delimiter() {
      ConservedWith(s[1..], AddU32(s[0].litLength, carry));
    } else {
      assert Merged(s, carry)[1..] == Merged(s[1..], 0);
      if AllDelimiters(s[1..]) {
        TrailingOfDelimiters(s[1..]);
        DelimitersVanish(s[1..], 0);
      } else {
        ConservedWith(s[1..], 0);
      }
    }
  }

  /** Every literal is in the result, except the run that ends in a final
      delimiter, which is dropped; each wrap of a 32-bit sum loses 2^32, and no
      sum wraps while all literals together stay below that. */
  lemma LiteralsConserved(s: seq<Sequence>)
    ensures Literals(Merged(s, 0)) + 0x1_0000_0000 * Wraps(s, 0) == Literals(s) - TrailingLiterals(s)
    ensures Literals(s) < 0x1_0000_0000 ==> Literals(Merged(s, 0)) == Literals(s) - TrailingLiterals(s)
  {
    if AllDelimiters(s) {
      TrailingOfDelimiters(s);
      DelimitersVanish(s, 0);
    } else {
      ConservedWith(s, 0);
    }
  }
}
