/**
 * `parse_from_string` as the source writes it: a loop over the `finditer`
 * matches that carries `prev_end` and appends to a list, raising on the first
 * tag whose hex code `int(..., 16)` rejects. It computes `Parse`.
 */
module ParseLoop {
  import opened Wrappers
  import opened Colours
  import opened Tags
  import opened Segments
  import opened Parser
  import opened ParseLaws

  /** `acc` in front of a result that may have failed; a failure wins. */
  function Prepend(acc: seq<Segment>, r: Result<seq<Segment>, Error>): Result<seq<Segment>, Error> {
    if r.Ok? then Ok(acc + r.value) else r
  }

  lemma ConvertCons(s: string, p: Piece, ps: seq<Piece>)
    requires ValidPiece(s, p) && ValidPieces(s, ps)
    ensures ValidPieces(s, [p] + ps)
    ensures Convert(s, [p] + ps)
      == if PieceSegment(s, p).Err? then Err(PieceSegment(s, p).error)
         else Prepend([PieceSegment(s, p).value], Convert(s, ps))
  {
    assert ([p] + ps)[0] == p;
    assert ([p] + ps)[1..] == ps;
  }

  lemma PrependTwice(a: seq<Segment>, b: seq<Segment>, r: Result<seq<Segment>, Error>)
    ensures Prepend(a, Prepend(b, r)) == Prepend(a + b, r)
  {
    if r.Ok? {
      assert a + (b + r.value) == (a + b) + r.value;
    }
  }

  /** The loop keeps the whole walk's result equal to what it has appended so far in front of what is left. */
  predicate Invariant(s: string, ms: seq<Match>, i: nat, prevEnd: nat, acc: seq<Segment>)
    requires Chain(s, 0, ms) && i <= |ms| && prevEnd <= |s| && Chain(s, prevEnd, ms[i..])
  {
    Convert(s, Walk(s, 0, ms)) == Prepend(acc, Convert(s, Walk(s, prevEnd, ms[i..])))
  }

  /** What one iteration appends for match `m`: the gap before it, if any, then its content. */
  function Appended(s: string, prevEnd: nat, m: Match, colour: Colour): seq<Segment>
    requires prevEnd <= m.start && Shaped(s, m)
  {
    (if prevEnd < m.start then [Segment(s[prevEnd..m.start], Fallback)] else [])
    + [Segment(s[m.contentStart..m.contentEnd], colour)]
  }

  /** The segments for one match: the gap before it if any, then its content, or the failure of its colour. */
  lemma LoopStep(s: string, prevEnd: nat, ms: seq<Match>, acc: seq<Segment>)
    requires prevEnd <= |s| && Chain(s, prevEnd, ms) && ms != []
    ensures prevEnd <= ms[0].start && Shaped(s, ms[0]) && Chain(s, ms[0].end, ms[1..])
    ensures ResolveTag(ms[0].token).Err? ==>
      Prepend(acc, Convert(s, Walk(s, prevEnd, ms))) == Err(ResolveTag(ms[0].token).error)
    ensures ResolveTag(ms[0].token).Ok? ==>
      Prepend(acc, Convert(s, Walk(s, prevEnd, ms)))
      == Prepend(acc + Appended(s, prevEnd, ms[0], ResolveTag(ms[0].token).value), Convert(s, Walk(s, ms[0].end, ms[1..])))
  {
    var m := ms[0];
    var rest := Walk(s, m.end, ms[1..]);
    WalkStep(s, prevEnd, ms);
    ConvertCons(s, Tag(m), rest);
    if ResolveTag(m.token).Ok? {
      var content := Segment(s[m.contentStart..m.contentEnd], ResolveTag(m.token).value);
      PrependTwice(acc, [content], Convert(s, rest));
      if prevEnd < m.start {
        var g := Segment(s[prevEnd..m.start], Fallback);
        ConvertCons(s, Gap(prevEnd, m.start), [Tag(m)] + rest);
        PrependTwice(acc, [g], Convert(s, [Tag(m)] + rest));
        PrependTwice(acc + [g], [content], Convert(s, rest));
        assert acc + [g] + [content] == acc + Appended(s, prevEnd, m, ResolveTag(m.token).value);
      } else {
        assert Appended(s, prevEnd, m, ResolveTag(m.token).value) == [content];
      }
    } else if prevEnd < m.start {
      ConvertCons(s, Gap(prevEnd, m.start), [Tag(m)] + rest);
    }
  }

  /** After the last match: the tail, if any, and nothing can fail any more. */
  lemma LoopEnd(s: string, prevEnd: nat, acc: seq<Segment>)
    requires prevEnd <= |s|
    ensures prevEnd < |s| ==>
      Prepend(acc, Convert(s, Walk(s, prevEnd, []))) == Ok(acc + [Segment(s[prevEnd..], Fallback)])
    ensures prevEnd == |s| ==> Prepend(acc, Convert(s, Walk(s, prevEnd, []))) == Ok(acc)
  {
    if prevEnd < |s| {
      var g := Gap(prevEnd, |s|);
      var seg := Segment(s[prevEnd..], Fallback);
      assert Walk(s, prevEnd, []) == [g];
      assert s[prevEnd..|s|] == s[prevEnd..];
      ConvertCons(s, g, []);
      assert [g] + [] == [g];
      assert Convert(s, [g]) == Ok([seg] + []);
      assert [seg] + [] == [seg];
    } else {
      assert acc + [] == acc;
    }
  }

  lemma PrependNothing(r: Result<seq<Segment>, Error>)
    ensures Prepend([], r) == r
  {
    if r.Ok? {
      assert [] + r.value == r.value;
    }
  }

  /** Appending the gap, if any, and then the content is appending `Appended`. */
  lemma AppendedSteps(s: string, prevEnd: nat, m: Match, colour: Colour, acc: seq<Segment>)
    requires prevEnd <= m.start && Shaped(s, m)
    ensures prevEnd < m.start ==>
      acc + Appended(s, prevEnd, m, colour)
      == acc + [Segment(s[prevEnd..m.start], Fallback)] + [Segment(s[m.contentStart..m.contentEnd], colour)]
    ensures prevEnd == m.start ==>
      acc + Appended(s, prevEnd, m, colour) == acc + [Segment(s[m.contentStart..m.contentEnd], colour)]
  {
    var content := Segment(s[m.contentStart..m.contentEnd], colour);
    if prevEnd < m.start {
      assert acc + ([Segment(s[prevEnd..m.start], Fallback)] + [content])
        == acc + [Segment(s[prevEnd..m.start], Fallback)] + [content];
    } else {
      assert [] + [content] == [content];
    }
  }

  /** One iteration keeps the invariant, or the whole parse fails as the iteration does. */
  lemma Advance(s: string, ms: seq<Match>, i: nat, prevEnd: nat, acc: seq<Segment>)
    requires Chain(s, 0, ms) && i < |ms| && prevEnd <= |s| && Chain(s, prevEnd, ms[i..])
    requires Invariant(s, ms, i, prevEnd, acc)
    ensures prevEnd <= ms[i].start && Shaped(s, ms[i])
    ensures Chain(s, ms[i].end, ms[i + 1..])
    ensures ResolveTag(ms[i].token).Err? ==> Convert(s, Walk(s, 0, ms)) == Err(ResolveTag(ms[i].token).error)
    ensures ResolveTag(ms[i].token).Ok? && prevEnd < ms[i].start ==>
      Invariant(s, ms, i + 1, ms[i].end, acc + [Segment(s[prevEnd..ms[i].start], Fallback)]
        + [Segment(s[ms[i].contentStart..ms[i].contentEnd], ResolveTag(ms[i].token).value)])
    ensures ResolveTag(ms[i].token).Ok? && prevEnd == ms[i].start ==>
      Invariant(s, ms, i + 1, ms[i].end, acc
        + [Segment(s[ms[i].contentStart..ms[i].contentEnd], ResolveTag(ms[i].token).value)])
  {
    var m := ms[i];
    assert ms[i..][0] == m && ms[i..][1..] == ms[i + 1..];
    LoopStep(s, prevEnd, ms[i..], acc);
    if ResolveTag(m.token).Ok? {
      var next := acc + Appended(s, prevEnd, m, ResolveTag(m.token).value);
      assert Invariant(s, ms, i + 1, m.end, next);
      AppendedSteps(s, prevEnd, m, ResolveTag(m.token).value, acc);
    }
  }

  /** The loop of lines 210-233 over the matches `ms`, with the cursor `prev_end`. */
  method Loop(s: string, ms: seq<Match>) returns (r: Result<seq<Segment>, Error>)
    requires Chain(s, 0, ms)
    ensures r == Convert(s, Walk(s, 0, ms))
  {
    var acc: seq<Segment> := [];
    var prevEnd: nat := 0;
    var i := 0;
    assert ms[0..] == ms;
    PrependNothing(Convert(s, Walk(s, 0, ms)));
    while i < |ms|
      invariant i <= |ms| && prevEnd <= |s|
      invariant Chain(s, prevEnd, ms[i..])
      invariant Invariant(s, ms, i, prevEnd, acc)
      decreases |ms| - i
    {
      var m := ms[i];
      Advance(s, ms, i, prevEnd, acc);
      if m.start > prevEnd {
        acc := acc + [Segment(s[prevEnd..m.start], Fallback)];
      }
      prevEnd := m.end;
      var colour := ResolveTag(m.token);
      if colour.Err? {
        return Err(colour.error);
      }
      acc := acc + [Segment(s[m.contentStart..m.contentEnd], colour.value)];
      i := i + 1;
    }
    assert ms[i..] == [];
    LoopEnd(s, prevEnd, acc);
    if prevEnd < |s| {
      acc := acc + [Segment(s[prevEnd..], Fallback)];
    }
    r := Ok(acc);
  }

  /** `parse_from_string`, statement by statement, computes `Parse`. */
  method ParseFromString(s: string) returns (r: Result<seq<Segment>, Error>)
    ensures r == Parse(s)
  {
    var matches := Matches(s, 0);
    r := Loop(s, matches);
  }
}
