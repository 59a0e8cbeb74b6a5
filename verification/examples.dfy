/**
 * Inputs of the shapes the parser is meant for, and what parsing them yields:
 * plain text, one tag, a tag between gaps, two adjacent tags, the lazy
 * content, and a tag whose colour fails. Each scenario is stated for every
 * token and content of that shape.
 */
module Examples {
  import opened Wrappers
  import opened Chars
  import opened Colours
  import opened Tags
  import opened Segments
  import opened Parser
  import opened ParseLaws

  /** `<t>c</t>`. */
  function Tagged(t: string, c: string): string {
    "<" + t + ">" + c + CloseTag(t)
  }

  /** The match a tagged run `<t>c</t>` makes at position `i`. */
  function TagMatch(i: nat, t: string, c: string): (m: Match)
    ensures m.start == i && m.end == i + |Tagged(t, c)|
  {
    Match(i, t, i + |t| + 2, i + |t| + 2 + |c|, i + |t| + 2 + |c| + |t| + 3)
  }

  /** Text holding no `<`. */
  predicate Plain(t: string) {
    '<' !in t
  }

  /** Content a tag can hold here: non-empty, one line, no `<`. */
  predicate Content(c: string) {
    |c| >= 1 && NoNewline(c) && '<' !in c
  }

  /** `w` sits in `s` at `i`. */
  predicate At(s: string, i: nat, w: string) {
    i + |w| <= |s| && s[i..i + |w|] == w
  }

  /** Any slice of a copy of `w` is the same slice of `w`. */
  lemma Within(s: string, i: nat, w: string, lo: nat, hi: nat)
    requires At(s, i, w) && lo <= hi <= |w|
    ensures s[i + lo..i + hi] == w[lo..hi]
  {
    forall k | lo <= k < hi
      ensures s[i + k] == w[k]
    {
      assert s[i..i + |w|][k] == s[i + k];
    }
  }

  /** Both halves of a concatenation sit where they should. */
  lemma AtConcat(x: string, y: string)
    ensures At(x + y, 0, x) && At(x + y, |x|, y)
  {
    assert (x + y)[0..|x|] == x && (x + y)[|x|..|x| + |y|] == y;
  }

  /** The three parts of a concatenation sit where they should. */
  lemma AtConcat3(a: string, w: string, b: string)
    ensures At(a + w + b, 0, a) && At(a + w + b, |a|, w) && At(a + w + b, |a| + |w|, b)
  {
    var s := a + w + b;
    assert s[0..|a|] == a && s[|a|..|a| + |w|] == w && s[|a| + |w|..|s|] == b;
  }

  /** A copy of `x + y` is a copy of `x` followed by a copy of `y`. */
  lemma AtSplit(s: string, i: nat, x: string, y: string)
    requires At(s, i, x + y)
    ensures At(s, i, x) && At(s, i + |x|, y)
  {
    Within(s, i, x + y, 0, |x|);
    Within(s, i, x + y, |x|, |x| + |y|);
    assert (x + y)[0..|x|] == x && (x + y)[|x|..|x| + |y|] == y;
  }

  /** Where the parts of `<t>c</t>` sit. */
  lemma TaggedParts(t: string, c: string)
    ensures var w := Tagged(t, c);
      && |w| == |t| + |c| + |t| + 5
      && w[0] == '<' && w[1..|t| + 1] == t && w[|t| + 1] == '>'
      && w[|t| + 2..|t| + 2 + |c|] == c
      && w[|t| + 2 + |c|..] == CloseTag(t)
  {
    var w := Tagged(t, c);
    assert w == "<" + t + ">" + c + CloseTag(t);
    assert forall k :: 0 <= k < |t| ==> w[1 + k] == t[k];
    assert forall k :: 0 <= k < |c| ==> w[|t| + 2 + k] == c[k];
    assert forall k :: 0 <= k < |t| + 3 ==> w[|t| + 2 + |c| + k] == CloseTag(t)[k];
  }

  /** Text without `<` holds no closing tag. */
  lemma NoCloseIn(s: string, t: string, cs: nat, c: string)
    requires At(s, cs, c) && '<' !in c
    ensures forall e :: cs <= e < cs + |c| ==> !ClosesAt(s, t, e)
  {
    forall e | cs <= e < cs + |c|
      ensures !ClosesAt(s, t, e)
    {
      assert s[cs..cs + |c|][e - cs] == s[e];
      assert c[e - cs] in c;
      if e + |t| + 3 <= |s| {
        assert s[e..e + |t| + 3][0] == s[e];
        assert CloseTag(t)[0] == '<';
      }
    }
  }

  /** The content of a tagged run found at `i`. */
  lemma ContentAt(s: string, i: nat, t: string, c: string)
    requires At(s, i, Tagged(t, c))
    ensures s[TagMatch(i, t, c).contentStart..TagMatch(i, t, c).contentEnd] == c
  {
    TaggedParts(t, c);
    Within(s, i, Tagged(t, c), |t| + 2, |t| + 2 + |c|);
  }

  /** The opening tag of a tagged run found at `i`. */
  lemma OpenAt(s: string, i: nat, t: string, c: string)
    requires At(s, i, Tagged(t, c))
    ensures i + |t| + 2 <= |s| && s[i] == '<' && s[i + 1..i + 1 + |t|] == t && s[i + 1 + |t|] == '>'
  {
    var w := Tagged(t, c);
    TaggedParts(t, c);
    Within(s, i, w, 0, 1);
    Within(s, i, w, 1, |t| + 1);
    Within(s, i, w, |t| + 1, |t| + 2);
    assert s[i..i + 1][0] == s[i] && s[i + |t| + 1..i + |t| + 2][0] == s[i + |t| + 1];
  }

  /** The closing tag of a tagged run found at `i`. */
  lemma CloseAt(s: string, i: nat, t: string, c: string)
    requires At(s, i, Tagged(t, c))
    ensures ClosesAt(s, t, i + |t| + 2 + |c|)
  {
    TaggedParts(t, c);
    Within(s, i, Tagged(t, c), |t| + 2 + |c|, |Tagged(t, c)|);
  }

  /** The content of a tagged run found at `i` is one line with no closing tag inside. */
  lemma ContentLine(s: string, i: nat, t: string, c: string)
    requires Content(c) && At(s, i, Tagged(t, c))
    ensures NoNewline(s[i + |t| + 2..i + |t| + 2 + |c|])
    ensures forall e :: i + |t| + 2 < e < i + |t| + 2 + |c| ==> !ClosesAt(s, t, e)
  {
    ContentAt(s, i, t, c);
    NoCloseIn(s, t, i + |t| + 2, c);
  }

  /** A tagged run found at `i` is a match there. */
  lemma TagAt(s: string, i: nat, t: string, c: string)
    requires ValidToken(t) && Content(c) && At(s, i, Tagged(t, c))
    ensures IsTag(s, TagMatch(i, t, c))
  {
    OpenAt(s, i, t, c);
    CloseAt(s, i, t, c);
    ContentLine(s, i, t, c);
    IsTagIntro(s, TagMatch(i, t, c));
  }

  /** No `<` except before a `/` in `s[lo..hi]`. */
  predicate Quiet(s: string, lo: nat, hi: nat) {
    forall p :: lo <= p < hi && p < |s| ==> s[p] != '<' || (p + 1 < |s| && s[p + 1] == '/')
  }

  /** No match starts in a quiet stretch. */
  lemma QuietNoTag(s: string, lo: nat, hi: nat)
    requires Quiet(s, lo, hi)
    ensures forall p :: lo <= p < hi ==> !StartsTag(s, p)
  {
    forall p | lo <= p < hi
      ensures !StartsTag(s, p)
    {
      StartsTagIffMatchAt(s, p);
    }
  }

  /** Nothing is left to match at the end of the input. */
  lemma LeftmostAtEnd(s: string)
    ensures Leftmost(s, [], |s|)
  {
  }

  /** A leftmost sequence from `i` is what the search from `i` finds. */
  lemma LeftmostFound(s: string, ms: seq<Match>, i: nat)
    requires i <= |s|
    ensures Leftmost(s, ms, i) ==> Matches(s, i) == ms
  {
    MatchesAreLeftmost(s, i, ms);
  }

  /** A leftmost sequence from `j` is leftmost from `i` too when `s[i..j]` is quiet. */
  lemma QuietLeftmost(s: string, i: nat, j: nat, ms: seq<Match>)
    requires i <= j && Quiet(s, i, j)
    ensures Leftmost(s, ms, j) ==> Leftmost(s, ms, i)
  {
    QuietNoTag(s, i, j);
  }

  /** A tagged run at `i` heads the leftmost sequence from `i`. */
  lemma TaggedLeftmost(s: string, i: nat, t: string, c: string, ms: seq<Match>)
    requires ValidToken(t) && Content(c) && At(s, i, Tagged(t, c))
    ensures Leftmost(s, ms, i + |Tagged(t, c)|) ==> Leftmost(s, [TagMatch(i, t, c)] + ms, i)
  {
    var m := TagMatch(i, t, c);
    TagAt(s, i, t, c);
    assert ([m] + ms)[0] == m && ([m] + ms)[1..] == ms;
  }

  /** A tagged run at `i` followed by no match is the only match from `i`. */
  lemma TaggedLeftmostOnly(s: string, i: nat, t: string, c: string)
    requires ValidToken(t) && Content(c) && At(s, i, Tagged(t, c))
    ensures Leftmost(s, [], i + |Tagged(t, c)|) ==> Leftmost(s, [TagMatch(i, t, c)], i)
  {
    TagAt(s, i, t, c);
    assert [TagMatch(i, t, c)][1..] == [];
  }

  /** Plain text running to the end holds no match. */
  lemma PlainRest(s: string, e: nat, b: string)
    requires At(s, e, b) && Plain(b) && e + |b| == |s|
    ensures Leftmost(s, [], e)
  {
    LeftmostAtEnd(s);
    PlainQuiet(s, e, b);
    QuietLeftmost(s, e, |s|, []);
  }

  /** Plain text and then a closing tag, running to the end, hold no match. */
  lemma PlainCloseRest(s: string, e: nat, b: string, t: string)
    requires ValidToken(t) && Plain(b) && At(s, e, b + CloseTag(t)) && e + |b + CloseTag(t)| == |s|
    ensures Leftmost(s, [], e)
  {
    AtSplit(s, e, b, CloseTag(t));
    LeftmostAtEnd(s);
    CloseQuiet(s, e + |b|, t);
    QuietLeftmost(s, e + |b|, |s|, []);
    PlainQuiet(s, e, b);
    QuietLeftmost(s, e, e + |b|, []);
  }

  /** Plain text is quiet wherever it sits. */
  lemma PlainQuiet(s: string, i: nat, a: string)
    requires At(s, i, a) && Plain(a)
    ensures Quiet(s, i, i + |a|)
  {
    forall p | i <= p < i + |a|
      ensures s[p] != '<'
    {
      assert s[i..i + |a|][p - i] == s[p];
      assert a[p - i] in a;
    }
  }

  /** A token holds no `<`. */
  lemma TokenNoAngle(t: string)
    requires ValidToken(t)
    ensures '<' !in t
  {
    forall k | 0 <= k < |t|
      ensures t[k] != '<'
    {
      if !AllWord(t) && k > 0 {
        assert t[1..][k - 1] == t[k];
      }
    }
  }

  /** A closing tag is quiet: its only `<` comes before `/`. */
  lemma CloseQuiet(s: string, i: nat, t: string)
    requires ValidToken(t) && At(s, i, CloseTag(t))
    ensures Quiet(s, i, i + |t| + 3)
  {
    var w := CloseTag(t);
    assert w == "</" + t + ">";
    TokenNoAngle(t);
    forall p | i <= p < i + |w|
      ensures s[p] != '<' || (p + 1 < |s| && s[p + 1] == '/')
    {
      assert s[i..i + |w|][p - i] == s[p];
      if p == i {
        assert s[i..i + |w|][1] == s[p + 1];
      } else if i + 2 <= p < i + |t| + 2 {
        assert w[p - i] == t[p - i - 2] && t[p - i - 2] in t;
      }
    }
  }

  /** The segment of a gap piece. */
  lemma GapSegment(s: string, lo: nat, hi: nat, a: string)
    requires lo < hi <= |s| && s[lo..hi] == a
    ensures PieceSegment(s, Gap(lo, hi)) == Ok(Segment(a, Fallback))
  {
  }

  /** The segment of a tag piece whose colour resolves. */
  lemma TagSegment(s: string, m: Match, c: string, colour: Colour)
    requires Shaped(s, m) && s[m.contentStart..m.contentEnd] == c && ResolveTag(m.token) == Ok(colour)
    ensures PieceSegment(s, Tag(m)) == Ok(Segment(c, colour))
  {
  }

  /** When every piece converts, the conversion is the pieces' segments in order. */
  lemma ConvertOf(s: string, ps: seq<Piece>, segs: seq<Segment>)
    requires ValidPieces(s, ps) && |segs| == |ps|
    requires forall k :: 0 <= k < |segs| ==> PieceSegment(s, ps[k]) == Ok(segs[k])
    ensures Convert(s, ps) == Ok(segs)
  {
    ConvertSpec(s, ps);
    assert Convert(s, ps).value == segs;
  }

  /** Two pieces that both convert. */
  lemma ConvertOf2(s: string, p1: Piece, p2: Piece, g1: Segment, g2: Segment)
    requires ValidPiece(s, p1) && ValidPiece(s, p2)
    requires PieceSegment(s, p1) == Ok(g1) && PieceSegment(s, p2) == Ok(g2)
    ensures Convert(s, [p1, p2]) == Ok([g1, g2])
  {
    ConvertOf(s, [p1, p2], [g1, g2]);
  }

  /** Three pieces that all convert. */
  lemma ConvertOf3(s: string, p1: Piece, p2: Piece, p3: Piece, g1: Segment, g2: Segment, g3: Segment)
    requires ValidPiece(s, p1) && ValidPiece(s, p2) && ValidPiece(s, p3)
    requires PieceSegment(s, p1) == Ok(g1) && PieceSegment(s, p2) == Ok(g2) && PieceSegment(s, p3) == Ok(g3)
    ensures Convert(s, [p1, p2, p3]) == Ok([g1, g2, g3])
  {
    ConvertOf(s, [p1, p2, p3], [g1, g2, g3]);
  }

  /** The pieces of one match that covers the input. */
  lemma WalkWhole(s: string, m: Match)
    requires Chain(s, 0, [m]) && m.start == 0 && m.end == |s|
    ensures Walk(s, 0, [m]) == [Tag(m)]
  {
    WalkStep(s, 0, [m]);
    assert [m][1..] == [];
  }

  /** The pieces of one match at the start followed by a tail. */
  lemma WalkHead(s: string, m: Match)
    requires Chain(s, 0, [m]) && m.start == 0 && m.end < |s|
    ensures Walk(s, 0, [m]) == [Tag(m), Gap(m.end, |s|)]
  {
    WalkStep(s, 0, [m]);
    assert [m][1..] == [];
  }

  /** The pieces of one match inside the input, with gaps on both sides. */
  lemma WalkMiddle(s: string, m: Match)
    requires Chain(s, 0, [m]) && 0 < m.start && m.end < |s|
    ensures Walk(s, 0, [m]) == [Gap(0, m.start), Tag(m), Gap(m.end, |s|)]
  {
    WalkStep(s, 0, [m]);
    assert [m][1..] == [];
  }

  /** The pieces of two matches that tile the input. */
  lemma WalkPair(s: string, m1: Match, m2: Match)
    requires Chain(s, 0, [m1, m2]) && m1.start == 0 && m2.start == m1.end && m2.end == |s|
    ensures Walk(s, 0, [m1, m2]) == [Tag(m1), Tag(m2)]
  {
    WalkStep(s, 0, [m1, m2]);
    assert [m1, m2][1..] == [m2];
    WalkWholeFrom(s, m2);
  }

  /** The pieces of one match that runs from the cursor to the end. */
  lemma WalkWholeFrom(s: string, m: Match)
    requires m.start <= |s| && Chain(s, m.start, [m]) && m.end == |s|
    ensures Walk(s, m.start, [m]) == [Tag(m)]
  {
    WalkStep(s, m.start, [m]);
    assert [m][1..] == [];
  }

  /** The pieces of an input whose only match covers all of it. */
  lemma ScanWhole(s: string, m: Match)
    requires Matches(s, 0) == [m] && m.start == 0 && m.end == |s|
    ensures Shaped(s, m) && Scan(s) == [Tag(m)]
  {
    assert Chain(s, 0, [m]);
    WalkWhole(s, m);
  }

  /** The pieces of an input whose only match starts it, followed by a tail. */
  lemma ScanHead(s: string, m: Match)
    requires Matches(s, 0) == [m] && m.start == 0 && m.end < |s|
    ensures Shaped(s, m) && Scan(s) == [Tag(m), Gap(m.end, |s|)]
  {
    assert Chain(s, 0, [m]);
    WalkHead(s, m);
  }

  /** The pieces of an input whose only match has text on both sides. */
  lemma ScanMiddle(s: string, m: Match)
    requires Matches(s, 0) == [m] && 0 < m.start && m.end < |s|
    ensures Shaped(s, m) && Scan(s) == [Gap(0, m.start), Tag(m), Gap(m.end, |s|)]
  {
    assert Chain(s, 0, [m]);
    WalkMiddle(s, m);
  }

  /** The pieces of an input tiled by two matches. */
  lemma ScanPair(s: string, m1: Match, m2: Match)
    requires Matches(s, 0) == [m1, m2] && m1.start == 0 && m2.start == m1.end && m2.end == |s|
    ensures Shaped(s, m1) && Shaped(s, m2) && Scan(s) == [Tag(m1), Tag(m2)]
  {
    assert Chain(s, 0, [m1, m2]);
    WalkPair(s, m1, m2);
  }

  /** The segments of one tag piece that resolves. */
  lemma ConvertWhole(s: string, m: Match, c: string, colour: Colour)
    requires Shaped(s, m) && s[m.contentStart..m.contentEnd] == c && ResolveTag(m.token) == Ok(colour)
    ensures Convert(s, [Tag(m)]) == Ok([Segment(c, colour)])
  {
    TagSegment(s, m, c, colour);
    ConvertOf(s, [Tag(m)], [Segment(c, colour)]);
  }

  /** The segments of a tag piece that resolves, then a tail. */
  lemma ConvertHead(s: string, m: Match, c: string, colour: Colour)
    requires Shaped(s, m) && m.end < |s|
    requires s[m.contentStart..m.contentEnd] == c && ResolveTag(m.token) == Ok(colour)
    ensures Convert(s, [Tag(m), Gap(m.end, |s|)]) == Ok([Segment(c, colour), Segment(s[m.end..], Fallback)])
  {
    TagSegment(s, m, c, colour);
    GapSegment(s, m.end, |s|, s[m.end..]);
    ConvertOf2(s, Tag(m), Gap(m.end, |s|), Segment(c, colour), Segment(s[m.end..], Fallback));
  }

  /** The segments of a gap, a tag piece that resolves, and a gap. */
  lemma ConvertMiddle(s: string, m: Match, c: string, colour: Colour)
    requires 0 < m.start && Shaped(s, m) && m.end < |s|
    requires s[m.contentStart..m.contentEnd] == c && ResolveTag(m.token) == Ok(colour)
    ensures Convert(s, [Gap(0, m.start), Tag(m), Gap(m.end, |s|)])
      == Ok([Segment(s[..m.start], Fallback), Segment(c, colour), Segment(s[m.end..], Fallback)])
  {
    GapSegment(s, 0, m.start, s[..m.start]);
    TagSegment(s, m, c, colour);
    GapSegment(s, m.end, |s|, s[m.end..]);
    ConvertOf3(s, Gap(0, m.start), Tag(m), Gap(m.end, |s|),
      Segment(s[..m.start], Fallback), Segment(c, colour), Segment(s[m.end..], Fallback));
  }

  /** The segments of two tag pieces that resolve. */
  lemma ConvertPair(s: string, m1: Match, c1: string, col1: Colour, m2: Match, c2: string, col2: Colour)
    requires Shaped(s, m1) && s[m1.contentStart..m1.contentEnd] == c1 && ResolveTag(m1.token) == Ok(col1)
    requires Shaped(s, m2) && s[m2.contentStart..m2.contentEnd] == c2 && ResolveTag(m2.token) == Ok(col2)
    ensures Convert(s, [Tag(m1), Tag(m2)]) == Ok([Segment(c1, col1), Segment(c2, col2)])
  {
    TagSegment(s, m1, c1, col1);
    TagSegment(s, m2, c2, col2);
    ConvertOf2(s, Tag(m1), Tag(m2), Segment(c1, col1), Segment(c2, col2));
  }

  /** The parse of an input whose only match covers all of it. */
  lemma ParseWhole(s: string, m: Match, c: string, colour: Colour)
    requires Matches(s, 0) == [m] && m.start == 0 && m.end == |s|
    requires s[m.contentStart..m.contentEnd] == c && ResolveTag(m.token) == Ok(colour)
    ensures Parse(s) == Ok([Segment(c, colour)])
  {
    ScanWhole(s, m);
    ConvertWhole(s, m, c, colour);
  }

  /** The parse of an input whose only match covers all of it and fails to resolve. */
  lemma ParseWholeFails(s: string, m: Match, e: Error)
    requires Matches(s, 0) == [m] && m.start == 0 && m.end == |s| && ResolveTag(m.token) == Err(e)
    ensures Parse(s) == Err(e)
  {
    ScanWhole(s, m);
    assert PieceSegment(s, Tag(m)) == Err(e);
  }

  /** The parse of an input whose only match starts it, followed by a tail. */
  lemma ParseHead(s: string, m: Match, c: string, colour: Colour)
    requires Matches(s, 0) == [m] && m.start == 0 && m.end < |s|
    requires s[m.contentStart..m.contentEnd] == c && ResolveTag(m.token) == Ok(colour)
    ensures Parse(s) == Ok([Segment(c, colour), Segment(s[m.end..], Fallback)])
  {
    ScanHead(s, m);
    ConvertHead(s, m, c, colour);
  }

  /** The parse of an input whose only match has text on both sides. */
  lemma ParseMiddle(s: string, m: Match, c: string, colour: Colour)
    requires Matches(s, 0) == [m] && 0 < m.start && m.end < |s|
    requires s[m.contentStart..m.contentEnd] == c && ResolveTag(m.token) == Ok(colour)
    ensures Parse(s) == Ok([Segment(s[..m.start], Fallback), Segment(c, colour), Segment(s[m.end..], Fallback)])
  {
    ScanMiddle(s, m);
    ConvertMiddle(s, m, c, colour);
  }

  /** The parse of an input tiled by two matches. */
  lemma ParsePair(s: string, m1: Match, c1: string, col1: Colour, m2: Match, c2: string, col2: Colour)
    requires Matches(s, 0) == [m1, m2] && m1.start == 0 && m2.start == m1.end && m2.end == |s|
    requires s[m1.contentStart..m1.contentEnd] == c1 && ResolveTag(m1.token) == Ok(col1)
    requires s[m2.contentStart..m2.contentEnd] == c2 && ResolveTag(m2.token) == Ok(col2)
    ensures Parse(s) == Ok([Segment(c1, col1), Segment(c2, col2)])
  {
    ScanPair(s, m1, m2);
    ConvertPair(s, m1, c1, col1, m2, c2, col2);
  }

  /** One tag alone: it is the only match. */
  lemma OneTagMatches(t: string, c: string)
    requires ValidToken(t) && Content(c)
    ensures Matches(Tagged(t, c), 0) == [TagMatch(0, t, c)]
  {
    var s := Tagged(t, c);
    assert At(s, 0, s);
    LeftmostAtEnd(s);
    TaggedLeftmostOnly(s, 0, t, c);
    LeftmostFound(s, [TagMatch(0, t, c)], 0);
  }

  /** One tag alone: one segment, its content in its colour. */
  lemma OneTagParse(t: string, c: string, colour: Colour)
    requires ValidToken(t) && Content(c) && ResolveTag(t) == Ok(colour)
    ensures Parse(Tagged(t, c)) == Ok([Segment(c, colour)])
  {
    OneTagMatches(t, c);
    ContentAt(Tagged(t, c), 0, t, c);
    ParseWhole(Tagged(t, c), TagMatch(0, t, c), c, colour);
  }

  /** One tag whose colour fails: the whole parse fails with it. */
  lemma FailingTagParse(t: string, c: string, e: Error)
    requires ValidToken(t) && Content(c) && ResolveTag(t) == Err(e)
    ensures Parse(Tagged(t, c)) == Err(e)
  {
    OneTagMatches(t, c);
    ParseWholeFails(Tagged(t, c), TagMatch(0, t, c), e);
  }

  /** A tag followed by plain text: that tag is the only match from where it starts. */
  lemma TagGapLeftmost(s: string, i: nat, t: string, c: string, b: string)
    requires ValidToken(t) && Content(c) && Plain(b)
    requires At(s, i, Tagged(t, c)) && At(s, i + |Tagged(t, c)|, b) && i + |Tagged(t, c)| + |b| == |s|
    ensures Leftmost(s, [TagMatch(i, t, c)], i)
  {
    PlainRest(s, i + |Tagged(t, c)|, b);
    TaggedLeftmostOnly(s, i, t, c);
  }

  /** Plain text on both sides of a tag, wherever the three sit: that tag is the only match. */
  lemma GapTagGapIn(s: string, a: string, t: string, c: string, b: string)
    requires ValidToken(t) && Content(c) && Plain(a) && Plain(b)
    requires At(s, 0, a) && At(s, |a|, Tagged(t, c)) && At(s, |a| + |Tagged(t, c)|, b)
    requires |s| == |a| + |Tagged(t, c)| + |b|
    ensures Matches(s, 0) == [TagMatch(|a|, t, c)]
  {
    TagGapLeftmost(s, |a|, t, c, b);
    PlainQuiet(s, 0, a);
    QuietLeftmost(s, 0, |a|, [TagMatch(|a|, t, c)]);
    LeftmostFound(s, [TagMatch(|a|, t, c)], 0);
  }

  /** Plain text on both sides of a tag: that tag is the only match. */
  lemma GapTagGapMatches(a: string, t: string, c: string, b: string)
    requires ValidToken(t) && Content(c) && Plain(a) && Plain(b)
    ensures Matches(a + Tagged(t, c) + b, 0) == [TagMatch(|a|, t, c)]
  {
    AtConcat3(a, Tagged(t, c), b);
    GapTagGapIn(a + Tagged(t, c) + b, a, t, c, b);
  }

  /** Plain text on both sides of a tag: three segments, the outer two white. */
  lemma GapTagGapParse(a: string, t: string, c: string, b: string, colour: Colour)
    requires ValidToken(t) && Content(c) && ResolveTag(t) == Ok(colour)
    requires a != [] && b != [] && Plain(a) && Plain(b)
    ensures Parse(a + Tagged(t, c) + b)
      == Ok([Segment(a, Named(White)), Segment(c, colour), Segment(b, Named(White))])
  {
    var w := Tagged(t, c);
    var s := a + w + b;
    var m := TagMatch(|a|, t, c);
    GapTagGapMatches(a, t, c, b);
    AtConcat3(a, w, b);
    ContentAt(s, |a|, t, c);
    assert s[..m.start] == a && s[m.end..] == b;
    ParseMiddle(s, m, c, colour);
  }

  /** Two tags back to back, wherever they sit: both are matches, one after the other. */
  lemma AdjacentIn(s: string, t1: string, c1: string, t2: string, c2: string)
    requires ValidToken(t1) && Content(c1) && ValidToken(t2) && Content(c2)
    requires At(s, 0, Tagged(t1, c1)) && At(s, |Tagged(t1, c1)|, Tagged(t2, c2))
    requires |s| == |Tagged(t1, c1)| + |Tagged(t2, c2)|
    ensures Matches(s, 0) == [TagMatch(0, t1, c1), TagMatch(|Tagged(t1, c1)|, t2, c2)]
  {
    var m1, m2 := TagMatch(0, t1, c1), TagMatch(|Tagged(t1, c1)|, t2, c2);
    LeftmostAtEnd(s);
    TaggedLeftmostOnly(s, |Tagged(t1, c1)|, t2, c2);
    TaggedLeftmost(s, 0, t1, c1, [m2]);
    assert [m1] + [m2] == [m1, m2];
    LeftmostFound(s, [m1, m2], 0);
  }

  /** Two tags back to back: both are matches, one after the other. */
  lemma AdjacentMatches(t1: string, c1: string, t2: string, c2: string)
    requires ValidToken(t1) && Content(c1) && ValidToken(t2) && Content(c2)
    ensures Matches(Tagged(t1, c1) + Tagged(t2, c2), 0)
      == [TagMatch(0, t1, c1), TagMatch(|Tagged(t1, c1)|, t2, c2)]
  {
    AtConcat(Tagged(t1, c1), Tagged(t2, c2));
    AdjacentIn(Tagged(t1, c1) + Tagged(t2, c2), t1, c1, t2, c2);
  }

  /** Two tags back to back: two segments, no gap between them. */
  lemma AdjacentTagsParse(t1: string, c1: string, col1: Colour, t2: string, c2: string, col2: Colour)
    requires ValidToken(t1) && Content(c1) && ResolveTag(t1) == Ok(col1)
    requires ValidToken(t2) && Content(c2) && ResolveTag(t2) == Ok(col2)
    ensures Parse(Tagged(t1, c1) + Tagged(t2, c2)) == Ok([Segment(c1, col1), Segment(c2, col2)])
  {
    var x, y := Tagged(t1, c1), Tagged(t2, c2);
    var s := x + y;
    AdjacentMatches(t1, c1, t2, c2);
    AtConcat(x, y);
    ContentAt(s, 0, t1, c1);
    ContentAt(s, |x|, t2, c2);
    ParsePair(s, TagMatch(0, t1, c1), c1, col1, TagMatch(|x|, t2, c2), c2, col2);
  }

  /** Two tags back to back whose first token fails: the parse stops there, whatever the second holds. */
  lemma FirstFailureWins(t1: string, c1: string, e: Error, t2: string, c2: string)
    requires ValidToken(t1) && Content(c1) && ResolveTag(t1) == Err(e)
    requires ValidToken(t2) && Content(c2)
    ensures Parse(Tagged(t1, c1) + Tagged(t2, c2)) == Err(e)
  {
    var x := Tagged(t1, c1);
    var s := x + Tagged(t2, c2);
    AdjacentMatches(t1, c1, t2, c2);
    ScanPair(s, TagMatch(0, t1, c1), TagMatch(|x|, t2, c2));
    assert PieceSegment(s, Tag(TagMatch(0, t1, c1))) == Err(e);
  }

  /** `<#GGGGGG>a</#GGGGGG><#HHHHHH>b</#HHHHHH>` fails on the red pair of the first tag. */
  lemma BadHexPairParse()
    ensures Parse(Tagged("#GGGGGG", "a") + Tagged("#HHHHHH", "b")) == Err(InvalidHexLiteral("GG"))
  {
    var t1 := "#GGGGGG";
    var h := t1[1..];
    assert !IsHexDigit(h[0]) && !IsHexDigit(h[0..2][0]);
    assert AllWord(h) && !AllHex(h);
    assert Upper(t1) == t1;
    assert h[0..2] == "GG" && !AllHex(h[0..2]);
    assert ResolveTag(t1).error.literal == "GG";
    assert ValidToken("#HHHHHH") by {
      assert AllWord("#HHHHHH"[1..]);
    }
    FirstFailureWins(t1, "a", InvalidHexLiteral("GG"), "#HHHHHH", "b");
  }

  /** A tag, plain text and the tag's closing tag again, wherever they sit: the first match only. */
  lemma LazyIn(s: string, t: string, c: string, b: string)
    requires ValidToken(t) && Content(c) && Plain(b)
    requires At(s, 0, Tagged(t, c)) && At(s, |Tagged(t, c)|, b + CloseTag(t))
    requires |s| == |Tagged(t, c)| + |b + CloseTag(t)|
    ensures Matches(s, 0) == [TagMatch(0, t, c)]
  {
    PlainCloseRest(s, |Tagged(t, c)|, b, t);
    TaggedLeftmostOnly(s, 0, t, c);
    LeftmostFound(s, [TagMatch(0, t, c)], 0);
  }

  /** Plain text and then the tag's closing tag again, after a tag: the first match only. */
  lemma LazyMatches(t: string, c: string, b: string)
    requires ValidToken(t) && Content(c) && Plain(b)
    ensures Matches(Tagged(t, c) + (b + CloseTag(t)), 0) == [TagMatch(0, t, c)]
  {
    AtConcat(Tagged(t, c), b + CloseTag(t));
    LazyIn(Tagged(t, c) + (b + CloseTag(t)), t, c, b);
  }

  /**
   * A tag followed by plain text and its own closing tag again: the lazy
   * content stops at the first closing tag, and the rest is white, markup included.
   */
  lemma LazyContentParse(t: string, c: string, colour: Colour, b: string)
    requires ValidToken(t) && Content(c) && ResolveTag(t) == Ok(colour)
    requires Plain(b)
    ensures Parse(Tagged(t, c) + (b + CloseTag(t)))
      == Ok([Segment(c, colour), Segment(b + CloseTag(t), Named(White))])
  {
    var x, y := Tagged(t, c), b + CloseTag(t);
    var s := x + y;
    var m := TagMatch(0, t, c);
    LazyMatches(t, c, b);
    AtConcat(x, y);
    ContentAt(s, 0, t, c);
    assert s[m.end..] == y;
    ParseHead(s, m, c, colour);
  }
}
