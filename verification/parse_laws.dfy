/**
 * What the parse guarantees, proved by induction over the loop: the visited
 * spans tile the input, gaps hold no match, segment texts are the input with
 * the tag markup cut out, lengths and counts, and the error cases exactly.
 * The loop lemmas hold for any chain of matches; the `Parse` corollaries
 * apply them to the `finditer` matches.
 */
module ParseLaws {
  import opened Wrappers
  import opened Chars
  import opened Colours
  import opened Tags
  import opened Segments
  import opened Parser

  /** No match starts anywhere in `[lo, hi)`. */
  ghost predicate NoTagIn(s: string, lo: int, hi: int) {
    forall p :: lo <= p < hi ==> !StartsTag(s, p)
  }

  lemma PieceTextsCons(s: string, p: Piece, rest: seq<Piece>)
    requires ValidPiece(s, p) && ValidPieces(s, rest)
    ensures ValidPieces(s, [p] + rest)
    ensures PieceTexts(s, [p] + rest) == PieceText(s, p) + PieceTexts(s, rest)
  {
    assert ([p] + rest)[1..] == rest;
  }

  lemma {:induction false} TagsOfAppend(a: seq<Piece>, b: seq<Piece>)
    ensures TagsOf(a + b) == TagsOf(a) + TagsOf(b)
    decreases |a|
  {
    if a == [] {
      assert a + b == b;
    } else {
      assert (a + b)[0] == a[0];
      assert (a + b)[1..] == a[1..] + b;
      TagsOfAppend(a[1..], b);
    }
  }

  /** One step of the loop: an optional gap, the tag, then the rest of the walk. */
  lemma WalkStep(s: string, c: nat, ms: seq<Match>)
    requires c <= |s| && Chain(s, c, ms) && ms != []
    ensures c <= ms[0].start && Shaped(s, ms[0])
    ensures c < ms[0].start ==>
      Walk(s, c, ms) == [Gap(c, ms[0].start)] + ([Tag(ms[0])] + Walk(s, ms[0].end, ms[1..]))
    ensures c == ms[0].start ==> Walk(s, c, ms) == [Tag(ms[0])] + Walk(s, ms[0].end, ms[1..])
  {
    var m := ms[0];
    if c < m.start {
      assert [Gap(c, m.start)] + [Tag(m)] + Walk(s, m.end, ms[1..])
        == [Gap(c, m.start)] + ([Tag(m)] + Walk(s, m.end, ms[1..]));
    }
  }

  /**
   * The loop's spans tile the input from the cursor on, its tags are exactly
   * the matches it was given, and two gaps are never adjacent (a gap is
   * emitted only before a tag, or once at the end).
   */
  lemma {:induction false} WalkPartition(s: string, c: nat, ms: seq<Match>)
    requires c <= |s| && Chain(s, c, ms)
    ensures Covers(Walk(s, c, ms), c, |s|)
    ensures TagsOf(Walk(s, c, ms)) == ms
    ensures forall k :: 0 <= k < |Walk(s, c, ms)| - 1 ==> Walk(s, c, ms)[k].Tag? || Walk(s, c, ms)[k + 1].Tag?
    decreases |ms|
  {
    var ps := Walk(s, c, ms);
    if ms == [] {
      if c < |s| {
        assert ps[1..] == [];
      }
    } else {
      var m := ms[0];
      var rest := Walk(s, m.end, ms[1..]);
      WalkStep(s, c, ms);
      WalkPartition(s, m.end, ms[1..]);
      var tagged := [Tag(m)] + rest;
      assert tagged[1..] == rest;
      TagsOfAppend([Tag(m)], rest);
      assert forall k :: 0 <= k < |rest| ==> tagged[k + 1] == rest[k];
      if c < m.start {
        assert ps[1..] == tagged;
        TagsOfAppend([Gap(c, m.start)], tagged);
        assert forall k :: 0 <= k < |tagged| ==> ps[k + 1] == tagged[k];
      }
    }
  }

  /** When the matches are the leftmost ones, no gap contains the start of a match. */
  lemma {:induction false} WalkGapsUntagged(s: string, c: nat, ms: seq<Match>)
    requires c <= |s| && Chain(s, c, ms)
    requires Leftmost(s, ms, c)
    ensures forall k :: 0 <= k < |Walk(s, c, ms)| && Walk(s, c, ms)[k].Gap? ==>
      NoTagIn(s, Walk(s, c, ms)[k].lo, Walk(s, c, ms)[k].hi)
    decreases |ms|
  {
    var ps := Walk(s, c, ms);
    if ms != [] {
      var m := ms[0];
      var rest := Walk(s, m.end, ms[1..]);
      WalkStep(s, c, ms);
      WalkGapsUntagged(s, m.end, ms[1..]);
      var tagged := [Tag(m)] + rest;
      assert forall k :: 0 <= k < |rest| ==> tagged[k + 1] == rest[k];
      if c < m.start {
        assert forall k :: 0 <= k < |tagged| ==> ps[k + 1] == tagged[k];
      }
    }
  }

  /** Before the end of the first match of a chain, only that match hides anything. */
  lemma HiddenFirst(s: string, c: nat, ms: seq<Match>, k: int)
    requires Chain(s, c, ms) && ms != [] && k < ms[0].end
    ensures Hidden(ms, k) <==> ms[0].Hides(k)
  {
    HiddenOnlyAfter(s, ms[0].end, ms[1..], k);
  }

  /** The gap before the first match of a chain is shown verbatim. */
  lemma UnmarkedBefore(s: string, c: nat, ms: seq<Match>)
    requires c <= |s| && Chain(s, c, ms) && ms != []
    ensures Unmarked(s, c, ms[0].start, ms) == s[c..ms[0].start]
  {
    forall k | c <= k < ms[0].start
      ensures !Hidden(ms, k)
    {
      HiddenFirst(s, c, ms, k);
    }
    UnmarkedShown(s, c, ms[0].start, ms);
  }

  /** The opening tag of the first match of a chain is cut. */
  lemma UnmarkedOpen(s: string, c: nat, ms: seq<Match>)
    requires c <= |s| && Chain(s, c, ms) && ms != []
    ensures Unmarked(s, ms[0].start, ms[0].contentStart, ms) == []
  {
    forall k | ms[0].start <= k < ms[0].contentStart
      ensures Hidden(ms, k)
    {
      HiddenFirst(s, c, ms, k);
    }
    UnmarkedHidden(s, ms[0].start, ms[0].contentStart, ms);
  }

  /** The content of the first match of a chain is shown verbatim. */
  lemma UnmarkedContent(s: string, c: nat, ms: seq<Match>)
    requires c <= |s| && Chain(s, c, ms) && ms != []
    ensures Unmarked(s, ms[0].contentStart, ms[0].contentEnd, ms) == s[ms[0].contentStart..ms[0].contentEnd]
  {
    forall k | ms[0].contentStart <= k < ms[0].contentEnd
      ensures !Hidden(ms, k)
    {
      HiddenFirst(s, c, ms, k);
    }
    UnmarkedShown(s, ms[0].contentStart, ms[0].contentEnd, ms);
  }

  /** The closing tag of the first match of a chain is cut. */
  lemma UnmarkedClose(s: string, c: nat, ms: seq<Match>)
    requires c <= |s| && Chain(s, c, ms) && ms != []
    ensures Unmarked(s, ms[0].contentEnd, ms[0].end, ms) == []
  {
    forall k | ms[0].contentEnd <= k < ms[0].end
      ensures Hidden(ms, k)
    {
      HiddenFirst(s, c, ms, k);
    }
    UnmarkedHidden(s, ms[0].contentEnd, ms[0].end, ms);
  }

  /** After the first match of a chain, only the later matches hide anything. */
  lemma UnmarkedAfter(s: string, c: nat, ms: seq<Match>)
    requires c <= |s| && Chain(s, c, ms) && ms != []
    ensures Unmarked(s, ms[0].end, |s|, ms) == Unmarked(s, ms[0].end, |s|, ms[1..])
  {
    forall k | ms[0].end <= k < |s|
      ensures Hidden(ms, k) == Hidden(ms[1..], k)
    {
      assert !ms[0].Hides(k);
    }
    UnmarkedAgree(s, ms[0].end, |s|, ms, ms[1..]);
  }

  /** Cutting the markup of a chain: the gap before the first match, its content, then the rest. */
  lemma UnmarkedFirst(s: string, c: nat, ms: seq<Match>)
    requires c <= |s| && Chain(s, c, ms) && ms != []
    ensures var m := ms[0];
      Unmarked(s, c, |s|, ms)
      == s[c..m.start] + (s[m.contentStart..m.contentEnd] + Unmarked(s, m.end, |s|, ms[1..]))
  {
    var m := ms[0];
    var e := |s|;
    UnmarkedBefore(s, c, ms);
    UnmarkedOpen(s, c, ms);
    UnmarkedContent(s, c, ms);
    UnmarkedClose(s, c, ms);
    UnmarkedAfter(s, c, ms);
    calc {
      Unmarked(s, c, e, ms);
      { UnmarkedSplit(s, c, m.start, e, ms); }
      Unmarked(s, c, m.start, ms) + Unmarked(s, m.start, e, ms);
      { UnmarkedSplit(s, m.start, m.contentStart, e, ms); }
      s[c..m.start] + ([] + Unmarked(s, m.contentStart, e, ms));
      { assert [] + Unmarked(s, m.contentStart, e, ms) == Unmarked(s, m.contentStart, e, ms); }
      s[c..m.start] + Unmarked(s, m.contentStart, e, ms);
      { UnmarkedSplit(s, m.contentStart, m.contentEnd, e, ms); }
      s[c..m.start] + (s[m.contentStart..m.contentEnd] + Unmarked(s, m.contentEnd, e, ms));
      { UnmarkedSplit(s, m.contentEnd, m.end, e, ms);
        assert [] + Unmarked(s, m.end, e, ms) == Unmarked(s, m.end, e, ms); }
      s[c..m.start] + (s[m.contentStart..m.contentEnd] + Unmarked(s, m.end, e, ms[1..]));
    }
  }

  /** The walk's text is the rest of the input with every match's tags cut out. */
  lemma {:induction false} WalkTexts(s: string, c: nat, ms: seq<Match>)
    requires c <= |s| && Chain(s, c, ms)
    ensures PieceTexts(s, Walk(s, c, ms)) == Unmarked(s, c, |s|, ms)
    decreases |ms|
  {
    if ms == [] {
      UnmarkedShown(s, c, |s|, []);
      if c < |s| {
        PieceTextsCons(s, Gap(c, |s|), []);
      }
    } else {
      var m := ms[0];
      var rest := Walk(s, m.end, ms[1..]);
      WalkStep(s, c, ms);
      WalkTexts(s, m.end, ms[1..]);
      UnmarkedFirst(s, c, ms);
      PieceTextsCons(s, Tag(m), rest);
      if c < m.start {
        PieceTextsCons(s, Gap(c, m.start), [Tag(m)] + rest);
      } else {
        assert s[c..m.start] == [];
      }
    }
  }

  /** Gap lengths, content lengths and markup lengths add up to what is left of the input. */
  lemma {:induction false} WalkLength(s: string, c: nat, ms: seq<Match>)
    requires c <= |s| && Chain(s, c, ms)
    ensures |PieceTexts(s, Walk(s, c, ms))| + MarkupLength(ms) == |s| - c
    decreases |ms|
  {
    if ms == [] {
      if c < |s| {
        PieceTextsCons(s, Gap(c, |s|), []);
      }
    } else {
      var m := ms[0];
      var rest := Walk(s, m.end, ms[1..]);
      WalkStep(s, c, ms);
      WalkLength(s, m.end, ms[1..]);
      PieceTextsCons(s, Tag(m), rest);
      if c < m.start {
        PieceTextsCons(s, Gap(c, m.start), [Tag(m)] + rest);
      }
    }
  }

  /** One piece per match, plus at most one gap before each and one tail. */
  lemma {:induction false} WalkCount(s: string, c: nat, ms: seq<Match>)
    requires c <= |s| && Chain(s, c, ms)
    ensures |ms| <= |Walk(s, c, ms)| <= 2 * |ms| + 1
    decreases |ms|
  {
    if ms != [] {
      WalkStep(s, c, ms);
      WalkCount(s, ms[0].end, ms[1..]);
    }
  }

  lemma {:induction false} ConvertSpec(s: string, ps: seq<Piece>)
    requires ValidPieces(s, ps)
    ensures Convert(s, ps).Ok? <==> forall k :: 0 <= k < |ps| ==> PieceSegment(s, ps[k]).Ok?
    ensures Convert(s, ps).Ok? ==>
      && |Convert(s, ps).value| == |ps|
      && forall k :: 0 <= k < |ps| ==> Convert(s, ps).value[k] == PieceSegment(s, ps[k]).value
    ensures Convert(s, ps).Err? ==>
      exists k :: 0 <= k < |ps| && PieceSegment(s, ps[k]) == Err(Convert(s, ps).error)
                  && forall i :: 0 <= i < k ==> PieceSegment(s, ps[i]).Ok?
    decreases |ps|
  {
    if ps != [] {
      ConvertSpec(s, ps[1..]);
      assert forall k :: 1 <= k < |ps| ==> ps[k] == ps[1..][k - 1];
      if Convert(s, ps).Err? && PieceSegment(s, ps[0]).Ok? {
        var k :| && 0 <= k < |ps| - 1 && PieceSegment(s, ps[1..][k]) == Err(Convert(s, ps).error)
                 && forall i :: 0 <= i < k ==> PieceSegment(s, ps[1..][i]).Ok?;
        assert PieceSegment(s, ps[k + 1]) == Err(Convert(s, ps).error);
        assert forall i :: 0 <= i < k + 1 ==> PieceSegment(s, ps[i]).Ok?;
      }
    }
  }

  lemma {:induction false} ConvertTexts(s: string, ps: seq<Piece>)
    requires ValidPieces(s, ps)
    requires Convert(s, ps).Ok?
    ensures Texts(Convert(s, ps).value) == PieceTexts(s, ps)
    decreases |ps|
  {
    if ps != [] {
      ConvertTexts(s, ps[1..]);
      var segs := Convert(s, ps).value;
      assert segs[1..] == Convert(s, ps[1..]).value;
    }
  }

  lemma {:induction false} TagsOfMembers(ps: seq<Piece>)
    ensures forall m :: m in TagsOf(ps) <==> Tag(m) in ps
    decreases |ps|
  {
    if ps != [] {
      TagsOfMembers(ps[1..]);
      assert ps == [ps[0]] + ps[1..];
    }
  }

  /** Parsing the empty string yields no segments. */
  lemma ParseEmpty()
    ensures Parse("") == Ok([])
  {
  }

  /**
   * The spans `parse_from_string` visits tile the input, its tags are the
   * leftmost non-overlapping matches, no gap contains the start of a match,
   * and no two gaps are adjacent.
   */
  lemma ParsePartition(s: string)
    ensures Covers(Scan(s), 0, |s|)
    ensures TagsOf(Scan(s)) == Matches(s, 0) && Leftmost(s, Matches(s, 0), 0)
    ensures forall k :: 0 <= k < |Scan(s)| && Scan(s)[k].Gap? ==> NoTagIn(s, Scan(s)[k].lo, Scan(s)[k].hi)
    ensures forall k :: 0 <= k < |Scan(s)| - 1 ==> Scan(s)[k].Tag? || Scan(s)[k + 1].Tag?
  {
    var ms := Matches(s, 0);
    WalkPartition(s, 0, ms);
    MatchesAreLeftmost(s, 0, ms);
    WalkGapsUntagged(s, 0, ms);
  }

  lemma LeftmostWithoutTags(s: string, ms: seq<Match>, i: nat)
    requires Leftmost(s, ms, i)
    requires forall m: Match :: !IsTag(s, m)
    ensures ms == []
  {
  }

  /** Input without any tag match parses to one white segment holding all of it. */
  lemma ParseUntagged(s: string)
    requires s != []
    requires forall m: Match :: !IsTag(s, m)
    ensures Parse(s) == Ok([Segment(s, Fallback)])
  {
    var ms := Matches(s, 0);
    MatchesAreLeftmost(s, 0, ms);
    LeftmostWithoutTags(s, ms, 0);
    var ps := Scan(s);
    assert ps == [Gap(0, |s|)];
    assert s[0..|s|] == s;
    assert PieceSegment(s, ps[0]) == Ok(Segment(s, Fallback));
    assert ps[1..] == [];
    assert Convert(s, ps[1..]) == Ok([]);
    assert Convert(s, ps) == Ok([Segment(s, Fallback)] + []);
    assert [Segment(s, Fallback)] + [] == [Segment(s, Fallback)];
  }

  /**
   * Which segment each visited span becomes: a gap verbatim and white, a
   * tag's content in the tag's resolved colour.
   */
  lemma ParseSegments(s: string)
    requires Parse(s).Ok?
    ensures var ps, segs := Scan(s), Parse(s).value;
      && |segs| == |ps|
      && (forall k :: 0 <= k < |ps| && ps[k].Gap? ==>
            segs[k] == Segment(s[ps[k].lo..ps[k].hi], Fallback))
      && (forall k :: 0 <= k < |ps| && ps[k].Tag? ==>
            && segs[k].text == s[ps[k].m.contentStart..ps[k].m.contentEnd]
            && ResolveTag(ps[k].m.token) == Ok(segs[k].colour))
  {
    ConvertSpec(s, Scan(s));
  }

  /** No segment is empty. */
  lemma ParseSegmentsNonEmpty(s: string)
    requires Parse(s).Ok?
    ensures forall k :: 0 <= k < |Parse(s).value| ==> |Parse(s).value[k].text| > 0
  {
    ParseSegments(s);
  }

  /** A piece's segment fails exactly for a tag whose token is a bad hex literal. */
  lemma PieceSegmentFails(s: string, p: Piece)
    requires ValidPiece(s, p)
    ensures PieceSegment(s, p).Err? <==> p.Tag? && BadHexToken(p.m.token)
    ensures PieceSegment(s, p).Err? ==> PieceSegment(s, p) == Err(ResolveTag(p.m.token).error)
  {
  }

  /**
   * A piece list converts with an error exactly when one of its tags has a
   * bad hex token, and the error is that of the first such tag.
   */
  lemma ConvertFails(s: string, ps: seq<Piece>)
    requires ValidPieces(s, ps)
    ensures Convert(s, ps).Err? <==> exists m :: Tag(m) in ps && BadHexToken(m.token)
    ensures Convert(s, ps).Err? ==>
      exists k :: && 0 <= k < |ps| && ps[k].Tag? && ValidToken(ps[k].m.token) && BadHexToken(ps[k].m.token)
                  && ResolveTag(ps[k].m.token) == Err(Convert(s, ps).error)
                  && forall i :: 0 <= i < k && ps[i].Tag? ==> !BadHexToken(ps[i].m.token)
  {
    ConvertSpec(s, ps);
    if Convert(s, ps).Err? {
      var k :| && 0 <= k < |ps| && PieceSegment(s, ps[k]) == Err(Convert(s, ps).error)
               && forall i :: 0 <= i < k ==> PieceSegment(s, ps[i]).Ok?;
      PieceSegmentFails(s, ps[k]);
      assert Tag(ps[k].m) in ps;
      forall i | 0 <= i < k && ps[i].Tag?
        ensures !BadHexToken(ps[i].m.token)
      {
        PieceSegmentFails(s, ps[i]);
      }
    }
    if exists m :: Tag(m) in ps && BadHexToken(m.token) {
      var m :| Tag(m) in ps && BadHexToken(m.token);
      var k :| 0 <= k < |ps| && ps[k] == Tag(m);
      PieceSegmentFails(s, ps[k]);
    }
  }

  /** The tags before piece `k` are the first matches, and piece `k`'s tag is the next one. */
  lemma TagsBefore(ps: seq<Piece>, k: nat)
    requires k < |ps| && ps[k].Tag?
    ensures var j := |TagsOf(ps[..k])|;
      && j < |TagsOf(ps)| && TagsOf(ps)[j] == ps[k].m
      && forall i :: 0 <= i < j ==> exists q :: 0 <= q < k && ps[q] == Tag(TagsOf(ps)[i])
  {
    var pre := TagsOf(ps[..k]);
    assert ps == ps[..k] + ps[k..];
    TagsOfAppend(ps[..k], ps[k..]);
    assert ps[k..][0] == ps[k] && ps[k..][1..] == ps[k + 1..];
    assert TagsOf(ps) == pre + ([ps[k].m] + TagsOf(ps[k + 1..]));
    TagsOfMembers(ps[..k]);
    forall i | 0 <= i < |pre|
      ensures exists q :: 0 <= q < k && ps[q] == Tag(TagsOf(ps)[i])
    {
      assert TagsOf(ps)[i] == pre[i];
      assert pre[i] in pre;
      var q :| 0 <= q < k && ps[..k][q] == Tag(pre[i]);
      assert ps[q] == Tag(TagsOf(ps)[i]);
    }
  }

  /**
   * The parse fails exactly when some matched tag is `#` and six characters
   * that are not all hex, and then with the error of the first such match.
   */
  lemma ParseFails(s: string)
    ensures Parse(s).Err? <==> exists m :: m in Matches(s, 0) && BadHexToken(m.token)
    ensures Parse(s).Err? ==>
      exists j :: && 0 <= j < |Matches(s, 0)| && ValidToken(Matches(s, 0)[j].token)
                  && BadHexToken(Matches(s, 0)[j].token)
                  && ResolveTag(Matches(s, 0)[j].token) == Err(Parse(s).error)
                  && forall i :: 0 <= i < j ==> !BadHexToken(Matches(s, 0)[i].token)
  {
    var ms, ps := Matches(s, 0), Scan(s);
    ConvertFails(s, ps);
    WalkPartition(s, 0, ms);
    TagsOfMembers(ps);
    if Parse(s).Err? {
      var k :| && 0 <= k < |ps| && ps[k].Tag? && ValidToken(ps[k].m.token) && BadHexToken(ps[k].m.token)
               && ResolveTag(ps[k].m.token) == Err(Parse(s).error)
               && forall i :: 0 <= i < k && ps[i].Tag? ==> !BadHexToken(ps[i].m.token);
      TagsBefore(ps, k);
      var j := |TagsOf(ps[..k])|;
      forall i | 0 <= i < j
        ensures !BadHexToken(ms[i].token)
      {
        var q :| 0 <= q < k && ps[q] == Tag(TagsOf(ps)[i]);
      }
    }
  }

  /** The segment texts are the input with every matched opening and closing tag cut out. */
  lemma ParseTexts(s: string)
    requires Parse(s).Ok?
    ensures Texts(Parse(s).value) == WithoutMarkup(s, Matches(s, 0))
  {
    ConvertTexts(s, Scan(s));
    WalkTexts(s, 0, Matches(s, 0));
  }

  /** `text_length` is the input length less the length of the tag markup. */
  lemma ParseTextLength(s: string)
    requires Parse(s).Ok?
    ensures TextLength(Parse(s).value) + MarkupLength(Matches(s, 0)) == |s|
  {
    ConvertTexts(s, Scan(s));
    WalkLength(s, 0, Matches(s, 0));
    TextLengthOfTexts(Parse(s).value);
  }

  /** `len` of the parsed list: one segment per tag, plus at most one gap each and a tail. */
  lemma ParseCount(s: string)
    requires Parse(s).Ok?
    ensures |Matches(s, 0)| <= Count(Parse(s).value) <= 2 * |Matches(s, 0)| + 1
  {
    ConvertSpec(s, Scan(s));
    WalkCount(s, 0, Matches(s, 0));
  }

  /** For input free of tags, parsing gives back the input and its length. */
  lemma ParseUntaggedRoundTrip(s: string)
    requires forall m: Match :: !IsTag(s, m)
    ensures Parse(s).Ok?
    ensures Texts(Parse(s).value) == s
    ensures TextLength(Parse(s).value) == |s|
  {
    if s != [] {
      ParseUntagged(s);
      assert Texts([Segment(s, Fallback)]) == s + [];
    }
  }

  /**
   * What a terminal shows of the rendered parse is the input with the tag
   * markup removed (for input that carries no escape sequences of its own).
   */
  lemma ParseRenderShows(s: string)
    requires Parse(s).Ok?
    requires NoEscape(s)
    ensures Strip(RenderAll(Parse(s).value)) == WithoutMarkup(s, Matches(s, 0))
  {
    var segs := Parse(s).value;
    ParseSegments(s);
    forall k | 0 <= k < |segs|
      ensures NoEscape(segs[k].text)
    {
      var t := PieceText(s, Scan(s)[k]);
      assert segs[k].text == t;
      assert forall c :: c in t ==> c in s;
    }
    RenderAllShowsTexts(segs);
    ParseTexts(s);
  }
}
