/**
 * `ColouredText` and `ColouredTextList`: a segment renders as its colour's
 * code, its text and the reset code; a list renders as the concatenation of
 * its segments. `Strip` is an independent reading of a rendered string that
 * drops every SGR sequence, so that "visible" content can be stated.
 */
module Segments {
  import opened Chars
  import opened Colours

  /** A `ColouredText`: a run of text and the colour it is shown in. */
  datatype Segment = Segment(text: string, colour: Colour)

  /** `ColouredText.__str__`. */
  function Render(seg: Segment): string {
    Code(seg.colour) + seg.text + Reset
  }

  /** `ColouredText.__len__`. */
  function Length(seg: Segment): nat {
    |seg.text|
  }

  /** `ColouredTextList.__str__`: the renderings joined in order. */
  function RenderAll(segs: seq<Segment>): string {
    if segs == [] then [] else Render(segs[0]) + RenderAll(segs[1..])
  }

  /** `ColouredTextList.__len__`: the number of segments. */
  function Count(segs: seq<Segment>): nat {
    |segs|
  }

  /** `ColouredTextList.text_length`: the sum of the segment lengths. */
  function TextLength(segs: seq<Segment>): nat {
    if segs == [] then 0 else Length(segs[0]) + TextLength(segs[1..])
  }

  /** The segment texts, concatenated in order. */
  function Texts(segs: seq<Segment>): string {
    if segs == [] then [] else segs[0].text + Texts(segs[1..])
  }

  predicate NoEscape(t: string) {
    ESC !in t
  }

  predicate TextsNoEscape(segs: seq<Segment>) {
    forall k :: 0 <= k < |segs| ==> NoEscape(segs[k].text)
  }

  /** Drops everything up to and including the first `m`. */
  function SkipEscape(t: string): (r: string)
    ensures |r| <= |t|
  {
    if t == [] then [] else if t[0] == 'm' then t[1..] else SkipEscape(t[1..])
  }

  /** What a terminal shows of a string: every `ESC ... m` sequence removed. */
  function Strip(s: string): string
    decreases |s|
  {
    if s == [] then []
    else if s[0] == ESC then Strip(SkipEscape(s[1..]))
    else [s[0]] + Strip(s[1..])
  }

  lemma {:induction false} SkipEscapeThrough(p: string, x: string)
    requires 'm' !in p
    ensures SkipEscape(p + "m" + x) == x
  {
    if p == [] {
      assert p + "m" + x == ['m'] + x;
    } else {
      assert (p + "m" + x)[1..] == p[1..] + "m" + x;
      SkipEscapeThrough(p[1..], x);
    }
  }

  /** A colour code is invisible. */
  lemma StripSgr(code: string, x: string)
    requires IsSgr(code)
    ensures Strip(code + x) == Strip(x)
  {
    var p := code[1..|code| - 1];
    assert forall k :: 1 <= k < |p| ==> p[k] == code[2..|code| - 1][k - 1];
    assert code + x == [ESC] + (p + "m" + x);
    assert (code + x)[1..] == p + "m" + x;
    SkipEscapeThrough(p, x);
  }

  /** Text without escapes is shown as it is. */
  lemma {:induction false} StripPlain(t: string, x: string)
    requires NoEscape(t)
    ensures Strip(t + x) == t + Strip(x)
  {
    if t != [] {
      assert t[0] in t;
      assert (t + x)[0] == t[0] != ESC;
      assert (t + x)[1..] == t[1..] + x;
      assert NoEscape(t[1..]) by {
        assert forall c :: c in t[1..] ==> c in t;
      }
      StripPlain(t[1..], x);
      assert t + Strip(x) == [t[0]] + (t[1..] + Strip(x));
    } else {
      assert t + x == x;
    }
  }

  /** A rendered segment shows exactly its text, whatever its colour. */
  lemma RenderShowsText(seg: Segment, x: string)
    requires NoEscape(seg.text)
    ensures Strip(Render(seg) + x) == seg.text + Strip(x)
  {
    assert Render(seg) + x == Code(seg.colour) + (seg.text + (Reset + x));
    StripSgr(Code(seg.colour), seg.text + (Reset + x));
    StripPlain(seg.text, Reset + x);
    assert IsSgr(Reset) by {
      assert Reset == Code(Named(ResetAll));
    }
    StripSgr(Reset, x);
  }

  /** `len(segment)` is its visible width: colour codes add nothing to it. */
  lemma LengthIsVisibleWidth(seg: Segment)
    requires NoEscape(seg.text)
    ensures Length(seg) == |Strip(Render(seg))|
    ensures Render(seg)[..|Code(seg.colour)|] == Code(seg.colour)
    ensures Render(seg)[|Render(seg)| - |Reset|..] == Reset
  {
    RenderShowsText(seg, []);
    assert Render(seg) + [] == Render(seg);
    assert Strip([]) == [];
  }

  /** Rendering a list shows the segment texts in order and nothing else. */
  lemma {:induction false} RenderAllShowsTexts(segs: seq<Segment>)
    requires TextsNoEscape(segs)
    ensures Strip(RenderAll(segs)) == Texts(segs)
  {
    if segs != [] {
      RenderShowsText(segs[0], RenderAll(segs[1..]));
      RenderAllShowsTexts(segs[1..]);
    }
  }

  lemma {:induction false} RenderAllAppend(a: seq<Segment>, b: seq<Segment>)
    ensures RenderAll(a + b) == RenderAll(a) + RenderAll(b)
  {
    if a != [] {
      assert (a + b)[0] == a[0];
      assert (a + b)[1..] == a[1..] + b;
      RenderAllAppend(a[1..], b);
      assert RenderAll(a + b) == Render(a[0]) + (RenderAll(a[1..]) + RenderAll(b));
    } else {
      assert a + b == b;
    }
  }

  /** `text_length` is the length of the concatenated texts. */
  lemma {:induction false} TextLengthOfTexts(segs: seq<Segment>)
    ensures TextLength(segs) == |Texts(segs)|
  {
    if segs != [] {
      TextLengthOfTexts(segs[1..]);
    }
  }

  /**
   * `text_length` counts exactly what a terminal shows of the rendered list,
   * independent of the colour codes around each segment.
   */
  lemma TextLengthIsVisibleWidth(segs: seq<Segment>)
    requires TextsNoEscape(segs)
    ensures TextLength(segs) == |Strip(RenderAll(segs))|
  {
    RenderAllShowsTexts(segs);
    TextLengthOfTexts(segs);
  }
}
