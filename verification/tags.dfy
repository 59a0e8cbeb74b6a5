/**
 * The one regular expression of the parser,
 *   `\<(?P<color>\w+|\#\w{6})\>(?P<text>.+?)\<\/(?P=color)\>`,
 * hand-coded. `IsTag` says declaratively what a match is; `MatchAt` is the
 * deterministic matcher at one position, `FindNext` the leftmost search and
 * `Matches` the sequence `re.finditer` yields.
 *
 * The pattern backtracks in one place only, and harmlessly: a word token is
 * the longest run of word characters (a shorter run is followed by a word
 * character, never by `>`), a `#` token is never a word run, and the lazy
 * `.+?` stops at the first closing tag it can reach without a newline.
 */
module Tags {
  import opened Wrappers
  import opened Chars

  /** The `color` group: a word run, or `#` and six word characters. */
  predicate ValidToken(t: string) {
    || (|t| >= 1 && AllWord(t))
    || (|t| == 7 && t[0] == '#' && AllWord(t[1..]))
  }

  /** `</TOKEN>`: the back-reference compares the token as written. */
  function CloseTag(t: string): string {
    "</" + t + ">"
  }

  /** The closing tag for `t` starts at `e`. */
  predicate ClosesAt(s: string, t: string, e: int) {
    0 <= e && e + |t| + 3 <= |s| && s[e..e + |t| + 3] == CloseTag(t)
  }

  /** What `.` accepts, throughout: no newline. */
  predicate NoNewline(t: string) {
    forall k :: 0 <= k < |t| ==> t[k] != '\n'
  }

  /**
   * One match: `<token>` at `start`, the content `[contentStart, contentEnd)`,
   * and `</token>` ending at `end`.
   */
  datatype Match = Match(start: nat, token: string, contentStart: nat, contentEnd: nat, end: nat) {

    /** Characters taken by the opening and the closing tag. */
    function MarkupLength(): nat {
      2 * |token| + 5
    }

    /** The four boundaries in increasing order, as in every match. */
    predicate Ordered() {
      start < contentStart < contentEnd < end
    }

    /** Position `k` lies inside the opening or the closing tag. */
    predicate Hides(k: int) {
      start <= k < contentStart || contentEnd <= k < end
    }
  }

  /**
   * The bookkeeping every match satisfies: a token, ordered boundaries with
   * room for both tags, inside `s`.
   */
  predicate Shaped(s: string, m: Match) {
    && ValidToken(m.token)
    && m.Ordered()
    && m.contentStart == m.start + |m.token| + 2
    && m.end == m.contentEnd + |m.token| + 3
    && m.end <= |s|
  }

  /** `m` is a match of the pattern in `s` that starts at `m.start`. */
  predicate IsTag(s: string, m: Match) {
    && ValidToken(m.token)
    && m.contentStart == m.start + |m.token| + 2
    && m.contentStart < m.contentEnd
    && m.end == m.contentEnd + |m.token| + 3
    && m.end <= |s|
    && s[m.start] == '<'
    && s[m.start + 1..m.contentStart - 1] == m.token
    && s[m.contentStart - 1] == '>'
    && NoNewline(s[m.contentStart..m.contentEnd])
    && ClosesAt(s, m.token, m.contentEnd)
    && (forall e :: m.contentStart < e < m.contentEnd ==> !ClosesAt(s, m.token, e))
  }

  /** End of the longest run of word characters starting at `j`. */
  function WordRunEnd(s: string, j: nat): (r: nat)
    requires j <= |s|
    ensures j <= r <= |s|
    decreases |s| - j
  {
    if j < |s| && IsWordChar(s[j]) then WordRunEnd(s, j + 1) else j
  }

  /** The run is all word characters, and what follows it is not one. */
  lemma {:induction false} WordRunEndSpec(s: string, j: nat)
    requires j <= |s|
    ensures forall k :: j <= k < WordRunEnd(s, j) ==> IsWordChar(s[k])
    ensures WordRunEnd(s, j) < |s| ==> !IsWordChar(s[WordRunEnd(s, j)])
    decreases |s| - j
  {
    if j < |s| && IsWordChar(s[j]) {
      WordRunEndSpec(s, j + 1);
    }
  }

  /** The `color` group and the `>` after it, for a `<` at `i`. */
  function TokenAt(s: string, i: nat): Option<string>
    requires i < |s|
  {
    if i + 1 < |s| && IsWordChar(s[i + 1]) then
      var t := WordRunEnd(s, i + 1);
      if t < |s| && s[t] == '>' then Some(s[i + 1..t]) else None
    else if i + 8 < |s| && s[i + 1] == '#' && AllWord(s[i + 2..i + 8]) && s[i + 8] == '>' then
      Some(s[i + 1..i + 8])
    else None
  }

  /** A token found at `i` is one the pattern accepts there, followed by `>`. */
  lemma TokenAtSound(s: string, i: nat, t: string)
    requires i < |s| && TokenAt(s, i) == Some(t)
    ensures ValidToken(t) && i + |t| + 2 <= |s|
    ensures s[i + 1..i + 1 + |t|] == t && s[i + 1 + |t|] == '>'
  {
    if i + 1 < |s| && IsWordChar(s[i + 1]) {
      WordRunEndSpec(s, i + 1);
    } else {
      assert s[i + 1..i + 8][1..] == s[i + 2..i + 8];
    }
  }

  /** Every token the pattern accepts at `i` is the one `TokenAt` finds. */
  lemma TokenAtComplete(s: string, i: nat, t: string)
    requires ValidToken(t)
    requires i + |t| + 2 <= |s|
    requires s[i + 1..i + 1 + |t|] == t && s[i + 1 + |t|] == '>'
    ensures TokenAt(s, i) == Some(t)
  {
    assert s[i + 1] == t[0];
    if AllWord(t) {
      var r := WordRunEnd(s, i + 1);
      WordRunEndSpec(s, i + 1);
      assert forall k :: i + 1 <= k < i + 1 + |t| ==> IsWordChar(s[k]) by {
        forall k | i + 1 <= k < i + 1 + |t|
          ensures IsWordChar(s[k])
        {
          assert s[k] == t[k - i - 1];
        }
      }
      assert r == i + 1 + |t|;
    } else {
      assert !IsWordChar(t[0]);
      assert s[i + 2..i + 8] == t[1..];
    }
  }

  /**
   * The lazy `.+?` followed by the closing tag: tries content ends
   * `e, e + 1, ...`, giving up at the end of input or at a newline.
   */
  function FindClose(s: string, t: string, e: nat): Option<nat>
    requires e >= 1
    decreases |s| + 1 - e
  {
    if e > |s| || s[e - 1] == '\n' then None
    else if ClosesAt(s, t, e) then Some(e)
    else FindClose(s, t, e + 1)
  }

  lemma {:induction false} FindCloseSpec(s: string, t: string, cs: nat, e: nat)
    requires cs < e <= |s| + 1
    requires NoNewline(s[cs..e - 1])
    requires forall e' :: cs < e' < e ==> !ClosesAt(s, t, e')
    ensures FindClose(s, t, e).Some? ==>
      var ce := FindClose(s, t, e).value;
      && e <= ce <= |s|
      && ClosesAt(s, t, ce)
      && NoNewline(s[cs..ce])
      && (forall e' :: cs < e' < ce ==> !ClosesAt(s, t, e'))
    ensures FindClose(s, t, e).None? ==>
      forall ce :: e <= ce <= |s| && ClosesAt(s, t, ce) ==> !NoNewline(s[cs..ce])
    decreases |s| + 1 - e
  {
    if e > |s| {
    } else if s[e - 1] == '\n' {
      forall ce | e <= ce <= |s| && ClosesAt(s, t, ce)
        ensures !NoNewline(s[cs..ce])
      {
        assert s[cs..ce][e - 1 - cs] == '\n';
      }
    } else {
      assert NoNewline(s[cs..e]) by {
        forall k | 0 <= k < e - cs
          ensures s[cs..e][k] != '\n'
        {
          if k < e - 1 - cs {
            assert s[cs..e][k] == s[cs..e - 1][k];
          }
        }
      }
      if !ClosesAt(s, t, e) {
        FindCloseSpec(s, t, cs, e + 1);
      }
    }
  }

  /** The pattern tried at position `i` (`re.match` semantics at `i`). */
  function MatchAt(s: string, i: nat): Option<Match> {
    if i < |s| && s[i] == '<' then MatchAfterToken(s, i, TokenAt(s, i)) else None
  }

  /** The rest of the pattern once the opening tag's token is known. */
  function MatchAfterToken(s: string, i: nat, token: Option<string>): Option<Match> {
    match token
    case None => None
    case Some(t) => Framed(i, t, FindClose(s, t, i + |t| + 3))
  }

  /** The match spanning `<t>` at `i` to a closing tag at `close`. */
  function Framed(i: nat, t: string, close: Option<nat>): Option<Match> {
    match close
    case None => None
    case Some(ce) => Some(Match(i, t, i + |t| + 2, ce, ce + |t| + 3))
  }

  /** The matcher assembles a match from the token and the closing position it finds. */
  lemma MatchAtFromParts(s: string, i: nat, m: Match)
    requires i < |s| && s[i] == '<' && m.start == i
    requires TokenAt(s, i) == Some(m.token)
    requires m.contentStart == i + |m.token| + 2 && m.end == m.contentEnd + |m.token| + 3
    requires FindClose(s, m.token, m.contentStart + 1) == Some(m.contentEnd)
    ensures MatchAt(s, i) == Some(m)
  {
    assert Framed(i, m.token, Some(m.contentEnd)) == Some(m);
  }

  /** The conditions of a match, as the matcher establishes them. */
  lemma IsTagIntro(s: string, m: Match)
    requires ValidToken(m.token) && m.start + |m.token| + 2 <= |s|
    requires m.contentStart == m.start + |m.token| + 2 && m.end == m.contentEnd + |m.token| + 3
    requires s[m.start] == '<' && s[m.start + 1..m.start + 1 + |m.token|] == m.token && s[m.start + 1 + |m.token|] == '>'
    requires m.contentStart < m.contentEnd && ClosesAt(s, m.token, m.contentEnd)
    requires NoNewline(s[m.contentStart..m.contentEnd])
    requires forall e :: m.contentStart < e < m.contentEnd ==> !ClosesAt(s, m.token, e)
    ensures IsTag(s, m)
  {
  }

  /** What the lazy search from just after `cs` finds: the first reachable closing tag. */
  lemma FindCloseSound(s: string, t: string, cs: nat, ce: nat)
    requires FindClose(s, t, cs + 1) == Some(ce)
    ensures cs < ce && ClosesAt(s, t, ce) && NoNewline(s[cs..ce])
    ensures forall e :: cs < e < ce ==> !ClosesAt(s, t, e)
  {
    FindCloseSpec(s, t, cs, cs + 1);
  }

  /** Whatever the matcher returns is a match of the pattern at `i`. */
  lemma MatchAtSound(s: string, i: nat)
    ensures MatchAt(s, i).Some? ==> MatchAt(s, i).value.start == i && IsTag(s, MatchAt(s, i).value)
  {
    if i < |s| && s[i] == '<' {
      match TokenAt(s, i)
      case None =>
        assert MatchAt(s, i) == None;
      case Some(t) =>
        var cs := i + |t| + 2;
        match FindClose(s, t, cs + 1)
        case None =>
          assert MatchAt(s, i) == None;
        case Some(ce) =>
          var m := Match(i, t, cs, ce, ce + |t| + 3);
          MatchAtFromParts(s, i, m);
          TokenAtSound(s, i, t);
          FindCloseSound(s, t, cs, ce);
          IsTagIntro(s, m);
    } else {
      assert MatchAt(s, i) == None;
    }
  }

  /** The lazy search reaches the first closing tag of a newline-free content. */
  lemma {:induction false} FindCloseReaches(s: string, t: string, cs: nat, e: nat, ce: nat)
    requires cs < e <= ce && ClosesAt(s, t, ce)
    requires NoNewline(s[cs..ce])
    requires forall e' :: cs < e' < ce ==> !ClosesAt(s, t, e')
    ensures FindClose(s, t, e) == Some(ce)
    decreases ce - e
  {
    assert s[e - 1] == s[cs..ce][e - 1 - cs];
    if e < ce {
      FindCloseReaches(s, t, cs, e + 1, ce);
    }
  }

  /** The token of a match is the one the matcher reads at its start. */
  lemma TagToken(s: string, m: Match)
    requires IsTag(s, m)
    ensures TokenAt(s, m.start) == Some(m.token)
  {
    var i, t := m.start, m.token;
    assert s[i + 1..i + 1 + |t|] == t && s[i + 1 + |t|] == '>';
    TokenAtComplete(s, i, t);
  }

  /** The content of a match ends where the lazy search stops. */
  lemma TagClose(s: string, m: Match)
    requires IsTag(s, m)
    ensures FindClose(s, m.token, m.contentStart + 1) == Some(m.contentEnd)
  {
    FindCloseReaches(s, m.token, m.contentStart, m.contentStart + 1, m.contentEnd);
  }

  /** Every match the pattern defines at `i` is the one the matcher returns. */
  lemma MatchAtComplete(s: string, i: nat, m: Match)
    requires IsTag(s, m) && m.start == i
    ensures MatchAt(s, i) == Some(m)
  {
    TagToken(s, m);
    TagClose(s, m);
    MatchAtFromParts(s, i, m);
  }

  /** The matcher finds exactly the matches the pattern defines. */
  lemma MatchAtExact(s: string, i: nat, m: Match)
    ensures MatchAt(s, i) == Some(m) <==> IsTag(s, m) && m.start == i
  {
    MatchAtSound(s, i);
    if IsTag(s, m) && m.start == i {
      MatchAtComplete(s, i, m);
    }
  }

  /** Some match starts at `p`. */
  ghost predicate StartsTag(s: string, p: int) {
    exists m: Match :: m.start == p && IsTag(s, m)
  }

  lemma StartsTagIffMatchAt(s: string, p: nat)
    ensures StartsTag(s, p) <==> MatchAt(s, p).Some?
  {
    MatchAtSound(s, p);
    if StartsTag(s, p) {
      var m: Match :| m.start == p && IsTag(s, m);
      MatchAtExact(s, p, m);
    }
  }

  /** `re.search` from `i`: the match with the leftmost start. */
  function FindNext(s: string, i: nat): (r: Option<Match>)
    requires i <= |s|
    ensures r.Some? ==> i <= r.value.start && MatchAt(s, r.value.start) == r
    decreases |s| - i
  {
    if i == |s| then None
    else if MatchAt(s, i).Some? then MatchAt(s, i)
    else FindNext(s, i + 1)
  }

  /** The search skips only positions where no match starts. */
  lemma {:induction false} FindNextLeftmost(s: string, i: nat)
    requires i <= |s|
    ensures forall p :: i <= p < (if FindNext(s, i).Some? then FindNext(s, i).value.start else |s|) ==>
      MatchAt(s, p).None?
    decreases |s| - i
  {
    if i < |s| && MatchAt(s, i).None? {
      FindNextLeftmost(s, i + 1);
    }
  }

  /** Matches in input order, each starting at or after the previous one's end (and after `c`). */
  predicate Chain(s: string, c: nat, ms: seq<Match>)
    decreases |ms|
  {
    ms == [] || (c <= ms[0].start && Shaped(s, ms[0]) && Chain(s, ms[0].end, ms[1..]))
  }

  /** `re.finditer` from `i`: each search resumes where the previous match ended. */
  function Matches(s: string, i: nat): (ms: seq<Match>)
    requires i <= |s|
    ensures Chain(s, i, ms)
    decreases |s| - i
  {
    match FindNext(s, i)
    case None => []
    case Some(m) =>
      MatchAtSound(s, m.start);
      [m] + Matches(s, m.end)
  }

  /**
   * What `re.finditer` promises, stated without the search: matches in input
   * order, none overlapping, and no match starting anywhere that was skipped.
   */
  ghost predicate Leftmost(s: string, ms: seq<Match>, i: nat)
    decreases |ms|
  {
    if ms == [] then forall p :: i <= p < |s| ==> !StartsTag(s, p)
    else
      && i <= ms[0].start
      && IsTag(s, ms[0])
      && (forall p :: i <= p < ms[0].start ==> !StartsTag(s, p))
      && Leftmost(s, ms[1..], ms[0].end)
  }

  /** The search from `i` finds nothing exactly when no match starts at or after `i`. */
  lemma FindNextNone(s: string, i: nat)
    requires i <= |s|
    ensures FindNext(s, i).None? <==> forall p :: i <= p < |s| ==> !StartsTag(s, p)
  {
    FindNextLeftmost(s, i);
    if FindNext(s, i).None? {
      forall p | i <= p < |s|
        ensures !StartsTag(s, p)
      {
        StartsTagIffMatchAt(s, p);
      }
    } else {
      StartsTagIffMatchAt(s, FindNext(s, i).value.start);
    }
  }

  /** The search from `i` finds `m` exactly when `m` is the match with the leftmost start from `i`. */
  lemma FindNextSome(s: string, i: nat, m: Match)
    requires i <= |s|
    ensures FindNext(s, i) == Some(m) <==>
      && i <= m.start && IsTag(s, m)
      && forall p :: i <= p < m.start ==> !StartsTag(s, p)
  {
    var r := FindNext(s, i);
    FindNextLeftmost(s, i);
    if r == Some(m) {
      MatchAtExact(s, m.start, m);
      forall p | i <= p < m.start
        ensures !StartsTag(s, p)
      {
        StartsTagIffMatchAt(s, p);
      }
    }
    if i <= m.start && IsTag(s, m) && forall p :: i <= p < m.start ==> !StartsTag(s, p) {
      MatchAtExact(s, m.start, m);
      if r.Some? {
        StartsTagIffMatchAt(s, r.value.start);
        assert r.value.start == m.start;
      }
    }
  }

  /** The finditer sequence is leftmost, and it is the only leftmost sequence. */
  lemma {:induction false} MatchesAreLeftmost(s: string, i: nat, ms: seq<Match>)
    requires i <= |s|
    ensures Leftmost(s, ms, i) <==> ms == Matches(s, i)
    decreases |s| - i
  {
    FindNextNone(s, i);
    if ms != [] && (Leftmost(s, ms, i) || ms == Matches(s, i)) {
      var m := ms[0];
      FindNextSome(s, i, m);
      MatchesAreLeftmost(s, m.end, ms[1..]);
    }
  }

  /** Position `k` lies in the opening or closing tag of some match in `ms`. */
  predicate Hidden(ms: seq<Match>, k: int)
    decreases |ms|
  {
    |ms| > 0 && (ms[0].Hides(k) || Hidden(ms[1..], k))
  }

  /** Total markup of `ms`. */
  function MarkupLength(ms: seq<Match>): nat {
    if ms == [] then 0 else ms[0].MarkupLength() + MarkupLength(ms[1..])
  }

  /** The characters of `s[lo..hi]` that no match's markup covers. */
  function Unmarked(s: string, lo: nat, hi: nat, ms: seq<Match>): string
    requires lo <= hi <= |s|
    decreases hi - lo
  {
    if lo == hi then [] else (if Hidden(ms, lo) then [] else [s[lo]]) + Unmarked(s, lo + 1, hi, ms)
  }

  /** `s` with the opening and closing tag of every match in `ms` cut out. */
  function WithoutMarkup(s: string, ms: seq<Match>): string {
    Unmarked(s, 0, |s|, ms)
  }

  lemma {:induction false} UnmarkedSplit(s: string, lo: nat, mid: nat, hi: nat, ms: seq<Match>)
    requires lo <= mid <= hi <= |s|
    ensures Unmarked(s, lo, hi, ms) == Unmarked(s, lo, mid, ms) + Unmarked(s, mid, hi, ms)
    decreases mid - lo
  {
    if lo < mid {
      UnmarkedSplit(s, lo + 1, mid, hi, ms);
    }
  }

  lemma {:induction false} UnmarkedShown(s: string, lo: nat, hi: nat, ms: seq<Match>)
    requires lo <= hi <= |s|
    requires forall k :: lo <= k < hi ==> !Hidden(ms, k)
    ensures Unmarked(s, lo, hi, ms) == s[lo..hi]
    decreases hi - lo
  {
    if lo < hi {
      UnmarkedShown(s, lo + 1, hi, ms);
      assert s[lo..hi] == [s[lo]] + s[lo + 1..hi];
    }
  }

  lemma {:induction false} UnmarkedHidden(s: string, lo: nat, hi: nat, ms: seq<Match>)
    requires lo <= hi <= |s|
    requires forall k :: lo <= k < hi ==> Hidden(ms, k)
    ensures Unmarked(s, lo, hi, ms) == []
    decreases hi - lo
  {
    if lo < hi {
      UnmarkedHidden(s, lo + 1, hi, ms);
    }
  }

  lemma {:induction false} UnmarkedAgree(s: string, lo: nat, hi: nat, ms: seq<Match>, ns: seq<Match>)
    requires lo <= hi <= |s|
    requires forall k :: lo <= k < hi ==> Hidden(ms, k) == Hidden(ns, k)
    ensures Unmarked(s, lo, hi, ms) == Unmarked(s, lo, hi, ns)
    decreases hi - lo
  {
    if lo < hi {
      UnmarkedAgree(s, lo + 1, hi, ms, ns);
    }
  }

  /** Markup of matches that start at or after `e` hides nothing before `e`. */
  lemma {:induction false} HiddenOnlyAfter(s: string, e: nat, ms: seq<Match>, k: int)
    requires Chain(s, e, ms)
    requires k < e
    ensures !Hidden(ms, k)
    decreases |ms|
  {
    if ms != [] {
      HiddenOnlyAfter(s, ms[0].end, ms[1..], k);
    }
  }
}
