/**
 * `parse_from_string`: a cursor walks the input from match to match, emitting
 * a white segment for every untagged gap, a segment for every tag's content
 * in the tag's colour, and a white segment for the tail.
 *
 * The walk is split in two: `Walk` yields the spans the cursor visits
 * (`Piece`s: gaps and whole matches, by position), and `Convert` turns them
 * into segments, resolving each tag's colour. A `#` token whose six word
 * characters are not all hex digits makes `int(..., 16)` raise, so the parse
 * as a whole yields that error.
 */
module Parser {
  import opened Wrappers
  import opened Chars
  import opened Colours
  import opened Tags
  import opened Segments

  /** A span the parse loop visits: an untagged gap, or a whole tag match. */
  datatype Piece = Gap(lo: nat, hi: nat) | Tag(m: Match) {

    function Start(): nat {
      if Gap? then lo else m.start
    }

    function End(): nat {
      if Gap? then hi else m.end
    }
  }

  predicate ValidPiece(s: string, p: Piece) {
    match p
    case Gap(lo, hi) => lo < hi <= |s|
    case Tag(m) => Shaped(s, m)
  }

  predicate ValidPieces(s: string, ps: seq<Piece>) {
    forall k :: 0 <= k < |ps| ==> ValidPiece(s, ps[k])
  }

  /**
   * The loop over the `finditer` matches `ms`, with `prev_end` at `cursor`:
   * the spans it visits, in order.
   */
  function Walk(s: string, cursor: nat, ms: seq<Match>): (ps: seq<Piece>)
    requires cursor <= |s|
    requires Chain(s, cursor, ms)
    ensures ValidPieces(s, ps)
    decreases |ms|
  {
    if ms == [] then (if cursor < |s| then [Gap(cursor, |s|)] else [])
    else
      var m := ms[0];
      (if cursor < m.start then [Gap(cursor, m.start)] else []) + [Tag(m)] + Walk(s, m.end, ms[1..])
  }

  /** The spans `parse_from_string` visits. */
  function Scan(s: string): seq<Piece> {
    Walk(s, 0, Matches(s, 0))
  }

  /** The matches among the pieces, in order. */
  function TagsOf(ps: seq<Piece>): seq<Match> {
    if ps == [] then []
    else (if ps[0].Tag? then [ps[0].m] else []) + TagsOf(ps[1..])
  }

  /** The pieces tile `[lo, hi)`: each starts where the previous one ended. */
  predicate Covers(ps: seq<Piece>, lo: nat, hi: nat)
    decreases |ps|
  {
    if ps == [] then lo == hi
    else ps[0].Start() == lo && lo < ps[0].End() && Covers(ps[1..], ps[0].End(), hi)
  }

  /** A `#` token that `int(..., 16)` rejects. */
  predicate BadHexToken(t: string) {
    |t| == 7 && t[0] == '#' && !AllHex(t[1..])
  }

  lemma UpperTokenFacts(t: string)
    requires ValidToken(t)
    ensures |Upper(t)| == |t|
    ensures Upper(t)[0] == '#' <==> t[0] == '#'
    ensures t[0] == '#' ==> |t| == 7 && Upper(t)[1..] == Upper(t[1..]) && AllWord(Upper(t)[1..])
    ensures t[0] == '#' ==> (AllHex(Upper(t)[1..]) <==> AllHex(t[1..]))
    ensures t[0] == '#' ==> LookupName(Upper(t)).None?
  {
    assert Upper(t)[0] == UpperChar(t[0]);
    if t[0] == '#' {
      assert !IsWordChar(t[0]);
      UpperKeepsClasses(t[1..]);
      if LookupName(Upper(t)).Some? {
        NameStartsWithLetter(LookupName(Upper(t)).value);
      }
    }
  }

  /**
   * The colour a tag gets (lines 216 and 223-228 of the parser): the
   * upper-cased token read as a hex code or a member name, else white.
   * It fails exactly on a `#` token that is not hex, and otherwise agrees
   * with `Colours.from_string`.
   */
  function ResolveTag(t: string): (r: Result<Colour, Error>)
    requires ValidToken(t)
    ensures r.Err? <==> BadHexToken(t)
    ensures r.Err? ==> |Upper(t)| == 7 && AllWord(Upper(t)[1..]) && r == HexToAnsi(Upper(t)[1..])
    ensures r.Ok? ==> r.value == FromString(t)
  {
    UpperTokenFacts(t);
    var u := Upper(t);
    if u[0] == '#' then
      if AllHex(t[1..]) then
        assert t[1..] == t[1..7];
        HexToAnsiUpper(t[1..]);
        HexToAnsi(u[1..])
      else HexToAnsi(u[1..])
    else
      match LookupName(u)
      case Some(n) => Ok(Named(n))
      case None => Ok(Fallback)
  }

  /** The text a piece contributes: the gap verbatim, or the tag's content. */
  function PieceText(s: string, p: Piece): string
    requires ValidPiece(s, p)
  {
    match p
    case Gap(lo, hi) => s[lo..hi]
    case Tag(m) => s[m.contentStart..m.contentEnd]
  }

  /** The segment one loop step appends for a piece. */
  function PieceSegment(s: string, p: Piece): (r: Result<Segment, Error>)
    requires ValidPiece(s, p)
  {
    match p
    case Gap(lo, hi) => Ok(Segment(PieceText(s, p), Fallback))
    case Tag(m) =>
      var c :- ResolveTag(m.token);
      Ok(Segment(PieceText(s, p), c))
  }

  /** The segments for the pieces, in order; the first failing tag aborts. */
  function Convert(s: string, ps: seq<Piece>): Result<seq<Segment>, Error>
    requires ValidPieces(s, ps)
  {
    if ps == [] then Ok([])
    else
      var seg :- PieceSegment(s, ps[0]);
      var rest :- Convert(s, ps[1..]);
      Ok([seg] + rest)
  }

  /** `parse_from_string`. */
  function Parse(s: string): Result<seq<Segment>, Error> {
    Convert(s, Scan(s))
  }

  function PieceTexts(s: string, ps: seq<Piece>): string
    requires ValidPieces(s, ps)
  {
    if ps == [] then [] else PieceText(s, ps[0]) + PieceTexts(s, ps[1..])
  }
}
