/**
 * The colour resolver: the `Colours` enum, its `from_string` lookup and the
 * `hex_to_ansi` conversion of a six-digit hex code to a 24-bit SGR sequence.
 * Python mixes enum members and plain code strings as "colours"; both are
 * modelled as one `Colour` value whose `Code` is what `str()` yields.
 */
module Colours {
  import opened Wrappers
  import opened Chars

  /** The members of the `Colours` enum. */
  datatype Name = Black | Red | Green | Yellow | Blue | Magenta | Cyan | White | ResetAll

  /** The member's name, as `Colours[...]` and `hasattr(Colours, ...)` look it up. */
  function NameText(n: Name): string {
    match n
    case Black => "BLACK"
    case Red => "RED"
    case Green => "GREEN"
    case Yellow => "YELLOW"
    case Blue => "BLUE"
    case Magenta => "MAGENTA"
    case Cyan => "CYAN"
    case White => "WHITE"
    case ResetAll => "RESET_ALL"
  }

  /** The member's value: its SGR escape sequence. */
  function NameCode(n: Name): string {
    match n
    case Black => [ESC] + "[30m"
    case Red => [ESC] + "[31m"
    case Green => [ESC] + "[32m"
    case Yellow => [ESC] + "[33m"
    case Blue => [ESC] + "[34m"
    case Magenta => [ESC] + "[35m"
    case Cyan => [ESC] + "[36m"
    case White => [ESC] + "[37m"
    case ResetAll => [ESC] + "[0m"
  }

  /** `str(Colours.RESET_ALL)`, appended after every rendered segment. */
  const Reset: string := NameCode(ResetAll)

  type Byte = x: int | 0 <= x < 256

  /** A renderable colour: an enum member, or a true-colour triplet from `hex_to_ansi`. */
  datatype Colour = Named(name: Name) | Rgb(red: Byte, green: Byte, blue: Byte)

  /** The fallback colour for gaps, the tail and unknown names. */
  const Fallback: Colour := Named(White)

  /** Parameters of an SGR sequence: digits and `;`, so no terminator and no second escape inside. */
  predicate SgrParams(p: string) {
    forall k :: 0 <= k < |p| ==> p[k] == ';' || IsDigit(p[k])
  }

  /** `ESC`, `[`, parameters, `m`: the shape of every code this module produces. */
  predicate IsSgr(code: string) {
    && |code| >= 3 && code[0] == ESC && code[1] == '['
    && code[|code| - 1] == 'm' && SgrParams(code[2..|code| - 1])
  }

  /** The three channels in decimal, separated by `;`. */
  function RgbParams(r: Byte, g: Byte, b: Byte): string {
    Decimal(r) + [';'] + (Decimal(g) + [';'] + Decimal(b))
  }

  function RgbCode(r: Byte, g: Byte, b: Byte): string {
    [ESC] + "[38;2;" + RgbParams(r, g, b) + "m"
  }

  /** `str(colour)`: the escape sequence that switches the colour on. */
  function Code(c: Colour): (code: string)
    ensures IsSgr(code)
  {
    match c
    case Named(n) => NameCode(n)
    case Rgb(r, g, b) => RgbCodeShape(r, g, b); RgbCode(r, g, b)
  }

  lemma RgbCodeShape(r: Byte, g: Byte, b: Byte)
    ensures IsSgr(RgbCode(r, g, b))
  {
    var p := "38;2;" + Decimal(r) + ";" + Decimal(g) + ";" + Decimal(b);
    assert RgbCode(r, g, b) == [ESC] + "[" + p + "m";
    assert RgbCode(r, g, b)[2..|RgbCode(r, g, b)| - 1] == p;
    assert SgrParams(p) by {
      forall k | 0 <= k < |p|
        ensures p[k] == ';' || IsDigit(p[k])
      {
        var dr, dg := |Decimal(r)|, |Decimal(g)|;
        if k < 5 {
        } else if k < 5 + dr {
          assert p[k] == Decimal(r)[k - 5];
        } else if k == 5 + dr {
        } else if k < 6 + dr + dg {
          assert p[k] == Decimal(g)[k - 6 - dr];
        } else if k == 6 + dr + dg {
        } else {
          assert p[k] == Decimal(b)[k - 7 - dr - dg];
        }
      }
    }
  }

  /** Index of the first `;` (the length when there is none). */
  function SemicolonIndex(w: string): (i: nat)
    ensures i <= |w|
  {
    if w == [] || w[0] == ';' then 0 else 1 + SemicolonIndex(w[1..])
  }

  lemma {:induction false} SemicolonAfterDigits(a: string, x: string)
    requires forall k :: 0 <= k < |a| ==> IsDigit(a[k])
    ensures SemicolonIndex(a + [';'] + x) == |a|
  {
    if a != [] {
      assert (a + [';'] + x)[1..] == a[1..] + [';'] + x;
      SemicolonAfterDigits(a[1..], x);
    }
  }

  /** Two digit runs joined by `;` split back uniquely. */
  lemma SplitAtSemicolon(a: string, x: string, b: string, y: string)
    requires forall k :: 0 <= k < |a| ==> IsDigit(a[k])
    requires forall k :: 0 <= k < |b| ==> IsDigit(b[k])
    requires a + [';'] + x == b + [';'] + y
    ensures a == b && x == y
  {
    SemicolonAfterDigits(a, x);
    SemicolonAfterDigits(b, y);
    assert a == (a + [';'] + x)[..|a|];
    assert b == (b + [';'] + y)[..|b|];
    assert x == (a + [';'] + x)[|a| + 1..];
    assert y == (b + [';'] + y)[|b| + 1..];
  }

  lemma RgbCodeInjective(r1: Byte, g1: Byte, b1: Byte, r2: Byte, g2: Byte, b2: Byte)
    requires RgbCode(r1, g1, b1) == RgbCode(r2, g2, b2)
    ensures r1 == r2 && g1 == g2 && b1 == b2
  {
    var c := RgbCode(r1, g1, b1);
    assert RgbParams(r1, g1, b1) == c[7..|c| - 1];
    assert RgbParams(r2, g2, b2) == c[7..|c| - 1];
    SplitAtSemicolon(Decimal(r1), Decimal(g1) + [';'] + Decimal(b1), Decimal(r2), Decimal(g2) + [';'] + Decimal(b2));
    SplitAtSemicolon(Decimal(g1), Decimal(b1), Decimal(g2), Decimal(b2));
    DecimalInjective(r1, r2);
    DecimalInjective(g1, g2);
    DecimalInjective(b1, b2);
  }

  /** Distinct colours switch on with distinct escape sequences. */
  lemma CodeInjective(c1: Colour, c2: Colour)
    ensures Code(c1) == Code(c2) ==> c1 == c2
  {
    if Code(c1) == Code(c2) {
      match (c1, c2)
      case (Named(n1), Named(n2)) =>
        assert |NameCode(n1)| == |NameCode(n2)|;
        assert NameCode(n1)[|NameCode(n1)| - 2] == NameCode(n2)[|NameCode(n2)| - 2];
      case (Rgb(r1, g1, b1), Rgb(r2, g2, b2)) =>
        RgbCodeInjective(r1, g1, b1, r2, g2, b2);
      case (Named(n1), Rgb(r2, g2, b2)) =>
      case (Rgb(r1, g1, b1), Named(n2)) =>
    }
  }

  /** The `ValueError` that `int(pair, 16)` raises on a pair that is not hex. */
  datatype Error = InvalidHexLiteral(literal: string)

  function PairValue(hi: char, lo: char): (v: Byte)
    requires IsHexDigit(hi) && IsHexDigit(lo)
  {
    16 * HexValue(hi) + HexValue(lo)
  }

  /** `int(pair, 16)` on two word characters. */
  function HexByte(pair: string): (r: Result<Byte, Error>)
    requires |pair| == 2 && AllWord(pair)
    ensures r.Ok? <==> AllHex(pair)
    ensures r.Err? ==> r.error == InvalidHexLiteral(pair)
  {
    if IsHexDigit(pair[0]) && IsHexDigit(pair[1]) then Ok(PairValue(pair[0], pair[1]))
    else Err(InvalidHexLiteral(pair))
  }

  /**
   * `hex_to_ansi`: the three byte pairs, read left to right, become a
   * true-colour code; the first pair that is not hex raises.
   */
  function HexToAnsi(h: string): (r: Result<Colour, Error>)
    requires |h| == 6 && AllWord(h)
    ensures r.Ok? <==> AllHex(h)
    ensures r.Err? ==> var lit := r.error.literal;
      || (lit == h[0..2] && !AllHex(lit))
      || (lit == h[2..4] && AllHex(h[0..2]) && !AllHex(lit))
      || (lit == h[4..6] && AllHex(h[0..4]) && !AllHex(lit))
  {
    var red :- HexByte(h[0..2]);
    var green :- HexByte(h[2..4]);
    var blue :- HexByte(h[4..6]);
    Ok(Rgb(red, green, blue))
  }

  /**
   * The code `hex_to_ansi` builds: each pair read in base 16, written in
   * decimal between `ESC[38;2;` and `m`.
   */
  lemma HexToAnsiCode(h: string)
    requires |h| == 6 && AllWord(h) && AllHex(h)
    ensures HexToAnsi(h).Ok? && HexToAnsi(h).value.Rgb?
    ensures var c := HexToAnsi(h).value;
      && c.red == 16 * HexValue(h[0]) + HexValue(h[1])
      && c.green == 16 * HexValue(h[2]) + HexValue(h[3])
      && c.blue == 16 * HexValue(h[4]) + HexValue(h[5])
      && Code(c) == [ESC] + "[38;2;" + Decimal(c.red) + ";" + Decimal(c.green) + ";" + Decimal(c.blue) + "m"
  {
    assert h[0..2][0] == h[0] && h[0..2][1] == h[1];
    assert h[2..4][0] == h[2] && h[2..4][1] == h[3];
    assert h[4..6][0] == h[4] && h[4..6][1] == h[5];
  }

  /** Six upper-case hex digits spelling a colour triplet. */
  function HexText(r: Byte, g: Byte, b: Byte): (h: string)
    ensures |h| == 6 && AllHex(h) && AllWord(h)
  {
    [HexDigit(r / 16), HexDigit(r % 16), HexDigit(g / 16), HexDigit(g % 16), HexDigit(b / 16), HexDigit(b % 16)]
  }

  /** Writing a triplet as hex and converting it back gives the same colour. */
  lemma HexToAnsiRoundTrip(r: Byte, g: Byte, b: Byte)
    ensures HexToAnsi(HexText(r, g, b)) == Ok(Rgb(r, g, b))
  {
  }

  /** `int(..., 16)` ignores letter case, so upper-casing the digits changes nothing. */
  lemma HexToAnsiUpper(h: string)
    requires |h| == 6 && AllWord(h) && AllHex(h)
    ensures AllWord(Upper(h))
    ensures HexToAnsi(Upper(h)) == HexToAnsi(h)
  {
    UpperKeepsClasses(h);
    var u := Upper(h);
    assert forall k :: 0 <= k < 6 ==> u[k] == UpperChar(h[k]);
  }

  /** `Colours[u]`: the member whose name is exactly `u`, if any. */
  function LookupName(u: string): (r: Option<Name>)
    ensures r.Some? ==> NameText(r.value) == u
    ensures r.None? ==> forall n: Name :: NameText(n) != u
  {
    if u == "BLACK" then Some(Black)
    else if u == "RED" then Some(Red)
    else if u == "GREEN" then Some(Green)
    else if u == "YELLOW" then Some(Yellow)
    else if u == "BLUE" then Some(Blue)
    else if u == "MAGENTA" then Some(Magenta)
    else if u == "CYAN" then Some(Cyan)
    else if u == "WHITE" then Some(White)
    else if u == "RESET_ALL" then Some(ResetAll)
    else None
  }

  /** What `re.match(r"#(?P<hex>[A-Fa-f0-9]{6})", t)` accepts: a prefix test. */
  predicate HasHexPrefix(t: string) {
    |t| >= 7 && t[0] == '#' && AllHex(t[1..7])
  }

  /**
   * `Colours.from_string`: a member by upper-cased name, else a hex prefix
   * converted by `hex_to_ansi`, else `WHITE`.
   */
  function FromString(t: string): Colour {
    match LookupName(Upper(t))
    case Some(n) => Named(n)
    case None =>
      if HasHexPrefix(t) then
        assert AllWord(t[1..7]);
        HexToAnsi(t[1..7]).value
      else Fallback
  }

  lemma NameStartsWithLetter(n: Name)
    ensures IsUpper(NameText(n)[0])
  {
  }

  /** Any spelling of a member's name, in any letter case, resolves to that member. */
  lemma FromStringName(t: string, n: Name)
    requires Upper(t) == NameText(n)
    ensures FromString(t) == Named(n)
  {
  }

  /** `#` and six hex digits resolve to that triplet, whatever follows them. */
  lemma FromStringHex(r: Byte, g: Byte, b: Byte, rest: string)
    ensures FromString(['#'] + HexText(r, g, b) + rest) == Rgb(r, g, b)
  {
    var t := ['#'] + HexText(r, g, b) + rest;
    assert Upper(t)[0] == '#';
    if LookupName(Upper(t)).Some? {
      NameStartsWithLetter(LookupName(Upper(t)).value);
      assert false;
    }
    assert t[1..7] == HexText(r, g, b);
    HexToAnsiRoundTrip(r, g, b);
  }

  /** A token that is neither a member name nor starts with a hex code falls back to white. */
  lemma FromStringFallback(t: string)
    requires forall n: Name :: NameText(n) != Upper(t)
    requires !HasHexPrefix(t)
    ensures FromString(t) == Named(White)
  {
  }

  lemma UpperPointwise(a: string, b: string)
    requires Upper(a) == Upper(b)
    ensures |a| == |b|
    ensures forall k :: 0 <= k < |a| ==> UpperChar(a[k]) == UpperChar(b[k])
  {
    forall k | 0 <= k < |a|
      ensures UpperChar(a[k]) == UpperChar(b[k])
    {
      assert Upper(a)[k] == Upper(b)[k];
    }
  }

  lemma HexPrefixUpper(a: string, b: string)
    requires Upper(a) == Upper(b)
    ensures HasHexPrefix(a) <==> HasHexPrefix(b)
    ensures HasHexPrefix(a) ==> AllWord(a[1..7]) && AllWord(b[1..7]) && HexToAnsi(a[1..7]) == HexToAnsi(b[1..7])
  {
    UpperPointwise(a, b);
    if |a| >= 7 {
      assert a[0] == '#' <==> b[0] == '#' by {
        assert UpperChar(a[0]) == UpperChar(b[0]);
      }
      assert AllHex(a[1..7]) <==> AllHex(b[1..7]) by {
        forall k | 0 <= k < 6
          ensures IsHexDigit(a[1..7][k]) <==> IsHexDigit(b[1..7][k])
        {
          assert UpperChar(a[k + 1]) == UpperChar(b[k + 1]);
        }
      }
      if HasHexPrefix(a) {
        assert Upper(a[1..7]) == Upper(a)[1..7] == Upper(b)[1..7] == Upper(b[1..7]);
        HexToAnsiUpper(a[1..7]);
        HexToAnsiUpper(b[1..7]);
      }
    }
  }

  /** Resolution ignores letter case throughout, the hex digits included. */
  lemma FromStringCaseInsensitive(a: string, b: string)
    requires Upper(a) == Upper(b)
    ensures FromString(a) == FromString(b)
  {
    HexPrefixUpper(a, b);
  }
}
