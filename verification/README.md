# Coloured-Text tag engine in Dafny

A model of the colour-tag markup engine of `coloured_text.py`. The engine has three parts:

- **The `Colours` resolver.**
  - It maps a token to an enum member by its upper-cased name.
  - Failing that, it maps a `#RRGGBB` prefix to a 24-bit escape through `hex_to_ansi`.
  - Otherwise it falls back to `WHITE`.
- **The segment model.**
  - A `ColouredText` renders as colour code + text + reset.
  - A `ColouredTextList` renders as the in-order join of its segments, with a segment count and a visible length.
- **`parse_from_string`.** It walks the leftmost, non-overlapping matches of the pattern `<(\w+|#\w{6})>(.+?)</\1>`. It emits:
  - a `WHITE` segment for each gap before a match;
  - a content segment for each match, coloured by its token;
  - a `WHITE` segment for the tail.

Everything is pure functions over `string` (`seq<char>`), one module per component:

| file | module | what it holds |
|---|---|---|
| `wrappers.dfy` | `Wrappers` | `Option` and `Result` |
| `chars.dfy` | `Chars` | ASCII character classes (`\w`, hex digits), `str.upper()`, base-16 digits, decimal rendering of `int` |
| `colours.dfy` | `Colours` | enum members and their escape codes (lines 24-35), the `Colour` sum type (member or RGB triplet) with `Code` as `str()`, `HexToAnsi` (`hex_to_ansi`, lines 67-78), `FromString` (`from_string`, lines 37-65) |
| `segments.dfy` | `Segments` | `Segment`, `Render` and `Length` (`ColouredText.__str__`/`__len__`, lines 121 and 130), `RenderAll`, `Count` and `TextLength` (`ColouredTextList.__str__`/`__len__`/`text_length`, lines 169, 178 and 190-191), and `Strip`, a reference for what a terminal shows (escape sequences removed) |
| `tags.dfy` | `Tags` | the tag pattern of line 208 as a declarative predicate `IsTag`; a deterministic matcher `MatchAt`/`FindNext`/`Matches` (`re.finditer`, line 209) proved equal to it; `Leftmost`, the `re.finditer` order as a predicate; `WithoutMarkup` |
| `parser.dfy` | `Parser` | `Scan` (input split into gap and tag pieces, lines 211-221 and 230), `ResolveTag` (the token-to-colour branch, lines 216 and 223-228), `Convert`, `Parse` (`parse_from_string`, lines 195-233) |
| `parse_laws.dfy` | `ParseLaws` | partition, texts, lengths, counts, failure, and rendering laws of `Parse` |
| `parse_loop.dfy` | `ParseLoop` | the cursor loop of `parse_from_string` as a method, proved equal to `Parse` |
| `examples.dfy` | `Examples` | the parse of concrete shapes: one tag, gap–tag–gap, adjacent tags, a lazy match, a failing hex token |

A colour is `Named(name)` for an enum member, or `Rgb(r, g, b)` with each channel a `Byte` (an `int` in [0, 255]). The source mixes enum members (line 220) with `.value` strings (line 226). `str()` maps both to the same escape code, so the model keeps one `Colour` and one `Code` function.

`int(pair, 16)` raises `ValueError` on a pair that is not hex. The parser's `#\w{6}` alternative lets `<#GGGGGG>` through to that call (lines 208, 223-224). This is the one way the source can fail, and the model returns it as `Err(InvalidHexLiteral(pair))`. The pair reported is the first bad one in the f-string's evaluation order: red, then green, then blue.

## Behaviour as written

Where the code does something other than what a reader of its docstrings might expect, the model follows the code:

- **The parse can fail.** A `#` token with a non-hex word character raises in `hex_to_ansi`. `Parse` returns that error instead of falling back to `WHITE`.
- **`RESET_ALL` is a resolvable colour name.** Both `Colours[...]` (line 53) and `hasattr(Colours, ...)` (line 225) accept it. A `<reset_all>` tag therefore colours its content with the reset code.
- **Segment texts are not the input.** Concatenated, they give the input with every matched opening and closing tag cut out. Only input without a match is reconstructed exactly. So `text_length` is the input's length minus the markup's length, not the input's length.
- **`from_string` tests hex as a prefix.** `re.match` at line 57 anchors only the start, so `#FF0000xyz` resolves to the true-colour triplet (255, 0, 0), whose code `ESC[38;2;255;0;0m` differs from the `RED` member's.
- **Only the nine members are resolvable in a tag.** `hasattr` sees the upper-cased token. The enum's other attributes all contain lower-case letters, so no upper-cased word token can name them.

## Model

| member | source | states |
|---|---|---|
| `Colours.Code` | coloured_text.py:24-35 | every colour's `str()` is one well-formed SGR escape: ESC, `[`, parameters with no terminator or escape inside, `m` |
| `Colours.CodeInjective` | coloured_text.py:24-78 | two colours with the same escape code are the same colour, so no member value collides with another member or with a `hex_to_ansi` code |
| `Colours.HexByte` | coloured_text.py:78 | `int(pair, 16)` on two word characters succeeds exactly when both are hex digits; otherwise it fails with that pair |
| `Colours.HexToAnsi` | coloured_text.py:78 | succeeds exactly when all six characters are hex digits; a failure names the first non-hex pair in red, green, blue order |
| `Colours.HexToAnsiCode` | coloured_text.py:78 | for six hex digits, each channel is 16 × high digit + low digit, in [0, 255], and the code is ESC `[38;2;` R `;` G `;` B `m` with each channel in decimal |
| `Colours.HexToAnsiRoundTrip` | coloured_text.py:78 | converting the two-digit hex spelling of any three bytes gives back exactly those bytes |
| `Colours.HexToAnsiUpper` | coloured_text.py:216-224 | upper-casing a hex literal first does not change its colour, so the parser's `upper()` before `hex_to_ansi` is harmless |
| `Colours.LookupName` | coloured_text.py:53 | `Colours[u]` finds a member exactly when `u` is that member's name, including `RESET_ALL`, and none otherwise |
| `Colours.FromStringName` | coloured_text.py:52-53 | a token whose upper-cased form is a member's name resolves to that member, whatever its case |
| `Colours.FromStringHex` | coloured_text.py:56-64 | `#` followed by the six hex digits of (r, g, b), then any characters, resolves to that RGB colour; trailing characters are ignored |
| `Colours.FromStringFallback` | coloured_text.py:65 | a token that neither names a member nor starts with `#` and six hex digits resolves to `WHITE` |
| `Colours.FromStringCaseInsensitive` | coloured_text.py:52-64 | two tokens equal up to upper-casing resolve to the same colour, on the name, hex and fallback paths alike |
| `Chars.Decimal` | coloured_text.py:78 | the decimal rendering in the f-string is non-empty, all digits, starts with `0` only for zero, and is then exactly `0` (no leading zeros) |
| `Chars.DecimalRoundTrip` | coloured_text.py:78 | reading the decimal rendering back gives the number, so the channel values are recoverable from the code |
| `Chars.UpperKeepsClasses` | coloured_text.py:216 | `upper()` keeps a token a word run and keeps a hex literal hex |
| `Chars.UpperIdempotent` | coloured_text.py:216 | upper-casing twice is upper-casing once |
| `Segments.RenderShowsText` | coloured_text.py:121 | what a terminal shows of a rendered segment, followed by anything, is the segment's text followed by what it shows of the rest |
| `Segments.LengthIsVisibleWidth` | coloured_text.py:121-130 | a segment's `len` is the number of characters its rendering shows, whatever its colour; the rendering starts with the colour code and ends with the reset code |
| `Segments.RenderAllAppend` | coloured_text.py:169 | rendering a joined list is rendering each part and joining, in order |
| `Segments.RenderAllShowsTexts` | coloured_text.py:169 | what a terminal shows of a rendered list is its segment texts in order, with no colour code left |
| `Segments.TextLengthOfTexts` | coloured_text.py:190-191 | `text_length` is the length of the concatenated segment texts |
| `Segments.TextLengthIsVisibleWidth` | coloured_text.py:180-191 | `text_length` is the number of characters a terminal shows of the rendered list, independent of the colour codes |
| `Tags.WordRunEndSpec` | coloured_text.py:208 | the greedy `\w+` run ends at the first non-word character |
| `Tags.TokenAtSound` | coloured_text.py:208 | a token found at `<` is a valid `color` group, written in the input and followed by `>` |
| `Tags.TokenAtComplete` | coloured_text.py:208 | every valid token written after `<` and followed by `>` is the one found |
| `Tags.FindCloseSpec` | coloured_text.py:208 | the close search returns the first `</token>` reachable through newline-free content; when it finds none, every later `</token>` has a newline before it |
| `Tags.MatchAtSound` | coloured_text.py:208 | a match found at `i` is a tag at `i`: opening tag, non-empty newline-free content, and a closing tag with the identical token, none earlier |
| `Tags.MatchAtComplete` | coloured_text.py:208 | every tag starting at `i` is the one the matcher finds, so the lazy `.+?` picks the shortest content |
| `Tags.MatchAtExact` | coloured_text.py:208 | the matcher returns `m` at `i` if and only if `m` is a tag starting at `i` |
| `Tags.StartsTagIffMatchAt` | coloured_text.py:208 | some tag starts at `p` exactly when the matcher finds one there |
| `Tags.FindNextLeftmost` | coloured_text.py:209 | no tag starts between the search position and the match the search returns |
| `Tags.FindNextNone` | coloured_text.py:209 | the search finds nothing exactly when no tag starts at or after the search position |
| `Tags.FindNextSome` | coloured_text.py:209 | the search returns `m` exactly when `m` is a tag at or after the search position and no tag starts earlier |
| `Tags.MatchesAreLeftmost` | coloured_text.py:209-213 | the `finditer` sequence is the unique sequence that is in input order, non-overlapping, leftmost at every step, and leaves no tag behind its end |
| `Parser.ResolveTag` | coloured_text.py:216-228 | a tag's colour fails exactly for a `#` token with a non-hex character, and then with `hex_to_ansi`'s error on the upper-cased six characters (the first bad pair); otherwise it is what `from_string` gives the token |
| `ParseLaws.WalkPartition` | coloured_text.py:211-231 | the cursor walk covers the input from the cursor to the end, contiguously and in order; its tag pieces are the matches; no two gap pieces are adjacent |
| `ParseLaws.WalkGapsUntagged` | coloured_text.py:219-220 | when the matches are leftmost, no tag starts inside any gap |
| `ParseLaws.WalkTexts` | coloured_text.py:217-231 | the walk's texts are the input from the cursor on, with every match's markup cut out |
| `ParseLaws.WalkLength` | coloured_text.py:217-231 | the walk's text length plus the matches' markup length is the length of the input from the cursor |
| `ParseLaws.WalkCount` | coloured_text.py:213-231 | the walk has at least one piece per match and at most one gap more than twice the matches |
| `ParseLaws.ConvertSpec` | coloured_text.py:219-231 | conversion succeeds exactly when every piece does, and then gives one segment per piece, in order; a failure is the failure of the first piece that fails, all earlier pieces converting |
| `ParseLaws.ConvertTexts` | coloured_text.py:217-231 | converting pieces into segments keeps their texts |
| `ParseLaws.PieceSegmentFails` | coloured_text.py:223-224 | a piece fails exactly when it is a tag with a bad hex token, with that token's error |
| `ParseLaws.ConvertFails` | coloured_text.py:223-224 | conversion fails exactly when some tag piece has a bad hex token, and then with the error of the first such piece |
| `ParseLaws.ParseEmpty` | coloured_text.py:210-233 | the empty string parses to the empty list |
| `ParseLaws.ParsePartition` | coloured_text.py:208-231 | the scan covers the whole input in order; its tags are the leftmost `finditer` matches; no tag starts inside a gap; no two gaps are adjacent |
| `ParseLaws.ParseUntagged` | coloured_text.py:230-231 | a non-empty input with no tag parses to one `WHITE` segment holding the whole input |
| `ParseLaws.ParseSegments` | coloured_text.py:219-231 | a successful parse has one segment per piece: a gap is the verbatim `WHITE` slice, and a tag is its content coloured by its token |
| `ParseLaws.ParseSegmentsNonEmpty` | coloured_text.py:219-231 | no segment of a successful parse has empty text |
| `ParseLaws.ParseFails` | coloured_text.py:223-224 | the parse fails exactly when some match has a `#` token with a non-hex character, and then with the error of the first such match in `finditer` order, as the loop raises at it |
| `ParseLaws.ParseTexts` | coloured_text.py:217-231 | the segment texts concatenate to the input with every matched opening and closing tag cut out |
| `ParseLaws.ParseTextLength` | coloured_text.py:217-231 | `text_length` of the parse plus the total markup length of the matches is the input's length |
| `ParseLaws.ParseCount` | coloured_text.py:213-231 | `len` of the parse is between the number of matches and one more than twice that number |
| `ParseLaws.ParseUntaggedRoundTrip` | coloured_text.py:230-231 | input with no tag parses successfully; its texts are the input and its `text_length` is the input's length |
| `ParseLaws.ParseRenderShows` | coloured_text.py:195-233 | a terminal shows the rendered parse as the input with the tag markup cut out |
| `ParseLoop.Loop` | coloured_text.py:210-233 | the cursor loop over the `finditer` matches returns exactly what the piece-wise conversion of the cursor walk gives, error included |
| `ParseLoop.ParseFromString` | coloured_text.py:195-233 | `parse_from_string` returns the segments `Parse` defines, or its error |
| `Examples.OneTagMatches` | coloured_text.py:208-209 | for content `c` that is non-empty, one line and free of `<`, `<t>c</t>` has exactly one match, spanning the whole input |
| `Examples.OneTagParse` | coloured_text.py:213-228 | for content `c` that is non-empty, one line and free of `<`, `<t>c</t>` parses to the one segment `c` in the token's colour |
| `Examples.FailingTagParse` | coloured_text.py:223-224 | for content `c` that is non-empty, one line and free of `<`, `<t>c</t>` with a token whose colour fails makes the whole parse fail with that error |
| `Examples.GapTagGapMatches` | coloured_text.py:208-209 | for content `c` that is non-empty, one line and free of `<` and `a`, `b` free of `<`, `a<t>c</t>b` has exactly the one match after `a` |
| `Examples.GapTagGapParse` | coloured_text.py:219-231 | for content `c` that is non-empty, one line and free of `<` and non-empty `a`, `b` free of `<`, `a<t>c</t>b` parses to `a` in `WHITE`, `c` in the token's colour, `b` in `WHITE` |
| `Examples.AdjacentMatches` | coloured_text.py:208-209 | two tags `<t1>c1</t1><t2>c2</t2>` written back to back, with contents non-empty, one line and free of `<`, are two matches, the second starting where the first ends |
| `Examples.AdjacentTagsParse` | coloured_text.py:219-228 | two adjacent tags, with contents non-empty, one line and free of `<`, parse to their two contents, with no gap segment between them |
| `Examples.LazyMatches` | coloured_text.py:208 | for content `c` that is non-empty, one line and free of `<` and `b` free of `<`, the only match in `<t>c</t>b</t>` stops at the first `</t>`, not the last |
| `Examples.LazyContentParse` | coloured_text.py:208-231 | for content `c` that is non-empty, one line and free of `<` and `b` free of `<`, `<t>c</t>b</t>` parses to `c` in the token's colour and the verbatim tail `b</t>` in `WHITE` |
| `Examples.FirstFailureWins` | coloured_text.py:213-224 | for two adjacent tags with contents non-empty, one line and free of `<`, a first token whose colour fails makes the parse fail with its error, whatever the second token is |
| `Examples.BadHexPairParse` | coloured_text.py:223-224 | `<#GGGGGG>a</#GGGGGG><#HHHHHH>b</#HHHHHH>` fails with the pair `GG` of the first tag, not `HH` |

## Left out

- The `print(match)` in `from_string` (line 58) is console output with no effect on the result.
- `setup.py` is packaging metadata and not part of this model.
- Enum machinery is left out: `Colours` is a closed datatype of its nine members, and `str()` of a member is `Code`.
- The duplicate `self.texts` copy in `ColouredTextList` (lines 157-158, 190) is left out, and a list is one immutable `seq<Segment>`. The copy equals the list as `parse_from_string` returns it. After in-place mutation of the list (`append`, `extend`, `del`, item assignment), `text_length` still sums the segments the list was built with, while `len` and `str` see the mutated list; the model does not follow that divergence.
- The stray `@staticmethod` on the module-level `parse_from_string` (line 194) is left out; the model has a plain function and method.
- `\w` and `str.upper()` are modelled on ASCII only: letters, digits and `_`. Python's Unicode word characters and case mappings (`ß` becoming `SS`, for instance) are not modelled.
- What a terminal does with escape codes is reduced to `Strip`: a reference that deletes each run from ESC through the next `m` and keeps every other character.
- The general regex engine is left out. Only the pattern of line 208 is modelled, as a hand-written deterministic matcher proved equal to its declarative reading.
- `Colours.HexToAnsi` requires six word characters, which every caller passes: the `from_string` pattern and the `#\w{6}` alternative. Other inputs that `int()` treats specially are not modelled: whitespace, a sign, or non-ASCII digits. Within a two-character word pair, `_` can only lead or trail, and there `int()` rejects it just as the model does.
- `ParseLaws.ParseRenderShows` is stated only for input with no ESC character. Escape sequences written into the input itself would be interpreted by the terminal, and then the shown text depends on them.
- `Segments.RenderShowsText` is stated only for texts with no ESC character, for the same reason.
- `Segments.LengthIsVisibleWidth` is stated only for texts with no ESC character, for the same reason.
- `Segments.RenderAllShowsTexts` is stated only for texts with no ESC character, for the same reason.
- `Segments.TextLengthIsVisibleWidth` is stated only for texts with no ESC character, for the same reason.
