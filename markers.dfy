/**
  Inline style markers. An author writes `¥¥¥keywords¥¥¥content¥¥¥` inside a
  SubRip text line; the keywords resolve to a style (size, colour, weight,
  slant) and the span becomes Advanced SubStation Alpha override tags around the
  content, closed by the reset tag `{\r}`.
 */
module Markers {
  import opened Results
  import opened Text

  // ---------------------------------------------------------------- styles

  /** The style dict: font size, a `&HAABBGGRR` colour, and 0/1 weight and slant. */
  datatype Style = Style(fontSize: int, colour: string, bold: int, italic: int)

  const White: string := "&H00FFFFFF"
  const Red: string := "&H000000FF"
  const Blue: string := "&H00FF0000"
  const Green: string := "&H0000FF00"
  const Yellow: string := "&H0000FFFF"

  const DefaultStyle: Style := Style(24, White, 0, 0)

  /** `parse_marker`: each keyword of the vocabulary is tested as a substring of
      the lower-cased marker text. */
  function ParseMarker(marker: string): (style: Style)
    ensures style.fontSize in {18, 24, 36}
    ensures style.colour in {White, Red, Blue, Green, Yellow}
    ensures style.bold in {0, 1} && style.italic in {0, 1}
  {
    var lower := Lower(marker);
    ApplyKeywords(
      Contains(lower, "large"), Contains(lower, "small"),
      Contains(lower, "red"), Contains(lower, "blue"), Contains(lower, "green"), Contains(lower, "yellow"),
      Contains(lower, "bold"), Contains(lower, "italic"))
  }

  /** The assignments of `parse_marker`: start from the defaults and let the
      keywords found overwrite one field each, size and colour by an elif chain. */
  function ApplyKeywords(large: bool, small: bool, red: bool, blue: bool, green: bool, yellow: bool,
                         bold: bool, italic: bool): Style
  {
    var style := DefaultStyle;
    var style :=
      if large then style.(fontSize := 36)
      else if small then style.(fontSize := 18)
      else style;
    var style :=
      if red then style.(colour := Red)
      else if blue then style.(colour := Blue)
      else if green then style.(colour := Green)
      else if yellow then style.(colour := Yellow)
      else style;
    var style := if bold then style.(bold := 1) else style;
    var style := if italic then style.(italic := 1) else style;
    style
  }

  /** Some keyword of the marker vocabulary occurs in the lower-cased marker. */
  predicate HasKeyword(lower: string) {
    || Contains(lower, "large") || Contains(lower, "small")
    || Contains(lower, "red") || Contains(lower, "blue")
    || Contains(lower, "green") || Contains(lower, "yellow")
    || Contains(lower, "bold") || Contains(lower, "italic")
  }

  /** A marker resolves to the defaults exactly when it names no keyword. */
  lemma ParseMarkerDefaults(marker: string)
    ensures ParseMarker(marker) == DefaultStyle <==> !HasKeyword(Lower(marker))
  {
  }

  /** Size: `large` gives 36 whatever else is named, `small` gives 18 only
      without `large`, and 24 otherwise. */
  lemma ParseMarkerSize(marker: string)
    ensures var lower := Lower(marker);
      && (ParseMarker(marker).fontSize == 36 <==> Contains(lower, "large"))
      && (ParseMarker(marker).fontSize == 18 <==> !Contains(lower, "large") && Contains(lower, "small"))
  {
  }

  /** Colour: the first of red, blue, green, yellow that occurs wins; white otherwise. */
  lemma ParseMarkerColour(marker: string)
    ensures var lower := Lower(marker); var c := ParseMarker(marker).colour;
      && (c == Red <==> Contains(lower, "red"))
      && (c == Blue <==> !Contains(lower, "red") && Contains(lower, "blue"))
      && (c == Green <==> !Contains(lower, "red") && !Contains(lower, "blue") && Contains(lower, "green"))
      && (c == Yellow <==> !Contains(lower, "red") && !Contains(lower, "blue") && !Contains(lower, "green")
                           && Contains(lower, "yellow"))
  {
  }

  /** Weight and slant are set exactly when their keyword occurs, independently. */
  lemma ParseMarkerFlags(marker: string)
    ensures ParseMarker(marker).bold == 1 <==> Contains(Lower(marker), "bold")
    ensures ParseMarker(marker).italic == 1 <==> Contains(Lower(marker), "italic")
  {
  }

  /** Keyword tests ignore case: a marker and its lower-cased form resolve alike. */
  lemma ParseMarkerCaseInsensitive(marker: string)
    ensures ParseMarker(Lower(marker)) == ParseMarker(marker)
  {
    LowerIdempotent(marker);
  }

  // ---------------------------------------------------------------- override tags

  /** The colour tag for each of the four marker colours: BBGGRR between
      `\c&H` and `&`, the alpha byte dropped. */
  function ColourTag(colour: string): seq<string> {
    if colour == Red then ["\\c&H0000FF&"]
    else if colour == Blue then ["\\c&HFF0000&"]
    else if colour == Green then ["\\c&H00FF00&"]
    else if colour == Yellow then ["\\c&H00FFFF&"]
    else []
  }

  /** The tags of `replace_marker`, in the fixed order size, colour, weight, slant;
      a field at its default contributes none. */
  function OverrideTags(style: Style): seq<string> {
    (if style.fontSize != 24 then ["\\fs" + IntToString(style.fontSize)] else [])
    + (if style.colour != White then ColourTag(style.colour) else [])
    + (if style.bold != 0 then ["\\b1"] else [])
    + (if style.italic != 0 then ["\\i1"] else [])
  }

  const ResetTag: string := "{\\r}"

  /** What one marker span is replaced by: its content alone when no tag applies,
      otherwise one override block, the content and the reset block. */
  function Replacement(keywords: string, content: string): string {
    var tags := OverrideTags(ParseMarker(keywords));
    if |tags| > 0 then "{" + Join(tags, "") + "}" + content + ResetTag else content
  }

  /** The tag list of `replace_marker`, one append per field that differs from
      the defaults. */
  method CollectTags(style: Style) returns (tags: seq<string>)
    ensures tags == OverrideTags(style)
  {
    tags := [];
    if style.fontSize != 24 {
      tags := tags + ["\\fs" + IntToString(style.fontSize)];
    }
    ghost var sized := tags;
    if style.colour != White {
      if style.colour == Red {
        tags := tags + ["\\c&H0000FF&"];
      } else if style.colour == Blue {
        tags := tags + ["\\c&HFF0000&"];
      } else if style.colour == Green {
        tags := tags + ["\\c&H00FF00&"];
      } else if style.colour == Yellow {
        tags := tags + ["\\c&H00FFFF&"];
      }
    }
    ghost var coloured := if style.colour != White then ColourTag(style.colour) else [];
    assert tags == sized + coloured;
    ghost var weighted := if style.bold != 0 then ["\\b1"] else [];
    if style.bold != 0 {
      tags := tags + ["\\b1"];
    }
    assert tags == sized + coloured + weighted;
    ghost var slanted := if style.italic != 0 then ["\\i1"] else [];
    if style.italic != 0 {
      tags := tags + ["\\i1"];
    }
    assert tags == sized + coloured + weighted + slanted;
    assert sized == if style.fontSize != 24 then ["\\fs" + IntToString(style.fontSize)] else [];
  }

  /** `replace_marker`: resolve the keywords, collect the tags, wrap the content. */
  method ReplaceMarker(keywords: string, content: string) returns (r: string)
    ensures r == Replacement(keywords, content)
  {
    var style := ParseMarker(keywords);
    var tags := CollectTags(style);
    if |tags| > 0 {
      var startTag := "{" + Join(tags, "") + "}";
      var endTag := if |tags| > 0 then ResetTag else "";
      r := startTag + content + endTag;
    } else {
      r := content;
    }
  }

  /** A resolved marker yields no tag exactly when it is the default style,
      so a marker without keywords is replaced by its bare content. */
  lemma TagsEmptyIffDefault(keywords: string, content: string)
    ensures OverrideTags(ParseMarker(keywords)) == [] <==> ParseMarker(keywords) == DefaultStyle
    ensures ParseMarker(keywords) == DefaultStyle ==> Replacement(keywords, content) == content
  {
    DefaultIffNoTags(ParseMarker(keywords));
  }

  /** Among the styles a marker can resolve to, only the default yields no tag. */
  lemma DefaultIffNoTags(style: Style)
    requires style.fontSize in {18, 24, 36}
    requires style.colour in {White, Red, Blue, Green, Yellow}
    requires style.bold in {0, 1} && style.italic in {0, 1}
    ensures OverrideTags(style) == [] <==> style == DefaultStyle
  {
  }

  // ---------------------------------------------------------------- the marker scan

  const Yen: char := '¥'
  const Delimiter: string := [Yen, Yen, Yen]

  /** The source text of one marker span. */
  function MarkerText(keywords: string, content: string): string {
    Delimiter + keywords + Delimiter + content + Delimiter
  }

  /** `s` starts with a match of `¥¥¥([^¥]+)¥¥¥([^¥]*)¥¥¥` whose groups are
      `keywords` and `content`. */
  ghost predicate IsMarkerAt(s: string, keywords: string, content: string) {
    |keywords| > 0 && Yen !in keywords && Yen !in content && MarkerText(keywords, content) <= s
  }

  /** The longest prefix free of the delimiter character: what `[^¥]*` consumes. */
  function TakeNonYen(s: string): (r: string)
    ensures r <= s && Yen !in r
    ensures |r| < |s| ==> s[|r|] == Yen
  {
    if |s| == 0 || s[0] == Yen then [] else [s[0]] + TakeNonYen(s[1..])
  }

  /** The pattern tried at the start of `s`. Neither group can hold `¥`, so each
      runs to the next `¥` and no backtracking can find another match. */
  function MatchAt(s: string): (m: Option<(string, string)>)
    ensures m.Some? ==> IsMarkerAt(s, m.value.0, m.value.1)
  {
    if !(Delimiter <= s) then None
    else
      var keywords := TakeNonYen(s[3..]);
      var rest := s[3 + |keywords|..];
      if |keywords| == 0 || !(Delimiter <= rest) then None
      else
        var content := TakeNonYen(rest[3..]);
        if Delimiter <= rest[3 + |content|..] then
          DelimitedSpan(s, keywords, content);
          Some((keywords, content))
        else None
  }

  /** Three delimiters around two spans make a marker text at the start. */
  lemma DelimitedSpan(s: string, keywords: string, content: string)
    requires Delimiter <= s && keywords <= s[3..]
    requires Delimiter <= s[3 + |keywords|..]
    requires content <= s[3 + |keywords|..][3..]
    requires Delimiter <= s[3 + |keywords|..][3 + |content|..]
    ensures MarkerText(keywords, content) <= s
  {
    var rest := s[3 + |keywords|..];
    var tail := rest[3 + |content|..];
    assert rest == Delimiter + content + tail;
    assert s == Delimiter + keywords + rest;
  }

  lemma {:induction false} TakeNonYenStops(x: string, y: string)
    requires Yen !in x && |y| > 0 && y[0] == Yen
    ensures TakeNonYen(x + y) == x
    decreases |x|
  {
    if |x| > 0 {
      var xy := x + y;
      assert xy[0] == x[0] && xy[1..] == x[1..] + y;
      TakeNonYenStops(x[1..], y);
      assert TakeNonYen(xy) == [x[0]] + TakeNonYen(x[1..] + y);
      assert [x[0]] + x[1..] == x;
    } else {
      assert x + y == y;
    }
  }

  /** The pattern matches at the start of `s`, with these groups, exactly when `s`
      begins with a well-formed marker span having them. */
  lemma MatchAtIff(s: string, keywords: string, content: string)
    ensures MatchAt(s) == Some((keywords, content)) <==> IsMarkerAt(s, keywords, content)
  {
    if IsMarkerAt(s, keywords, content) {
      MatchAtFinds(s, keywords, content);
    }
  }

  /** A marker span at the start is found with its own groups. */
  lemma MatchAtFinds(s: string, keywords: string, content: string)
    requires IsMarkerAt(s, keywords, content)
    ensures MatchAt(s) == Some((keywords, content))
  {
    var n := |MarkerText(keywords, content)|;
    var tail := s[n..];
    var afterKeywords := Delimiter + content + Delimiter + tail;
    assert s == Delimiter + keywords + afterKeywords;
    DelimitedTake(s, keywords, afterKeywords);
    var rest := s[3 + |keywords|..];
    assert rest == Delimiter + content + (Delimiter + tail);
    DelimitedTake(rest, content, Delimiter + tail);
  }

  /** After a delimiter, `[^¥]*` takes the span free of `¥` up to the next
      delimiter and leaves what follows the span. */
  lemma DelimitedTake(s: string, span: string, after: string)
    requires s == Delimiter + span + after && Yen !in span && Delimiter <= after
    ensures Delimiter <= s && TakeNonYen(s[3..]) == span && s[3 + |span|..] == after
  {
    assert s[3..] == span + after;
    TakeNonYenStops(span, after);
  }

  /** A piece of the scanned text: a character copied as it is, or a marker span. */
  datatype Piece = Plain(ch: char) | Marked(keywords: string, content: string)

  /** The left-to-right scan of `re.sub`: at each position either a match starts
      there and is consumed whole, or one character is copied and the scan moves
      one position on. */
  function Tokenize(s: string): (pieces: seq<Piece>)
    ensures forall p :: p in pieces && p.Marked? ==> |p.keywords| > 0 && Yen !in p.keywords && Yen !in p.content
    decreases |s|
  {
    if s == [] then []
    else
      match MatchAt(s)
      case Some((k, c)) => [Marked(k, c)] + Tokenize(s[|MarkerText(k, c)|..])
      case None => [Plain(s[0])] + Tokenize(s[1..])
  }

  /** The text the pieces were scanned from. */
  function Unparse(pieces: seq<Piece>): string {
    if pieces == [] then "" else PieceText(pieces[0]) + Unparse(pieces[1..])
  }

  /** The source text of one piece. */
  function PieceText(p: Piece): string {
    match p
    case Plain(ch) => [ch]
    case Marked(k, c) => MarkerText(k, c)
  }

  lemma UnparseCons(p: Piece, rest: seq<Piece>)
    ensures Unparse([p] + rest) == PieceText(p) + Unparse(rest)
  {
    var pieces := [p] + rest;
    assert pieces[0] == p && pieces[1..] == rest;
  }

  /** What one piece contributes to the `re.sub` output. */
  function RenderPiece(p: Piece): string {
    match p
    case Plain(ch) => [ch]
    case Marked(k, c) => Replacement(k, c)
  }

  /** The `re.sub` output: characters copied, marker spans replaced. */
  function Render(pieces: seq<Piece>): string {
    if pieces == [] then "" else RenderPiece(pieces[0]) + Render(pieces[1..])
  }

  /** Rendering distributes over concatenation of piece lists. */
  lemma {:induction false} RenderConcat(a: seq<Piece>, b: seq<Piece>)
    ensures Render(a + b) == Render(a) + Render(b)
    decreases |a|
  {
    if a != [] {
      var ab := a + b;
      var head := RenderPiece(a[0]);
      assert Render(ab) == head + Render(a[1..] + b) by {
        assert ab[0] == a[0] && ab[1..] == a[1..] + b;
      }
      RenderConcat(a[1..], b);
      ConsAssoc(head, Render(a[1..]), Render(b));
    } else {
      assert a + b == b;
    }
  }

  lemma ConsAssoc(head: string, x: string, y: string)
    ensures head + (x + y) == (head + x) + y
  {
  }

  /** The text with each marker span reduced to its content. */
  function Unmarked(pieces: seq<Piece>): string {
    if pieces == [] then "" else PieceContent(pieces[0]) + Unmarked(pieces[1..])
  }

  /** What a viewer should see of one piece: the character, or the span's content. */
  function PieceContent(p: Piece): string {
    match p
    case Plain(ch) => [ch]
    case Marked(k, c) => c
  }

  /** `process_srt_with_markers`: the result of the substitution. */
  function Substituted(srt: string): string {
    Render(Tokenize(srt))
  }

  /** `process_srt_with_markers`: `re.sub` finds the marker spans left to right,
      calls `replace_marker` on each and joins the results with the text between. */
  method ProcessSrtWithMarkers(srt: string) returns (out: string)
    ensures out == Substituted(srt)
  {
    var pieces := Tokenize(srt);
    out := RenderPieces(pieces);
  }

  /** The output loop of `re.sub`: each piece's text appended in turn. */
  method RenderPieces(pieces: seq<Piece>) returns (out: string)
    ensures out == Render(pieces)
  {
    out := "";
    for j := 0 to |pieces|
      invariant out == Render(pieces[..j])
    {
      var piece: string;
      match pieces[j] {
        case Plain(ch) =>
          piece := [ch];
        case Marked(k, c) =>
          piece := ReplaceMarker(k, c);
      }
      RenderStep(pieces, j);
      out := out + piece;
    }
    assert pieces[..|pieces|] == pieces;
  }

  /** Rendering one more piece appends what that piece renders to. */
  lemma RenderStep(pieces: seq<Piece>, j: nat)
    requires j < |pieces|
    ensures Render(pieces[..j + 1]) == Render(pieces[..j]) + RenderPiece(pieces[j])
  {
    var front, last := pieces[..j], [pieces[j]];
    assert pieces[..j + 1] == front + last;
    RenderConcat(front, last);
    assert Render(last) == RenderPiece(pieces[j]) + Render([]);
  }

  /** The scan loses nothing: the pieces spell out the scanned text again. */
  lemma {:induction false} TokenizeUnparse(s: string)
    ensures Unparse(Tokenize(s)) == s
    decreases |s|
  {
    if s != [] {
      var m := MatchAt(s);
      var p := if m.Some? then Marked(m.value.0, m.value.1) else Plain(s[0]);
      var n := |PieceText(p)|;
      assert PieceText(p) <= s;
      assert Tokenize(s) == [p] + Tokenize(s[n..]);
      TokenizeUnparse(s[n..]);
      UnparseCons(p, Tokenize(s[n..]));
      assert s == PieceText(p) + s[n..];
    }
  }

  /** The scan copies a character exactly where no marker span starts: the first
      piece is a marker span precisely when the text begins with one. */
  lemma FirstPiece(s: string)
    requires s != []
    ensures Tokenize(s)[0].Plain? <==> forall k, c :: !IsMarkerAt(s, k, c)
    ensures Tokenize(s)[0].Marked? ==> IsMarkerAt(s, Tokenize(s)[0].keywords, Tokenize(s)[0].content)
  {
    if Tokenize(s)[0].Plain? {
      forall k, c ensures !IsMarkerAt(s, k, c) {
        MatchAtIff(s, k, c);
      }
    }
  }

  /** Text that holds no `¥¥¥` comes out of the substitution unchanged. */
  lemma {:induction false} NoDelimiterUnchanged(s: string)
    requires !Contains(s, Delimiter)
    ensures Substituted(s) == s
    decreases |s|
  {
    if s != [] {
      ContainsSuffix(s, 1, Delimiter);
      NoDelimiterUnchanged(s[1..]);
    }
  }

  /** Text in which no marker span starts anywhere comes out of the
      substitution unchanged, whatever delimiters it holds. */
  lemma {:induction false} NoMatchUnchanged(s: string)
    requires forall i, k, c :: 0 <= i < |s| ==> !IsMarkerAt(s[i..], k, c)
    ensures Substituted(s) == s
    decreases |s|
  {
    if s != [] {
      var rest := s[1..];
      forall i, k, c | 0 <= i < |rest| ensures !IsMarkerAt(rest[i..], k, c) {
        assert rest[i..] == s[i + 1..];
      }
      NoMatchUnchanged(rest);
      assert s[0..] == s;
      NoMatchFirst(s);
    }
  }

  /** Where no span starts at the front, one character is copied and the scan
      goes on from the next. */
  lemma NoMatchFirst(s: string)
    requires s != [] && forall k, c :: !IsMarkerAt(s, k, c)
    ensures Substituted(s) == [s[0]] + Substituted(s[1..])
  {
    FirstPiece(s);
    var rest := Tokenize(s[1..]);
    assert Tokenize(s) == [Plain(s[0])] + rest;
    assert ([Plain(s[0])] + rest)[1..] == rest;
  }

  // ---------------------------------------------------------------- what a viewer sees

  /** The text a renderer shows: everything outside `{...}` override blocks.
      `inBlock` says whether an opened block is still waiting for its `}`. */
  function Visible(s: string, inBlock: bool): string
    decreases |s|
  {
    if s == [] then ""
    else if inBlock then Visible(s[1..], s[0] != '}')
    else if s[0] == '{' then Visible(s[1..], true)
    else [s[0]] + Visible(s[1..], false)
  }

  /** Whether a block is still open after reading `s`. */
  function OpenAfter(s: string, inBlock: bool): bool
    decreases |s|
  {
    if s == [] then inBlock
    else if inBlock then OpenAfter(s[1..], s[0] != '}')
    else OpenAfter(s[1..], s[0] == '{')
  }

  lemma {:induction false} VisibleConcat(a: string, b: string, inBlock: bool)
    ensures Visible(a + b, inBlock) == Visible(a, inBlock) + Visible(b, OpenAfter(a, inBlock))
    ensures OpenAfter(a + b, inBlock) == OpenAfter(b, OpenAfter(a, inBlock))
    decreases |a|
  {
    if a == [] {
      assert a + b == b;
    } else {
      assert (a + b)[1..] == a[1..] + b;
      assert (a + b)[0] == a[0];
      var next := if inBlock then a[0] != '}' else a[0] == '{';
      VisibleConcat(a[1..], b, next);
    }
  }

  /** Text without braces is shown as it is and opens no block. */
  lemma {:induction false} VisibleBraceFree(s: string)
    requires '{' !in s && '}' !in s
    ensures Visible(s, false) == s && !OpenAfter(s, false)
    decreases |s|
  {
    if s != [] {
      VisibleBraceFree(s[1..]);
    }
  }

  /** Inside a block, text without `}` is hidden and leaves the block open. */
  lemma {:induction false} HiddenInBlock(s: string)
    requires '}' !in s
    ensures Visible(s, true) == "" && OpenAfter(s, true)
    decreases |s|
  {
    if s != [] {
      HiddenInBlock(s[1..]);
    }
  }

  /** No override tag holds a brace. */
  lemma TagsBraceFree(style: Style)
    ensures forall i :: 0 <= i < |OverrideTags(style)| ==> '{' !in OverrideTags(style)[i] && '}' !in OverrideTags(style)[i]
  {
    var size := if style.fontSize != 24 then ["\\fs" + IntToString(style.fontSize)] else [];
    var colour := if style.colour != White then ColourTag(style.colour) else [];
    var flags := (if style.bold != 0 then ["\\b1"] else []) + (if style.italic != 0 then ["\\i1"] else []);
    assert OverrideTags(style) == size + colour + flags;
    NumberBraceFree(style.fontSize);
    assert forall t :: t in size ==> '{' !in t && '}' !in t;
    ColourTagBraceFree(style.colour);
    assert forall t :: t in flags ==> '{' !in t && '}' !in t;
  }

  lemma ColourTagBraceFree(colour: string)
    ensures forall t :: t in ColourTag(colour) ==> '{' !in t && '}' !in t
  {
  }

  /** A decimal number holds no brace. */
  lemma NumberBraceFree(n: int)
    ensures '{' !in IntToString(n) && '}' !in IntToString(n)
  {
    var digits := NatToString(if n < 0 then -n else n);
    assert '{' !in digits && '}' !in digits;
  }

  /** A marker span renders to exactly its content for a viewer, and leaves no
      block open: the tags hide inside braces and the reset tag is hidden too. */
  lemma VisibleReplacement(keywords: string, content: string)
    requires '{' !in content && '}' !in content
    ensures Visible(Replacement(keywords, content), false) == content
    ensures !OpenAfter(Replacement(keywords, content), false)
  {
    var tags := OverrideTags(ParseMarker(keywords));
    TagsBraceFree(ParseMarker(keywords));
    if |tags| > 0 {
      VisibleWrapped(tags, content);
    } else {
      VisibleBraceFree(content);
    }
  }

  /** Content wrapped in an override block of brace-free tags and the reset
      tag shows as the content alone. */
  lemma VisibleWrapped(tags: seq<string>, content: string)
    requires forall i :: 0 <= i < |tags| ==> '{' !in tags[i] && '}' !in tags[i]
    requires '{' !in content && '}' !in content
    ensures var wrapped := "{" + Join(tags, "") + "}" + content + ResetTag;
      Visible(wrapped, false) == content && !OpenAfter(wrapped, false)
  {
    var body := Join(tags, "");
    JoinAvoids(tags, "", '}');
    VisibleBraceFree(content);
    HiddenInBlock(body);
    BlockThen(body, content);
  }

  /** A block holding no closing brace, then content that shows as itself and
      leaves no block open, then the reset tag: only the content shows. */
  lemma BlockThen(body: string, content: string)
    requires Visible(body, true) == "" && OpenAfter(body, true)
    requires Visible(content, false) == content && !OpenAfter(content, false)
    ensures var wrapped := "{" + body + "}" + content + ResetTag;
      Visible(wrapped, false) == content && !OpenAfter(wrapped, false)
  {
    var open := "{" + body;
    assert Visible(open, false) == "" && OpenAfter(open, false) by {
      assert Visible("{", false) == "" && OpenAfter("{", false);
      VisibleConcat("{", body, false);
    }
    var closed := open + "}";
    assert Visible(closed, false) == "" && !OpenAfter(closed, false) by {
      assert Visible("}", true) == "" && !OpenAfter("}", true);
      VisibleConcat(open, "}", false);
    }
    var shown := closed + content;
    assert Visible(shown, false) == content && !OpenAfter(shown, false) by {
      VisibleConcat(closed, content, false);
    }
    assert Visible(ResetTag, false) == "" && !OpenAfter(ResetTag, false);
    VisibleConcat(shown, ResetTag, false);
  }

  /** For subtitle text without braces, the substitution changes nothing a viewer
      sees except that every marker span shows only its content. */
  lemma {:induction false} VisibleSubstituted(s: string)
    requires '{' !in s && '}' !in s
    ensures Visible(Substituted(s), false) == Unmarked(Tokenize(s))
    decreases |s|
  {
    if s != [] {
      var m := MatchAt(s);
      var p := if m.Some? then Marked(m.value.0, m.value.1) else Plain(s[0]);
      var n := |PieceText(p)|;
      var rest := s[n..];
      assert PieceText(p) <= s;
      assert Tokenize(s) == [p] + Tokenize(rest);
      VisibleSubstituted(rest);
      VisiblePiece(p, s);
      RenderConcat([p], Tokenize(rest));
      UnmarkedCons(p, Tokenize(rest));
      VisibleConcat(RenderPiece(p), Render(Tokenize(rest)), false);
    }
  }

  /** A piece scanned from brace-free text renders to what a viewer should see
      of it, and leaves no block open. */
  lemma VisiblePiece(p: Piece, s: string)
    requires PieceText(p) <= s && '{' !in s && '}' !in s
    ensures Visible(RenderPiece(p), false) == PieceContent(p)
    ensures !OpenAfter(RenderPiece(p), false)
    ensures Render([p]) == RenderPiece(p)
  {
    assert Render([p]) == RenderPiece(p) + Render([]);
    PrefixAvoids(PieceText(p), s, '{');
    PrefixAvoids(PieceText(p), s, '}');
    match p
    case Plain(ch) =>
      VisibleBraceFree([ch]);
    case Marked(k, c) =>
      VisibleReplacement(k, c);
  }

  lemma PrefixAvoids(t: string, s: string, ch: char)
    requires t <= s && ch !in s
    ensures ch !in t
  {
    assert forall i :: 0 <= i < |t| ==> t[i] == s[i];
  }

  lemma UnmarkedCons(p: Piece, rest: seq<Piece>)
    ensures Unmarked([p] + rest) == PieceContent(p) + Unmarked(rest)
  {
    var pieces := [p] + rest;
    assert pieces[0] == p && pieces[1..] == rest;
  }
}
