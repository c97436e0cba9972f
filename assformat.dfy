/**
  The Advanced SubStation Alpha (v4.00+) text both converters write: the script
  header with one `Default` style, and `Dialogue:` event lines.
 */
module AssFormat {
  import opened Text

  /** The field names of the `[V4+ Styles]` format line, in order. */
  const StyleFieldNames: seq<string> := [
    "Name", "Fontname", "Fontsize", "PrimaryColour", "SecondaryColour", "OutlineColour",
    "BackColour", "Bold", "Italic", "Underline", "StrikeOut", "ScaleX", "ScaleY", "Spacing",
    "Angle", "BorderStyle", "Outline", "Shadow", "Alignment", "MarginL", "MarginR", "MarginV",
    "Encoding"]

  /** The field names of the `[Events]` format line, in order. */
  const EventFieldNames: seq<string> :=
    ["Layer", "Start", "End", "Style", "Name", "MarginL", "MarginR", "MarginV", "Effect", "Text"]

  function FormatLine(names: seq<string>): string {
    "Format: " + Join(names, ", ")
  }

  /** An ASS boolean: `1` when set, `0` otherwise. */
  function Flag(b: bool): string {
    if b then "1" else "0"
  }

  /** The values of the `Default` style, one per style field: white text, a
      black outline and a half-transparent black back colour, bottom-centre
      alignment, side margins 30. */
  function StyleValues(font: string, size: string, bold: bool, italic: bool,
                       outline: string, marginV: string): seq<string>
  {
    ["Default", font, size, "&H00FFFFFF", "&H000000FF", "&H00000000", "&H80000000",
     Flag(bold), Flag(italic), "0", "0", "100", "100", "0", "0", "1", outline, "2", "2",
     "30", "30", marginV, "1"]
  }

  function StyleLine(font: string, size: string, bold: bool, italic: bool,
                     outline: string, marginV: string): string
  {
    "Style: " + Join(StyleValues(font, size, bold, italic, outline, marginV), ",")
  }

  /** The script header shared by both converters, titled and carrying one style line. */
  function ScriptHeader(title: string, styleLine: string): string {
    "[Script Info]\nTitle: " + title + "\nScriptType: v4.00+\nPlayResX: 1920\nPlayResY: 1080\n\n"
    + "[V4+ Styles]\n" + FormatLine(StyleFieldNames) + "\n" + styleLine + "\n\n"
    + "[Events]\n" + FormatLine(EventFieldNames) + "\n"
  }

  /** The fixed leading fields of every event: layer 0, the times, the
      `Default` style, no name, zero margins, no effect. */
  function EventFields(start: string, end: string): seq<string> {
    ["Dialogue: 0", start, end, "Default", "", "0", "0", "0", ""]
  }

  /** An event line: layer 0, the times, the `Default` style, no name, zero
      margins, no effect, then the text. */
  function DialogueLine(start: string, end: string, text: string): string {
    "Dialogue: 0," + start + "," + end + ",Default,,0,0,0,," + text
  }

  /** An event line is its fixed fields joined by commas, a comma, and the text. */
  lemma DialogueLineJoin(start: string, end: string, text: string)
    ensures DialogueLine(start, end, text) == Join(EventFields(start, end), ",") + "," + text
  {
    var fixedTail := "Default,,0,0,0,";
    assert Join(EventFields(start, end), ",") == "Dialogue: 0" + "," + (start + "," + (end + "," + fixedTail)) by {
      var tail := ["Default", "", "0", "0", "0", ""];
      assert EventFields(start, end) == ["Dialogue: 0"] + ([start] + ([end] + tail));
      assert Join(tail, ",") == fixedTail;
      JoinCons(end, tail, ",");
      JoinCons(start, [end] + tail, ",");
      JoinCons("Dialogue: 0", [start] + ([end] + tail), ",");
    }
    DialogueLineRegroup(start, end, text);
  }

  /** The event line's literal pieces, regrouped around its commas. */
  lemma DialogueLineRegroup(start: string, end: string, text: string)
    ensures DialogueLine(start, end, text)
         == "Dialogue: 0" + "," + (start + "," + (end + "," + "Default,,0,0,0,")) + "," + text
  {
    assert "Dialogue: 0" + "," == "Dialogue: 0,";
    assert "Default,,0,0,0," + "," == ",Default,,0,0,0,,"[1..];
  }

  /** Splitting at a character after a join of parts free of it gives the parts
      back, followed by the pieces of what comes after. */
  lemma {:induction false} SplitJoinThen(parts: seq<string>, c: char, rest: string)
    requires |parts| > 0 && forall k :: 0 <= k < |parts| ==> c !in parts[k]
    ensures Split(Join(parts, [c]) + [c] + rest, [c]) == parts + Split(rest, [c])
    decreases |parts|
  {
    if |parts| == 1 {
      CleanChar(parts[0], c);
      SplitCons(parts[0], rest, [c]);
    } else {
      SplitJoinThen(parts[1..], c, rest);
      SplitJoinStep(parts[0], parts[1..], c, rest);
      assert [parts[0]] + parts[1..] == parts;
    }
  }

  lemma SplitJoinStep(first: string, tail: seq<string>, c: char, rest: string)
    requires |tail| > 0 && c !in first
    requires Split(Join(tail, [c]) + [c] + rest, [c]) == tail + Split(rest, [c])
    ensures Split(Join([first] + tail, [c]) + [c] + rest, [c]) == [first] + tail + Split(rest, [c])
  {
    var joinedTail := Join(tail, [c]);
    var after := joinedTail + [c] + rest;
    var parts := tail + Split(rest, [c]);
    assert Join([first] + tail, [c]) + [c] + rest == first + [c] + after by {
      JoinCons(first, tail, [c]);
      Regroup(first, [c], joinedTail, rest);
    }
    SplitPrepend(first, c, after, parts);
    assert [first] + parts == [first] + tail + Split(rest, [c]);
  }

  /** A field free of the separator, put in front, is split off as one part. */
  lemma SplitPrepend(first: string, c: char, after: string, parts: seq<string>)
    requires c !in first && Split(after, [c]) == parts
    ensures Split(first + [c] + after, [c]) == [first] + parts
  {
    CleanChar(first, c);
    SplitCons(first, after, [c]);
  }

  lemma Regroup(a: string, sep: string, b: string, r: string)
    ensures a + sep + b + sep + r == a + sep + (b + sep + r)
  {
  }

  /** Reading a style line back at its commas gives one value per style field. */
  lemma StyleLineFields(font: string, size: string, bold: bool, italic: bool,
                        outline: string, marginV: string)
    requires ',' !in font && ',' !in size && ',' !in outline && ',' !in marginV
    ensures |StyleValues(font, size, bold, italic, outline, marginV)| == |StyleFieldNames|
    ensures Split(StyleLine(font, size, bold, italic, outline, marginV)[7..], ",")
            == StyleValues(font, size, bold, italic, outline, marginV)
  {
    var values := StyleValues(font, size, bold, italic, outline, marginV);
    var line := StyleLine(font, size, bold, italic, outline, marginV);
    assert line[7..] == Join(values, ",");
    assert Split(Join(values, ","), ",") == values by {
      StyleValuesCommaFree(font, size, bold, italic, outline, marginV);
      SplitJoinChar(values, ',');
    }
  }

  /** No style value holds a comma when the interpolated ones do not. */
  lemma StyleValuesCommaFree(font: string, size: string, bold: bool, italic: bool,
                             outline: string, marginV: string)
    requires ',' !in font && ',' !in size && ',' !in outline && ',' !in marginV
    ensures var values := StyleValues(font, size, bold, italic, outline, marginV);
      forall k :: 0 <= k < |values| ==> ',' !in values[k]
  {
    var values := StyleValues(font, size, bold, italic, outline, marginV);
    forall k | 0 <= k < |values| ensures ',' !in values[k] {
    }
  }

  /** Each interpolated value sits under the format field of the same position:
      the weight and slant flags under `Bold` and `Italic`, the outline width
      under `Outline` and the margin under `MarginV`. */
  lemma StyleValuePositions(font: string, size: string, bold: bool, italic: bool,
                            outline: string, marginV: string)
    ensures var values := StyleValues(font, size, bold, italic, outline, marginV);
      && StyleFieldNames[1] == "Fontname" && values[1] == font
      && StyleFieldNames[2] == "Fontsize" && values[2] == size
      && StyleFieldNames[7] == "Bold" && values[7] == (if bold then "1" else "0")
      && StyleFieldNames[8] == "Italic" && values[8] == (if italic then "1" else "0")
      && StyleFieldNames[16] == "Outline" && values[16] == outline
      && StyleFieldNames[21] == "MarginV" && values[21] == marginV
  {
  }

  /** A dialogue line read back at its commas: the nine fixed fields, then the
      text, which may itself hold commas and is everything after the ninth. */
  lemma DialogueLineFields(start: string, end: string, text: string)
    requires ',' !in start && ',' !in end
    ensures var fields := Split(DialogueLine(start, end, text), ",");
      && |fields| >= 10
      && fields[..9] == EventFields(start, end)
      && |EventFields(start, end)| + 1 == |EventFieldNames|
      && EventFieldNames[1] == "Start" && fields[1] == start
      && EventFieldNames[2] == "End" && fields[2] == end
      && Join(fields[9..], ",") == text
  {
    var fields := EventFields(start, end);
    DialogueLineJoin(start, end, text);
    SplitJoinThen(fields, ',', text);
    var all := Split(DialogueLine(start, end, text), ",");
    var textParts := Split(text, ",");
    assert all == fields + textParts;
    assert |fields| == 9;
    assert all[..9] == fields && all[9..] == textParts by {
      ConcatSlices(fields, textParts);
    }
    assert all[1] == fields[1] && all[2] == fields[2];
    JoinSplit(text, ",");
  }

  lemma ConcatSlices(a: seq<string>, b: seq<string>)
    ensures (a + b)[..|a|] == a && (a + b)[|a|..] == b
  {
  }

  /** A dialogue line holds a line break only where its times or text do. */
  lemma DialogueLineNoBreak(start: string, end: string, text: string)
    requires '\n' !in start && '\n' !in end && '\n' !in text
    ensures '\n' !in DialogueLine(start, end, text)
  {
  }
}
