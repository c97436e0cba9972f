/**
  The style request of the SubRip-to-video tool: a colour name becomes an ASS
  colour, a position an alignment code, and the options a `force_style`
  string; the matching SubRip file is looked up by name and the output file
  is named after the style.
 */
module StyleRequest {
  import opened Results
  import opened Text
  import opened Colours
  import opened Paths
  import Markers

  /** The command-line options after parsing; the integer options are numbers,
      the others the strings given. */
  datatype StyleArgs = StyleArgs(
    size: int, color: string, bold: string, italic: string,
    outline: int, position: string, margin: int)

  /** The colour table of `color_to_hex`, already in `&HAABBGGRR` order. */
  const ColourCodes: map<string, string> := map[
    "white" := "&H00FFFFFF",
    "red" := "&H000000FF",
    "blue" := "&H00FF0000",
    "green" := "&H0000FF00",
    "yellow" := "&H0000FFFF",
    "black" := "&H00000000",
    "cyan" := "&H00FFFF00",
    "magenta" := "&H00FF00FF"]

  /** The value `color_to_hex` falls back to for an unknown name. */
  const UnknownColour: string := "0xFFFFFF"

  /** `color_to_hex`: a lookup of the lower-cased name. */
  function ColorToHex(name: string): string {
    var key := Lower(name);
    if key in ColourCodes then ColourCodes[key] else UnknownColour
  }

  /** Each code of the table is its colour's conventional RGB value with the
      channels reversed behind a zero alpha byte, and the table knows exactly
      the named colours. */
  lemma ColourCodesAreReversedRgb(key: string)
    ensures key in ColourCodes <==> NamedRgb(key).Some?
    ensures key in ColourCodes ==> ColourCodes[key] == AssColour(NamedRgb(key).value)
  {
    if key == "white" {
      assert AssColour("FFFFFF") == "&H00FFFFFF";
    } else if key == "red" {
      assert AssColour("FF0000") == "&H000000FF";
    } else if key == "blue" {
      assert AssColour("0000FF") == "&H00FF0000";
    } else if key == "green" {
      assert AssColour("00FF00") == "&H0000FF00";
    } else if key == "yellow" {
      assert AssColour("FFFF00") == "&H0000FFFF";
    } else if key == "black" {
      assert AssColour("000000") == "&H00000000";
    } else if key == "cyan" {
      assert AssColour("00FFFF") == "&H00FFFF00";
    } else if key == "magenta" {
      assert AssColour("FF00FF") == "&H00FF00FF";
    }
  }

  /** `color_to_hex` ignores case, knows the eight named colours and falls back
      to `0xFFFFFF` for any other name. */
  lemma ColorToHexSpec(name: string)
    ensures ColorToHex(name) == ColorToHex(Lower(name))
    ensures NamedRgb(Lower(name)).Some? ==> ColorToHex(name) == AssColour(NamedRgb(Lower(name)).value)
    ensures NamedRgb(Lower(name)).None? ==> ColorToHex(name) == UnknownColour
  {
    LowerIdempotent(name);
    ColourCodesAreReversedRgb(Lower(name));
  }

  /** The four marker colours agree with the command-line table: each is the
      code the table gives the same name, and its override tag carries that
      colour's channels in BBGGRR order. */
  lemma MarkerColoursAgree()
    ensures Markers.Red == ColourCodes["red"] && Markers.Blue == ColourCodes["blue"]
    ensures Markers.Green == ColourCodes["green"] && Markers.Yellow == ColourCodes["yellow"]
    ensures Markers.ColourTag(Markers.Red) == [ColourTagOf("FF0000")]
    ensures Markers.ColourTag(Markers.Blue) == [ColourTagOf("0000FF")]
    ensures Markers.ColourTag(Markers.Green) == [ColourTagOf("00FF00")]
    ensures Markers.ColourTag(Markers.Yellow) == [ColourTagOf("FFFF00")]
  {
    assert ReverseChannels("FF0000") == "0000FF";
    assert ReverseChannels("0000FF") == "FF0000";
    assert ReverseChannels("00FF00") == "00FF00";
    assert ReverseChannels("FFFF00") == "00FFFF";
    assert ColourTagOf("FF0000") == "\\c&H0000FF&";
    assert ColourTagOf("0000FF") == "\\c&HFF0000&";
    assert ColourTagOf("00FF00") == "\\c&H00FF00&";
    assert ColourTagOf("FFFF00") == "\\c&H00FFFF&";
  }

  /** The override tag `\c&HBBGGRR&` of an RRGGBB colour. */
  function ColourTagOf(rgb: string): string
    requires |rgb| == 6
  {
    "\\c&H" + ReverseChannels(rgb) + "&"
  }

  /** The alignment code: top-centre for `top`, middle-centre for `center`,
      bottom-centre for anything else. */
  function Alignment(position: string): (code: int)
    ensures code in {2, 5, 8}
    ensures code == 8 <==> position == "top"
    ensures code == 5 <==> position == "center"
  {
    if position == "top" then 8 else if position == "center" then 5 else 2
  }

  /** The `force_style` options in order, from their values as text; the
      weight and slant options only when requested. */
  function Options(size: string, colour: string, outline: string, alignment: string,
                   margin: string, bold: bool, italic: bool): seq<string>
  {
    [Option("FontSize", size),
     Option("PrimaryColour", colour),
     Option("OutlineColour", "0x000000"),
     Option("Outline", outline),
     Option("Alignment", alignment),
     Option("MarginV", margin)]
    + (if bold then [Option("Bold", "1")] else [])
    + (if italic then [Option("Italic", "1")] else [])
  }

  /** One `key=value` option. */
  function Option(key: string, value: string): string {
    key + "=" + value
  }

  /** The options of a request: the weight and slant options only for the
      exact argument `true`. */
  function StyleOptions(args: StyleArgs): seq<string> {
    Options(IntToString(args.size), ColorToHex(args.color), IntToString(args.outline),
            IntToString(Alignment(args.position)), IntToString(args.margin),
            args.bold == "true", args.italic == "true")
  }

  /** The style part of `merge_with_style`: `alignment` starts at 2 and is
      overwritten for `top` or `center`; the options list grows by the weight
      and slant options; the options are joined with commas. */
  method ForceStyle(args: StyleArgs) returns (forceStyle: string)
    ensures forceStyle == Join(StyleOptions(args), ",")
  {
    var colorHex := ColorToHex(args.color);
    var alignment := 2;
    if args.position == "top" {
      alignment := 8;
    } else if args.position == "center" {
      alignment := 5;
    }
    var options := [
      Option("FontSize", IntToString(args.size)),
      Option("PrimaryColour", colorHex),
      Option("OutlineColour", "0x000000"),
      Option("Outline", IntToString(args.outline)),
      Option("Alignment", IntToString(alignment)),
      Option("MarginV", IntToString(args.margin))];
    if args.bold == "true" {
      options := options + [Option("Bold", "1")];
    }
    if args.italic == "true" {
      options := options + [Option("Italic", "1")];
    }
    assert alignment == Alignment(args.position);
    assert options == StyleOptions(args);
    forceStyle := Join(options, ",");
  }

  /** The option names in `force_style` order. */
  function OptionKeys(bold: bool, italic: bool): seq<string> {
    ["FontSize", "PrimaryColour", "OutlineColour", "Outline", "Alignment", "MarginV"]
    + (if bold then ["Bold"] else [])
    + (if italic then ["Italic"] else [])
  }

  /** No option name holds `=` or `,`. */
  lemma OptionKeysPlain(bold: bool, italic: bool)
    ensures var keys := OptionKeys(bold, italic);
      forall k :: 0 <= k < |keys| ==> '=' !in keys[k] && ',' !in keys[k]
  {
    var keys := OptionKeys(bold, italic);
    forall k | 0 <= k < |keys| ensures '=' !in keys[k] && ',' !in keys[k] {
    }
  }

  /** The text before the first `=` of an option. */
  function Key(option: string): string {
    Split(option, "=")[0]
  }

  /** Reading `force_style` back at its commas gives the options, whose names
      are exactly the six fixed ones in order, then `Bold` and `Italic` when
      requested. */
  lemma ForceStyleOptions(args: StyleArgs)
    ensures Split(Join(StyleOptions(args), ","), ",") == StyleOptions(args)
    ensures var options := StyleOptions(args);
      var keys := OptionKeys(args.bold == "true", args.italic == "true");
      |options| == |keys| && forall k :: 0 <= k < |options| ==> Key(options[k]) == keys[k]
  {
    var size, colour, outline := IntToString(args.size), ColorToHex(args.color), IntToString(args.outline);
    var alignment, margin := IntToString(Alignment(args.position)), IntToString(args.margin);
    var bold, italic := args.bold == "true", args.italic == "true";
    IntToStringPlain(args.size);
    IntToStringPlain(args.outline);
    IntToStringPlain(Alignment(args.position));
    IntToStringPlain(args.margin);
    ColorToHexPlain(args.color);
    var options := Options(size, colour, outline, alignment, margin, bold, italic);
    forall k | 0 <= k < |options|
      ensures ',' !in options[k] && Key(options[k]) == OptionKeys(bold, italic)[k]
    {
      OptionShape(size, colour, outline, alignment, margin, bold, italic, k);
    }
    SplitJoinChar(options, ',');
  }

  /** The name of an option written as `key=value` is its key. */
  lemma KeyOf(key: string, value: string)
    requires '=' !in key
    ensures Key(Option(key, value)) == key
    ensures ',' !in key && ',' !in value ==> ',' !in Option(key, value)
  {
    CleanChar(key, '=');
    SplitCons(key, value, "=");
  }

  /** A decimal integer holds neither a comma nor an equals sign. */
  lemma IntToStringPlain(n: int)
    ensures ',' !in IntToString(n)
  {
    var digits := NatToString(if n < 0 then -n else n);
    assert forall i :: 0 <= i < |digits| ==> IsDigit(digits[i]);
  }

  lemma ColorToHexPlain(name: string)
    ensures ',' !in ColorToHex(name)
  {
  }

  lemma OptionShape(size: string, colour: string, outline: string, alignment: string,
                    margin: string, bold: bool, italic: bool, k: nat)
    requires ',' !in size && ',' !in colour && ',' !in outline
    requires ',' !in alignment && ',' !in margin
    requires k < |Options(size, colour, outline, alignment, margin, bold, italic)|
    ensures |OptionKeys(bold, italic)| == |Options(size, colour, outline, alignment, margin, bold, italic)|
    ensures ',' !in Options(size, colour, outline, alignment, margin, bold, italic)[k]
    ensures Key(Options(size, colour, outline, alignment, margin, bold, italic)[k])
            == OptionKeys(bold, italic)[k]
  {
    var keys := OptionKeys(bold, italic);
    var values := [size, colour, "0x000000", outline, alignment, margin]
                  + (if bold then ["1"] else []) + (if italic then ["1"] else []);
    assert Options(size, colour, outline, alignment, margin, bold, italic)[k] == Option(keys[k], values[k]);
    OptionKeysPlain(bold, italic);
    assert ',' !in values[k];
    KeyOf(keys[k], values[k]);
  }

  /** The name test of `find_matching_srt`: the SubRip file's stem equals the
      video name, contains it, or is contained in it. */
  predicate SrtMatches(videoName: string, srtFile: string) {
    var srtName := Stem(srtFile);
    videoName == srtName || Contains(srtName, videoName) || Contains(videoName, srtName)
  }

  /** `find_matching_srt`: the first SubRip file in list order whose name
      matches, or nothing when none does. */
  method FindMatchingSrt(videoName: string, srtFiles: seq<string>) returns (found: Option<string>)
    ensures found.None? <==> forall k :: 0 <= k < |srtFiles| ==> !SrtMatches(videoName, srtFiles[k])
    ensures found.Some? ==> exists k :: 0 <= k < |srtFiles| && srtFiles[k] == found.value
                              && SrtMatches(videoName, srtFiles[k])
                              && forall j :: 0 <= j < k ==> !SrtMatches(videoName, srtFiles[j])
  {
    for i := 0 to |srtFiles|
      invariant forall j :: 0 <= j < i ==> !SrtMatches(videoName, srtFiles[j])
    {
      if SrtMatches(videoName, srtFiles[i]) {
        found := Some(srtFiles[i]);
        assert srtFiles[i] == found.value;
        return;
      }
    }
    return None;
  }

  /** The weight and slant part of the style suffix: it starts with `_bold`
      exactly when the weight was requested and ends with `_italic` exactly
      when the slant was. */
  function FlagSuffix(bold: bool, italic: bool): (suffix: string)
    ensures |suffix| == (if bold then 5 else 0) + (if italic then 7 else 0)
    ensures bold <==> StartsWith(suffix, "_bold")
    ensures italic <==> EndsWith(suffix, "_italic")
  {
    var weight := if bold then "_bold" else "";
    var slant := if italic then "_italic" else "";
    assert (weight + slant)[..|weight|] == weight;
    assert !bold && italic ==> (weight + slant)[1] == 'i';
    weight + slant
  }

  /** The output path `merged_videos/{video}_s{size}_{color}[_bold][_italic]_styled.mp4`. */
  function StyledName(videoName: string, args: StyleArgs): string {
    "merged_videos/" + videoName + "_s" + IntToString(args.size) + "_" + args.color
    + FlagSuffix(args.bold == "true", args.italic == "true") + "_styled.mp4"
  }

  /** The style suffix grown by `+=` and the output path built from it. */
  method StyledOutputName(videoName: string, args: StyleArgs) returns (outputFile: string)
    ensures outputFile == StyledName(videoName, args)
  {
    var styleSuffix := "s" + IntToString(args.size) + "_" + args.color;
    if args.bold == "true" {
      styleSuffix := styleSuffix + "_bold";
    }
    if args.italic == "true" {
      styleSuffix := styleSuffix + "_italic";
    }
    outputFile := "merged_videos/" + videoName + "_" + styleSuffix + "_styled.mp4";
  }

  /** For one video, size and colour, the output name tells whether the
      weight and the slant were requested: the four variants never collide. */
  lemma StyledNameFlags(videoName: string, a: StyleArgs, b: StyleArgs)
    requires a.size == b.size && a.color == b.color
    requires StyledName(videoName, a) == StyledName(videoName, b)
    ensures (a.bold == "true") == (b.bold == "true")
    ensures (a.italic == "true") == (b.italic == "true")
  {
    var sa := FlagSuffix(a.bold == "true", a.italic == "true");
    var sb := FlagSuffix(b.bold == "true", b.italic == "true");
    assert |sa| == |sb|;
  }
}
