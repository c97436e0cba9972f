# Marker-annotated subtitles to Advanced SubStation Alpha, in Dafny

This project models the string-processing core of a small subtitle tool chain
and proves properties of the model. The tool chain transcribes videos, lets an
author annotate the SubRip transcript with inline style markers
`¥¥¥keywords¥¥¥content¥¥¥`, converts the annotated transcript to an Advanced
SubStation Alpha (ASS, v4.00+) script, and burns styled subtitles into videos.

- `process_markers.py`:
  - the marker parser `parse_marker` (module `Markers`);
  - the marker rewriter `process_srt_with_markers` with `replace_marker`;
    `re.sub` is modelled as an explicit left-to-right scan (`Markers.Tokenize`);
  - the timecode converter `srt_time_to_ass_time` (`Timecode`);
  - the document assembler `srt_to_ass` (`SrtToAss`);
  - the per-file step of `process_markers_in_directory`, with its title and
    output-name rules (`MarkerFiles`).
- `srt_to_video.py`: `color_to_hex`, the alignment code, the `force_style`
  string, `find_matching_srt` and the styled output name (`StyleRequest`,
  with the colour byte order in `Colours`).
- `apply_subtitles.py`: `find_matching_subtitles` and the merged output name
  (`SubtitleMatch`), over `os.path.basename`/`splitext` (`Paths`).
- `video_to_text_with_custom_styles.py`: the safe base name, the SubRip writer
  loop, the ASS style line and the dialogue loop (`CueWriter`, with the shared
  ASS layout in `AssFormat`).

The Python `str` operations the code relies on are written out in `Text`:
`strip`, `lower`, `in`, `split`, `join`, `replace`, `str(int)`, `f"{n:0Wd}"`
and `int()`. Python's `ValueError`s from a failed unpack or `int()` become the
`Err` case of `Results.Result`. `Transcript` connects two files. A SubRip file
written by the transcription tool, read back by `srt_to_ass`, gives dialogue
lines carrying the SubRip times floored to hundredths. These are the lines the
transcription tool writes into its own script only where its two separate float
conversions of each segment time agree on the hundredths; at 0.58 s they do not.

The model follows the code in these points, where a reader might expect
otherwise:

- A marker span closes with the bare reset tag `{\r}`. The close tag does not
  restate the default size, colour, weight and slant.
- There is no numeric `sizeN` keyword. The marker colours are only red, blue,
  green and yellow.
- A keyword that is absent leaves the default (24, white, 0, 0) in place.
- A malformed timecode raises an error, which ends the conversion of that
  file. It is not replaced by a zero sentinel.
- Only `,` is accepted before the milliseconds.
- SubRip blocks with fewer than three lines, or with no ` --> ` in the second
  line, are dropped rather than emitted as empty events.

## Model

| member | source | states |
|---|---|---|
| Markers.ParseMarker | process_markers.py:9-46 | the resolved size is 18, 24 or 36, the colour one of white, red, blue, green, yellow in `&HAABBGGRR` form, weight and slant 0 or 1 |
| Markers.ParseMarkerDefaults | process_markers.py:12-44 | a marker resolves to the defaults (24, `&H00FFFFFF`, 0, 0) exactly when its lower-cased text holds none of the eight keywords |
| Markers.ParseMarkerSize | process_markers.py:23-27 | size is 36 iff `large` occurs, 18 iff `small` occurs without `large`, so `large` beats `small` |
| Markers.ParseMarkerColour | process_markers.py:29-37 | colour is red, blue, green or yellow iff that keyword occurs and no earlier one in the order red, blue, green, yellow does |
| Markers.ParseMarkerFlags | process_markers.py:39-44 | bold is 1 iff `bold` occurs, italic is 1 iff `italic` occurs, independently |
| Markers.ParseMarkerCaseInsensitive | process_markers.py:21 | a marker and its lower-cased form resolve to the same style |
| Markers.CollectTags | process_markers.py:61-81 | the tag list holds the size, colour, weight and slant tags in that order, one per field that differs from its default |
| Markers.ReplaceMarker | process_markers.py:54-89 | the replacement is the bare content when no tag applies, otherwise `{` + tags + `}` + content + `{\r}` |
| Markers.DefaultIffNoTags | process_markers.py:63-84 | among the styles a marker can resolve to, only the default style yields an empty tag list |
| Markers.TagsEmptyIffDefault | process_markers.py:84-89 | a span's tag list is empty exactly when its style is the default, and then the span is replaced by its bare content |
| Markers.TagsBraceFree | process_markers.py:63-81 | no override tag holds `{` or `}` |
| Markers.VisibleReplacement | process_markers.py:84-89 | a viewer sees exactly the span's content in its replacement, and no override block stays open after it |
| Markers.TakeNonYen | process_markers.py:52 | `[^¥]*` takes the longest `¥`-free prefix and stops at a `¥` |
| Markers.MatchAt | process_markers.py:52 | a match found at the start is a well-formed span: non-empty `¥`-free keywords, `¥`-free content, three delimiters |
| Markers.MatchAtIff | process_markers.py:52 | the pattern matches at the start with given groups exactly when the text begins with a well-formed span having them |
| Markers.Tokenize | process_markers.py:92 | every marker piece the scan produces has non-empty `¥`-free keywords and `¥`-free content |
| Markers.TokenizeUnparse | process_markers.py:92 | the scan loses nothing: its pieces spell the scanned text again |
| Markers.FirstPiece | process_markers.py:52-92 | the scan copies a character exactly where no marker span starts, and takes a whole span where one does |
| Markers.RenderConcat | process_markers.py:92 | the substitution output of consecutive piece lists is the concatenation of their outputs |
| Markers.RenderPieces | process_markers.py:92 | the output loop appends each piece's text in turn and yields the rendered pieces |
| Markers.ProcessSrtWithMarkers | process_markers.py:48-94 | `process_srt_with_markers` returns the scan rendered: text between matches copied, each match replaced |
| Markers.NoDelimiterUnchanged | process_markers.py:92-94 | text holding no `¥¥¥` comes out of the substitution unchanged |
| Markers.NoMatchUnchanged | process_markers.py:52-94 | text in which no marker span starts at any position comes out unchanged, even when it holds `¥¥¥` (as `¥¥¥a¥¥¥` does) |
| Markers.VisibleSubstituted | process_markers.py:48-94 | for brace-free subtitle text, a viewer sees the text with every marker span reduced to its content |
| Timecode.ConvertSrtTimestamp | process_markers.py:140-151 | a well-formed `HH:MM:SS,mmm` converts to `H:MM:SS.cc`: hours unpadded, minutes and seconds copied, milliseconds floored to two-digit hundredths |
| Timecode.TimestampShape | process_markers.py:145-146 | a timecode that does not hold exactly one `,`, or whose first half does not hold exactly two `:`, fails to convert |
| Timecode.SplitFields | process_markers.py:145-146 | the two unpacks find the hour, minute, second and millisecond fields of a timestamp |
| SrtToAss.ConvertSrtToAss | process_markers.py:96-138 | `srt_to_ass` returns the fixed header followed by the events joined with newlines, or the first error a block raises |
| SrtToAss.CollectEvents | process_markers.py:115-136 | the block loop, given the per-block step, appends each block's event in order, skips blocks that yield none, and stops at the first block that raises, with that error |
| SrtToAss.CollectErrorPrefix | process_markers.py:128-129 | once a block raises, the whole conversion fails with that error |
| SrtToAss.BlockDropped | process_markers.py:119-126 | a block gives no event exactly when it has fewer than three lines or no ` --> ` in its second line |
| SrtToAss.CollectOk | process_markers.py:115-138 | the conversion succeeds exactly when no block raises, and then the events are the blocks' events in input order |
| SrtToAss.CollectFirstError | process_markers.py:118-129 | a failed conversion reports the error of the first block that raised, all earlier blocks having succeeded |
| SrtToAss.EventsOfQualifying | process_markers.py:118-136 | with no error there is one event per qualifying block, in order, each the one that block yields |
| SrtToAss.ArrowSplit | process_markers.py:126-127 | a time line holding ` --> ` once between two space-free times unpacks into those two times |
| SrtToAss.CueBlock | process_markers.py:119-135 | an index line, a time line and text lines give `Dialogue: 0,start,end,Default,,0,0,0,,text` with the converted times and the text lines joined by a space |
| SrtToAss.SingleLineCue | process_markers.py:119-135 | a cue block with one text line gives the event carrying that line |
| SrtToAss.TimestampInBlock | process_markers.py:128-129 | a well-formed SubRip timestamp needs no stripping and converts to its ASS form |
| AssFormat.DialogueLineJoin | process_markers.py:135 | the event line is the nine fixed fields joined by commas, a comma, then the text |
| AssFormat.DialogueLineFields | process_markers.py:135 | read back at its commas, an event line gives the nine fixed fields with the times under `Start` and `End`, then the text |
| AssFormat.StyleLineFields | video_to_text_with_custom_styles.py:116 | read back at its commas, the style line gives one value per style field, 23 in all |
| AssFormat.StyleValuePositions | video_to_text_with_custom_styles.py:115-116 | font, size, the 1/0 weight and slant flags, outline width and margin sit under `Fontname`, `Fontsize`, `Bold`, `Italic`, `Outline` and `MarginV` |
| AssFormat.DialogueLineNoBreak | video_to_text_with_custom_styles.py:127 | an event line holds a line break only where its times or text do |
| MarkerFiles.ProcessDirectory | process_markers.py:163-207 | the directory pass writes, in listing order, one script per `.srt` file that holds `¥¥¥` and converts, and counts the files written |
| MarkerFiles.ConvertFile | process_markers.py:166-203 | one listed file is ignored unless it ends in `.srt`, skipped unless it holds `¥¥¥`, and otherwise rewritten, converted and written under its output name, or failed with the conversion's error |
| MarkerFiles.EditableNames | process_markers.py:188-196 | `X_editable.srt` is written as `X_markers.ass` and titled `X`, for every `X` without an earlier `_editable`, the empty stem (`_editable.srt`) included |
| MarkerFiles.PlainNames | process_markers.py:193-196 | any other `X.srt` whose stem is not dots alone is written as `X_markers.ass`, including stems ending in a dot such as `Vol.` |
| MarkerFiles.WrittenFromConverted | process_markers.py:166-203 | every written file comes from a listed `.srt` file with a marker that converted |
| MarkerFiles.ConvertedIsWritten | process_markers.py:166-203 | a listed `.srt` file holding `¥¥¥` whose substituted content converts is written under its output name with that script |
| StyleRequest.ColourCodesAreReversedRgb | srt_to_video.py:26-35 | the table knows exactly the eight named colours, and each code is `&H00` followed by that colour's RGB channels reversed |
| StyleRequest.ColorToHexSpec | srt_to_video.py:24-36 | `color_to_hex` ignores case, gives the reversed-channel code of a known name and `0xFFFFFF` for any other |
| StyleRequest.MarkerColoursAgree | srt_to_video.py:28-31 | the four marker colours are the table's codes for the same names, and their override tags carry the colours in BBGGRR order |
| StyleRequest.Alignment | srt_to_video.py:131-136 | the alignment code is 8 iff the position is `top`, 5 iff it is `center`, and 2 otherwise |
| StyleRequest.ForceStyle | srt_to_video.py:128-154 | `force_style` is the option list joined with commas |
| StyleRequest.ForceStyleOptions | srt_to_video.py:139-154 | read back at its commas, `force_style` gives options named FontSize, PrimaryColour, OutlineColour, Outline, Alignment, MarginV in order, then Bold and Italic only when the argument is `true` |
| StyleRequest.FindMatchingSrt | srt_to_video.py:112-122 | the result is the first file in list order whose stem equals, contains or is contained in the video name, and none exactly when no file matches |
| StyleRequest.StyledOutputName | srt_to_video.py:88-94 | the output path is `merged_videos/{video}_s{size}_{color}[_bold][_italic]_styled.mp4` |
| StyleRequest.StyledNameFlags | srt_to_video.py:88-94 | for one video, size and colour the four weight/slant variants get distinct output names |
| StyleRequest.FlagSuffix | srt_to_video.py:89-92 | the flag suffix starts with `_bold` exactly when bold is requested and ends with `_italic` exactly when italic is |
| SubtitleMatch.FindMatchingSubtitles | apply_subtitles.py:109-127 | the loop appends exactly the files that pass the `if`/`elif` chain, in list order |
| SubtitleMatch.MatchingSubsequence | apply_subtitles.py:111-127 | the result is the input's matching positions, picked out in increasing order |
| SubtitleMatch.MatchingCount | apply_subtitles.py:117-125 | a matching file occurs in the result as often as in the input, a non-matching one never, so the chain adds no file twice |
| SubtitleMatch.MatchingMembership | apply_subtitles.py:113-125 | a file is in the result iff it is in the input and matches, and a file whose stem is the video's stem is always included |
| SubtitleMatch.MergedNameStem | apply_subtitles.py:85 | the merged name's stem is `{videoBase}_{subtitleBase}_merged` |
| Paths.Basename | apply_subtitles.py:114 | the base name is the path's suffix that holds no `/` and is either the whole path or preceded by a `/` |
| Paths.SplitExtParts | apply_subtitles.py:115 | the root followed by the extension is the name, and the extension is empty or a dot then a dot-free tail |
| Text.ParsePadded | process_markers.py:149 | `int()` reads a zero-padded decimal back as its number |
| CueWriter.SafeBaseNameSpec | video_to_text_with_custom_styles.py:68 | the safe name has at most 50 characters, all alphanumeric, `-` or `_`, and is the longest such prefix of the filtered name |
| CueWriter.FilteredConcat | video_to_text_with_custom_styles.py:68 | the filter distributes over concatenation, so kept characters keep their order |
| CueWriter.SafeBaseNameIdempotent | video_to_text_with_custom_styles.py:68 | sanitising a safe name changes nothing |
| CueWriter.WriteSrt | video_to_text_with_custom_styles.py:89-97 | the file is, per segment in order, `i+1`, `start --> end`, the stripped text and a blank line |
| CueWriter.BuildAss | video_to_text_with_custom_styles.py:108-128 | the script is the header with the requested style line followed by one event line and newline per segment |
| CueWriter.AppendDialogues | video_to_text_with_custom_styles.py:122-128 | each `+=` appends the segment's event line and a newline, in segment order |
| CueWriter.DialogueLinesAt | video_to_text_with_custom_styles.py:122-127 | event line `k` carries segment `k`'s times and stripped text |
| CueWriter.TerminatedLines | video_to_text_with_custom_styles.py:128 | newline-terminated lines free of breaks read back as those lines |
| CueWriter.OneEventPerCue | video_to_text_with_custom_styles.py:122-128 | the script's events read back as exactly one line per segment, in order |
| Transcript.TranscriptRoundTrip | video_to_text_with_custom_styles.py:89-97 | the transcription tool's SubRip file, converted by `srt_to_ass`, gives one event per segment in order, whose times are the conversions of that segment's SubRip times |
| Transcript.AgreeingRoundTrip | video_to_text_with_custom_styles.py:89-128 | where both float conversions of every segment time agree on the hundredths, the converted SubRip file carries exactly the event lines the tool writes into its own script |
| Transcript.StampsAgree | video_to_text_with_custom_styles.py:149-163 | the tool's script and the read-back conversion write a time the same way exactly when its hundredths are its milliseconds floored |
| Transcript.HundredthsDiverge | video_to_text_with_custom_styles.py:154-162 | at 0.58 s (milliseconds 580, hundredths 57) `srt_to_ass` reads `.58` from the SubRip file while the tool's script has `.57` |
| Transcript.WrittenBodies | video_to_text_with_custom_styles.py:89-97 | the written SubRip file is its block bodies joined by blank lines, ending in a blank line |
| Transcript.SegmentWritten | video_to_text_with_custom_styles.py:95-97 | each written block is its three lines followed by a blank line |
| Transcript.EmptyTranscript | process_markers.py:116-138 | an empty SubRip file converts to the bare header |

## Left out

- Everything that runs ffmpeg or another process is not modelled: `merge_with_style`'s command, `merge_subtitle_with_ffmpeg`, return codes and timeouts. The same holds for `add_subtitles.py`, `add_subtitles_ass.py`, `add_subtitles_html.py` and `full_pipeline.py`.
- Whisper transcription is a foreign model call. Segments arrive as values (`CueWriter.Cue`, `Transcript.Segment`).
- `seconds_to_srt_time` and `seconds_to_ass_time` compute on floats. Cue times are opaque strings in `CueWriter`. In `Transcript` a segment time is the integer fields each function derives from the float: a `Clock` for the SubRip form and a separate hundredths field for the ASS form. Which floats give which integers is not modelled.
- File reading and writing, directory listing, `glob`, `os.makedirs`, file copies and removal are not modelled. So are `print`, `argparse` and `shlex`. `MarkerFiles.ProcessDirectory` takes the directory as a list of (name, content) pairs. `StyleRequest.StyleArgs` holds the parsed options.
- The `hash(...) % 10000` scratch names are not modelled: Python's string hash is randomised per process.
- `style_config.py` holds only constant tables that the core does not use.
- Text.Lower: lower-cases ASCII letters only. Python's `str.lower()` maps all of Unicode, and some non-ASCII capitals lower-case onto ASCII letters (KELVIN SIGN U+212A becomes `k`). No marker keyword holds a `k`, so `parse_marker` is unaffected.
- StyleRequest.ColorToHexSpec: a colour name spelled with U+212A, such as `BLAC` followed by KELVIN SIGN, is black's code in Python but `0xFFFFFF` here, because `Text.Lower` leaves it alone.
- CueWriter.SafeBaseName: `str.isalnum()` is a parameter `isAlnum`, because Python's Unicode category table is not modelled.
- Text.ParseInt: accepts ASCII digits only. Python's `int()` also accepts other Unicode decimal digits. Python 3.11 and later reject a decimal string of more than 4300 digits with `ValueError`; `ParseInt` accepts any length.
- Paths.SplitExt: uses the POSIX separator `/` only.
- SrtToAss.ConvertSrtToAss: models only the `ValueError`s of a failed unpack or `int()`. In the directory pass any exception skips the file (`MarkerFiles.Outcome.Failed`); I/O exceptions are not modelled.
- Transcript.TranscriptRoundTrip: does not promise the tool's own event lines. The SubRip milliseconds `int((x % 1) * 1000)` and the ASS hundredths `int((x % 1) * 100)` are rounded separately in floating point. At 0.58 s they are 580 and 57, so `srt_to_ass` writes `.58` where the tool's script has `.57` (`Transcript.HundredthsDiverge`). Equality with the tool's lines is stated under that agreement (`Transcript.AgreeingRoundTrip`).
- Transcript.TranscriptRoundTrip: requires every segment's stripped text to be a single non-empty line. A multi-line text comes back with its lines joined by spaces, and an empty one breaks the block layout that `srt_to_ass` reads.
- MarkerFiles.EditableNames: requires a stem without an earlier `_editable`. `str.replace` removes every occurrence, which `VideoName` models in general.
