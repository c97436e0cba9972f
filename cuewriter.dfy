/**
  The writers of the transcription tool: the sanitised base name of a video,
  the SubRip file written cue by cue, and the Advanced SubStation Alpha script
  grown one `Dialogue:` line per cue. Cue times arrive already formatted.
 */
module CueWriter {
  import opened Text
  import opened AssFormat

  /** A recognised speech segment, its times already written out in the
      target format. */
  datatype Cue = Cue(start: string, end: string, text: string)

  /** The longest base name kept. */
  const MaxSafeLength: nat := 50

  /** A character the sanitiser keeps: alphanumeric, as the given Unicode
      test says, or `-` or `_`. */
  predicate SafeChar(c: char, isAlnum: char -> bool) {
    isAlnum(c) || c == '-' || c == '_'
  }

  /** The characters of `s` the sanitiser keeps, in order. */
  function Filtered(s: string, isAlnum: char -> bool): (r: string)
    ensures |r| <= |s|
    ensures forall i :: 0 <= i < |r| ==> SafeChar(r[i], isAlnum)
  {
    if s == [] then []
    else (if SafeChar(s[0], isAlnum) then [s[0]] else []) + Filtered(s[1..], isAlnum)
  }

  /** The sanitised base name: the kept characters, cut to 50. */
  function SafeBaseName(baseName: string, isAlnum: char -> bool): string {
    var filtered := Filtered(baseName, isAlnum);
    if |filtered| <= MaxSafeLength then filtered else filtered[..MaxSafeLength]
  }

  /** The safe name is at most 50 characters long, all of them kept ones, and
      the longest such prefix of the filtered name. */
  lemma SafeBaseNameSpec(baseName: string, isAlnum: char -> bool)
    ensures var safe := SafeBaseName(baseName, isAlnum);
      var filtered := Filtered(baseName, isAlnum);
      && |safe| <= MaxSafeLength
      && (forall i :: 0 <= i < |safe| ==> SafeChar(safe[i], isAlnum))
      && safe <= filtered
      && (|safe| == MaxSafeLength || safe == filtered)
  {
  }

  /** Filtering distributes over concatenation, so the kept characters keep
      their relative order. */
  lemma {:induction false} FilteredConcat(a: string, b: string, isAlnum: char -> bool)
    ensures Filtered(a + b, isAlnum) == Filtered(a, isAlnum) + Filtered(b, isAlnum)
    decreases |a|
  {
    if a != [] {
      FilteredConcat(a[1..], b, isAlnum);
      assert (a + b)[0] == a[0];
      assert (a + b)[1..] == a[1..] + b;
      var head := if SafeChar(a[0], isAlnum) then [a[0]] else [];
      assert Filtered(a + b, isAlnum) == head + Filtered(a[1..] + b, isAlnum);
      assert Filtered(a, isAlnum) == head + Filtered(a[1..], isAlnum);
      assert head + (Filtered(a[1..], isAlnum) + Filtered(b, isAlnum))
          == (head + Filtered(a[1..], isAlnum)) + Filtered(b, isAlnum);
    } else {
      assert a + b == b;
    }
  }

  /** A name made only of kept characters passes the filter unchanged. */
  lemma {:induction false} FilteredKeeps(s: string, isAlnum: char -> bool)
    requires forall i :: 0 <= i < |s| ==> SafeChar(s[i], isAlnum)
    ensures Filtered(s, isAlnum) == s
    decreases |s|
  {
    if s != [] {
      FilteredKeeps(s[1..], isAlnum);
    }
  }

  /** Sanitising a sanitised name changes nothing. */
  lemma SafeBaseNameIdempotent(baseName: string, isAlnum: char -> bool)
    ensures SafeBaseName(SafeBaseName(baseName, isAlnum), isAlnum) == SafeBaseName(baseName, isAlnum)
  {
    var safe := SafeBaseName(baseName, isAlnum);
    SafeBaseNameSpec(baseName, isAlnum);
    FilteredKeeps(safe, isAlnum);
  }

  /** The first write of a block, `f"{i + 1}\n"`. */
  function IndexLine(i: nat): string {
    IntToString(i + 1) + "\n"
  }

  /** The second write, `f"{start_time} --> {end_time}\n"`. */
  function TimeLine(cue: Cue): string {
    cue.start + " --> " + cue.end + "\n"
  }

  /** The third write, the stripped text and a blank line. */
  function TextLine(cue: Cue): string {
    Strip(cue.text) + "\n\n"
  }

  /** The block of cue `i`. */
  function SrtBlock(i: nat, cue: Cue): string {
    IndexLine(i) + TimeLine(cue) + TextLine(cue)
  }

  /** The SubRip file for the cues: block `i` numbered `i + 1`, in cue order. */
  function SrtFile(cues: seq<Cue>): string {
    if cues == [] then ""
    else
      var n := |cues| - 1;
      SrtFile(cues[..n]) + SrtBlock(n, cues[n])
  }

  /** Three appends in a row append their concatenation. */
  lemma Append3(w: string, a: string, b: string, c: string)
    ensures w + a + b + c == w + (a + b + c)
  {
  }

  /** The SubRip writing loop: three writes per cue. */
  method WriteSrt(cues: seq<Cue>) returns (written: string)
    ensures written == SrtFile(cues)
  {
    written := "";
    for i := 0 to |cues|
      invariant written == SrtFile(cues[..i])
    {
      assert cues[..i + 1][..i] == cues[..i];
      Append3(written, IndexLine(i), TimeLine(cues[i]), TextLine(cues[i]));
      written := written + IndexLine(i);
      written := written + TimeLine(cues[i]);
      written := written + TextLine(cues[i]);
    }
    assert cues[..|cues|] == cues;
  }

  /** The style line of the transcription tool, from its options. */
  function CustomStyleLine(font: string, size: int, bold: bool, italic: bool,
                           outlineWidth: int, margin: int): string
  {
    StyleLine(font, IntToString(size), bold, italic, IntToString(outlineWidth), IntToString(margin))
  }

  /** The event line of one cue, its text stripped. */
  function CueDialogue(cue: Cue): string {
    DialogueLine(cue.start, cue.end, Strip(cue.text))
  }

  /** The event lines of the cues, in order. */
  function DialogueLines(cues: seq<Cue>): (lines: seq<string>)
    ensures |lines| == |cues|
  {
    if cues == [] then []
    else
      var n := |cues| - 1;
      DialogueLines(cues[..n]) + [CueDialogue(cues[n])]
  }

  /** Line `k` is the event line of cue `k`. */
  lemma {:induction false} DialogueLinesAt(cues: seq<Cue>, k: nat)
    requires k < |cues|
    ensures DialogueLines(cues)[k] == CueDialogue(cues[k])
    decreases |cues|
  {
    var n := |cues| - 1;
    var earlier := DialogueLines(cues[..n]);
    assert DialogueLines(cues) == earlier + [CueDialogue(cues[n])];
    assert |earlier| == n;
    if k < n {
      DialogueLinesAt(cues[..n], k);
      assert cues[..n][k] == cues[k];
      assert earlier[k] == CueDialogue(cues[k]);
      assert (earlier + [CueDialogue(cues[n])])[k] == earlier[k];
    } else {
      assert k == n;
    }
  }

  /** Lines each followed by a newline. */
  function Terminated(lines: seq<string>): string {
    if lines == [] then "" else lines[0] + "\n" + Terminated(lines[1..])
  }

  lemma {:induction false} TerminatedSnoc(lines: seq<string>, line: string)
    ensures Terminated(lines + [line]) == Terminated(lines) + line + "\n"
    decreases |lines|
  {
    if lines != [] {
      TerminatedSnoc(lines[1..], line);
      assert (lines + [line])[1..] == lines[1..] + [line];
    }
  }

  /** The script building loop: the header with the requested style, then
      one event line per cue appended with `+=`. */
  method BuildAss(safeName: string, font: string, size: int, bold: bool, italic: bool,
                  outlineWidth: int, margin: int, cues: seq<Cue>)
    returns (assContent: string)
    ensures assContent == ScriptHeader(safeName, CustomStyleLine(font, size, bold, italic, outlineWidth, margin))
                          + Terminated(DialogueLines(cues))
  {
    assContent := ScriptHeader(safeName, CustomStyleLine(font, size, bold, italic, outlineWidth, margin));
    assContent := AppendDialogues(assContent, cues);
  }

  /** The `+=` loop over the cues: each cue's event line and a newline. */
  method AppendDialogues(header: string, cues: seq<Cue>) returns (assContent: string)
    ensures assContent == header + Terminated(DialogueLines(cues))
  {
    assContent := header;
    for i := 0 to |cues|
      invariant assContent == header + Terminated(DialogueLines(cues[..i]))
    {
      var text := Strip(cues[i].text);
      var dialogueLine := DialogueLine(cues[i].start, cues[i].end, text);
      ghost var earlier := DialogueLines(cues[..i]);
      assert cues[..i + 1][..i] == cues[..i];
      assert DialogueLines(cues[..i + 1]) == earlier + [dialogueLine];
      TerminatedSnoc(earlier, dialogueLine);
      Append3(header, Terminated(earlier), dialogueLine, "\n");
      assContent := assContent + dialogueLine + "\n";
    }
    assert cues[..|cues|] == cues;
  }

  /** Reading the events back at their newlines gives one line per cue, in
      cue order, and an empty tail after the last newline. */
  lemma {:induction false} TerminatedLines(lines: seq<string>)
    requires forall k :: 0 <= k < |lines| ==> '\n' !in lines[k]
    ensures Split(Terminated(lines), "\n") == lines + [""]
    decreases |lines|
  {
    if lines == [] {
      SplitNone("", "\n");
    } else {
      var rest := Terminated(lines[1..]);
      TerminatedLines(lines[1..]);
      CleanChar(lines[0], '\n');
      SplitCons(lines[0], rest, "\n");
      assert Terminated(lines) == lines[0] + "\n" + rest;
      assert [lines[0]] + (lines[1..] + [""]) == lines + [""];
    }
  }

  /** The script holds exactly one event line per cue, in order, when no cue
      time or text holds a line break. */
  lemma OneEventPerCue(cues: seq<Cue>)
    requires forall k :: 0 <= k < |cues| ==>
      '\n' !in cues[k].start && '\n' !in cues[k].end && '\n' !in Strip(cues[k].text)
    ensures Split(Terminated(DialogueLines(cues)), "\n") == DialogueLines(cues) + [""]
  {
    var lines := DialogueLines(cues);
    forall k | 0 <= k < |lines| ensures '\n' !in lines[k] {
      DialogueLinesAt(cues, k);
      DialogueLineNoBreak(cues[k].start, cues[k].end, Strip(cues[k].text));
    }
    TerminatedLines(lines);
  }
}
