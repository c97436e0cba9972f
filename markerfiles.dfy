/**
  The per-file step of the marker converter's directory pass: which SubRip files
  are converted, the title and the output name each gets, and the script
  written for it. Listing, reading and writing files are left to the caller:
  the directory arrives as a list of (name, content) pairs.
 */
module MarkerFiles {
  import opened Results
  import opened Text
  import opened Paths
  import opened Markers
  import opened SrtToAss

  const EditableTag: string := "_editable"
  const EditableSuffix: string := "_editable.srt"
  const MarkersSuffix: string := "_markers.ass"

  /** The script title: the file name without its extension, every
      `_editable` removed. */
  function VideoName(filename: string): string {
    Replace(Root(filename), EditableTag, "")
  }

  /** The output name: an `_editable.srt` ending becomes `_markers.ass`,
      otherwise `_markers.ass` follows the name without its extension. */
  function AssFileName(filename: string): string {
    if EndsWith(filename, EditableSuffix) then Replace(filename, EditableSuffix, MarkersSuffix)
    else Root(filename) + MarkersSuffix
  }

  /** What happens to one listed file. */
  datatype Outcome =
    | Ignored                                    // not a `.srt` file
    | Skipped                                    // holds no marker delimiter
    | Converted(assName: string, script: string)
    | Failed(error: Error)                       // the conversion raised

  /** The body of the directory loop for one file. */
  function FileOutcome(filename: string, content: string): Outcome {
    if !EndsWith(filename, ".srt") then Ignored
    else if !Contains(content, Delimiter) then Skipped
    else
      match Document(Substituted(content), VideoName(filename))
      case Ok(script) => Converted(AssFileName(filename), script)
      case Err(e) => Failed(e)
  }

  /** What an outcome writes: the converted file, or nothing. */
  function Emit(outcome: Outcome): seq<(string, string)> {
    if outcome.Converted? then [(outcome.assName, outcome.script)] else []
  }

  /** The files written, in listing order, by a directory pass whose body for
      one file is `step`. */
  function WrittenBy(files: seq<(string, string)>, step: (string, string) -> Outcome): seq<(string, string)> {
    if files == [] then []
    else
      var n := |files| - 1;
      WrittenBy(files[..n], step) + Emit(step(files[n].0, files[n].1))
  }

  /** The files written by the directory pass, in listing order. */
  function Written(files: seq<(string, string)>): seq<(string, string)> {
    WrittenBy(files, FileOutcome)
  }

  /** `process_markers_in_directory` without the file system: each `.srt` file
      with a marker is rewritten, converted and written under its new name;
      a failing file is reported and skipped; `processed_count` counts the
      files written. */
  method ProcessDirectory(files: seq<(string, string)>) returns (written: seq<(string, string)>, count: nat)
    ensures written == Written(files)
    ensures count == |written|
  {
    written := [];
    count := 0;
    for i := 0 to |files|
      invariant written == Written(files[..i]) && count == |written|
    {
      var (filename, content) := files[i];
      var outcome := ConvertFile(filename, content);
      WrittenStep(files, i);
      assert Emit(outcome) == if outcome.Converted? then [(outcome.assName, outcome.script)] else [];
      if outcome.Converted? {
        written := written + [(outcome.assName, outcome.script)];
        count := count + 1;
      }
    }
    assert files[..|files|] == files;
  }

  /** One file of the directory pass: a `.srt` file with a marker is rewritten
      by the marker scan and converted, under its title and output name. */
  method ConvertFile(filename: string, content: string) returns (outcome: Outcome)
    ensures outcome == FileOutcome(filename, content)
  {
    if !EndsWith(filename, ".srt") {
      return Ignored;
    }
    if !Contains(content, Delimiter) {
      return Skipped;
    }
    var processed := ProcessSrtWithMarkers(content);
    var videoName := VideoName(filename);
    var script := ConvertSrtToAss(processed, videoName);
    if script.Ok? {
      outcome := Converted(AssFileName(filename), script.value);
    } else {
      outcome := Failed(script.error);
    }
  }

  /** One more listed file adds what its outcome writes. */
  lemma WrittenStep(files: seq<(string, string)>, i: nat)
    requires i < |files|
    ensures Written(files[..i + 1]) == Written(files[..i]) + Emit(FileOutcome(files[i].0, files[i].1))
  {
    StepWrites(files, FileOutcome, i);
  }

  lemma StepWrites(files: seq<(string, string)>, step: (string, string) -> Outcome, i: nat)
    requires i < |files|
    ensures WrittenBy(files[..i + 1], step) == WrittenBy(files[..i], step) + Emit(step(files[i].0, files[i].1))
  {
    assert files[..i + 1][..i] == files[..i];
  }

  // ---------------------------------------------------------------- properties

  /** An `_editable.srt` file is converted under the same stem with
      `_markers.ass`, and its script is titled with the bare stem, provided the
      stem holds no earlier `_editable`. */
  lemma EditableNames(stem: string)
    requires Clean(stem, EditableTag) && Clean(stem, EditableSuffix)
    ensures AssFileName(stem + EditableSuffix) == stem + MarkersSuffix
    ensures VideoName(stem + EditableSuffix) == stem
  {
    EditableOutputName(stem);
    EditableTitle(stem);
  }

  lemma EditableOutputName(stem: string)
    requires Clean(stem, EditableSuffix)
    ensures AssFileName(stem + EditableSuffix) == stem + MarkersSuffix
  {
    var filename := stem + EditableSuffix;
    assert EndsWith(filename, EditableSuffix);
    SplitCons(stem, "", EditableSuffix);
    assert filename == stem + EditableSuffix + "";
    SplitNone("", EditableSuffix);
    assert Join([stem, ""], MarkersSuffix) == stem + MarkersSuffix;
  }

  lemma EditableTitle(stem: string)
    requires Clean(stem, EditableTag)
    ensures VideoName(stem + EditableSuffix) == stem
  {
    var filename := stem + EditableSuffix;
    assert filename == (stem + EditableTag) + "." + "srt";
    SplitExtLast(stem + EditableTag, "srt");
    SplitCons(stem, "", EditableTag);
    assert stem + EditableTag == stem + EditableTag + "";
    SplitNone("", EditableTag);
    assert Join([stem, ""], "") == stem;
  }

  /** Any other listed `.srt` file keeps its stem and gains `_markers.ass`;
      only a stem of dots alone counts as a hidden name without extension. */
  lemma PlainNames(stem: string)
    requires '/' !in stem && exists k :: 0 <= k < |stem| && stem[k] != '.'
    requires !EndsWith(stem + ".srt", EditableSuffix)
    ensures AssFileName(stem + ".srt") == stem + MarkersSuffix
  {
    assert stem + ".srt" == stem + "." + "srt";
    SplitExtPlain(stem, "srt");
  }

  /** Files without the delimiter, and files that are not `.srt`, are never
      written; every written file comes from a converted one. */
  lemma WrittenFromConverted(files: seq<(string, string)>)
    ensures |Written(files)| <= |files|
    ensures forall w :: w in Written(files) ==>
      exists k :: 0 <= k < |files| && FileOutcome(files[k].0, files[k].1) == Converted(w.0, w.1)
  {
    WrittenFromStep(files, FileOutcome);
  }

  /** Whatever the per-file step, each written file is a converted outcome of
      a listed file, and at most one is written per file. */
  lemma {:induction false} WrittenFromStep(files: seq<(string, string)>, step: (string, string) -> Outcome)
    ensures |WrittenBy(files, step)| <= |files|
    ensures forall w :: w in WrittenBy(files, step) ==>
      exists k :: 0 <= k < |files| && step(files[k].0, files[k].1) == Converted(w.0, w.1)
    decreases |files|
  {
    if files != [] {
      var n := |files| - 1;
      WrittenFromStep(files[..n], step);
      forall w | w in WrittenBy(files, step)
        ensures exists k :: 0 <= k < |files| && step(files[k].0, files[k].1) == Converted(w.0, w.1)
      {
        if w in WrittenBy(files[..n], step) {
          var k :| 0 <= k < n && step(files[..n][k].0, files[..n][k].1) == Converted(w.0, w.1);
          assert files[..n][k] == files[k];
        } else {
          assert step(files[n].0, files[n].1) == Converted(w.0, w.1);
        }
      }
    }
  }

  /** A listed `.srt` file holding `¥¥¥` whose substituted content converts is
      written under its output name, with that script. */
  lemma ConvertedIsWritten(files: seq<(string, string)>, k: nat)
    requires k < |files| && EndsWith(files[k].0, ".srt") && Contains(files[k].1, Delimiter)
    ensures var script := Document(Substituted(files[k].1), VideoName(files[k].0));
      script.Ok? ==> (AssFileName(files[k].0), script.value) in Written(files)
  {
    var script := Document(Substituted(files[k].1), VideoName(files[k].0));
    if script.Ok? {
      ConvertedOutcome(files[k].0, files[k].1, script.value);
      StepWritten(files, FileOutcome, k);
    }
  }

  lemma ConvertedOutcome(filename: string, content: string, script: string)
    requires EndsWith(filename, ".srt") && Contains(content, Delimiter)
    requires Document(Substituted(content), VideoName(filename)) == Ok(script)
    ensures FileOutcome(filename, content) == Converted(AssFileName(filename), script)
  {
  }

  /** Whatever the per-file step, every converted outcome of a listed file is
      written. */
  lemma {:induction false} StepWritten(files: seq<(string, string)>, step: (string, string) -> Outcome, k: nat)
    requires k < |files| && step(files[k].0, files[k].1).Converted?
    ensures (step(files[k].0, files[k].1).assName, step(files[k].0, files[k].1).script) in WrittenBy(files, step)
    decreases |files|
  {
    var n := |files| - 1;
    if k < n {
      assert files[..n][k] == files[k];
      StepWritten(files[..n], step, k);
    }
  }
}
