/**
  The transcription tool's SubRip file read back by the marker converter: for
  single-line cues, `srt_to_ass` recovers event lines carrying the SubRip
  times floored to hundredths, in cue order. These are the event lines the
  transcription tool writes into its own script wherever its two float
  conversions of a segment time agree on the hundredths.
 */
module Transcript {
  import opened Results
  import opened Text
  import opened Timecode
  import opened AssFormat
  import opened SrtToAss
  import opened CueWriter

  /** A segment time as the two writers compute it from one float number of
      seconds `x`: the fields of `seconds_to_srt_time`, whose milliseconds are
      `int((x % 1) * 1000)`, and the hundredths of `seconds_to_ass_time`,
      `int((x % 1) * 100)`. The two are rounded separately in floating point,
      so they are separate fields here. */
  datatype Instant = Instant(clock: Clock, centis: nat)

  /** A recognised segment: its start and end times and its text. */
  datatype Segment = Segment(start: Instant, end: Instant, text: string)

  /** The two conversions of a time agree: the hundredths are the milliseconds
      floored to hundredths. */
  predicate Agrees(t: Instant) {
    t.centis == t.clock.millis / 10
  }

  /** `seconds_to_ass_time`: hours unpadded, then minutes, seconds and the
      separately computed hundredths, each two digits. */
  function ToolAssTimestamp(t: Instant): string {
    IntToString(t.clock.hours) + ":" + FormatPadded(t.clock.minutes, 2) + ":"
    + FormatPadded(t.clock.seconds, 2) + "." + FormatPadded(t.centis, 2)
  }

  /** A segment whose stripped text is a single non-empty line. */
  predicate SingleLine(segment: Segment) {
    var text := Strip(segment.text);
    text != [] && '\n' !in text
  }

  /** The cue of a segment as written to the SubRip file. */
  function SrtCue(segment: Segment): Cue {
    Cue(SrtTimestamp(segment.start.clock), SrtTimestamp(segment.end.clock), segment.text)
  }

  /** The cue of a segment as written to the transcription tool's script. */
  function AssCue(segment: Segment): Cue {
    Cue(ToolAssTimestamp(segment.start), ToolAssTimestamp(segment.end), segment.text)
  }

  /** The cue of a segment as `srt_to_ass` reads it from the SubRip file: the
      SubRip times with their milliseconds floored to hundredths. */
  function ReadCue(segment: Segment): Cue {
    Cue(AssTimestamp(segment.start.clock), AssTimestamp(segment.end.clock), segment.text)
  }

  /** The cues written to the SubRip file. */
  function SrtCues(segments: seq<Segment>): (cues: seq<Cue>)
    ensures |cues| == |segments|
  {
    seq(|segments|, k requires 0 <= k < |segments| => SrtCue(segments[k]))
  }

  /** The cues written to the script. */
  function AssCues(segments: seq<Segment>): (cues: seq<Cue>)
    ensures |cues| == |segments|
  {
    seq(|segments|, k requires 0 <= k < |segments| => AssCue(segments[k]))
  }

  /** The cues read back from the SubRip file. */
  function ReadCues(segments: seq<Segment>): (cues: seq<Cue>)
    ensures |cues| == |segments|
  {
    seq(|segments|, k requires 0 <= k < |segments| => ReadCue(segments[k]))
  }

  /** The blocks of the SubRip file without their blank lines. */
  function Bodies(segments: seq<Segment>): (bodies: seq<string>)
    ensures |bodies| == |segments|
  {
    seq(|segments|, k requires 0 <= k < |segments| => Body(k, SrtCue(segments[k])))
  }

  /** The SubRip file the transcription tool writes, read back by `srt_to_ass`,
      gives a script whose events are the segments' event lines in order, each
      carrying the conversions of that segment's SubRip times. */
  lemma TranscriptRoundTrip(segments: seq<Segment>, title: string)
    requires forall k :: 0 <= k < |segments| ==> SingleLine(segments[k])
    ensures Document(SrtFile(SrtCues(segments)), title)
            == Ok(ScriptHeader(title, MarkerStyleLine()) + Join(DialogueLines(ReadCues(segments)), "\n"))
    ensures forall k :: 0 <= k < |segments| ==>
      && SrtTimeToAssTime(SrtCues(segments)[k].start) == Ok(ReadCues(segments)[k].start)
      && SrtTimeToAssTime(SrtCues(segments)[k].end) == Ok(ReadCues(segments)[k].end)
  {
    var srt := SrtFile(SrtCues(segments));
    var lines := DialogueLines(ReadCues(segments));
    if segments == [] {
      assert SrtCues(segments) == [];
      assert srt == "";
      EmptyBlocks();
      DocumentOf(srt, title, lines);
    } else {
      var bodies := Bodies(segments);
      WrittenBodies(segments);
      BlocksOfBodies(bodies);
      EventsOfSegments(segments);
      DocumentOf(srt, title, lines);
    }
    forall k | 0 <= k < |segments|
      ensures && SrtTimeToAssTime(SrtCues(segments)[k].start) == Ok(ReadCues(segments)[k].start)
              && SrtTimeToAssTime(SrtCues(segments)[k].end) == Ok(ReadCues(segments)[k].end)
    {
      ConvertSrtTimestamp(segments[k].start.clock);
      ConvertSrtTimestamp(segments[k].end.clock);
    }
  }

  /** Where the two conversions of every segment time agree, the converted
      SubRip file carries exactly the event lines the transcription tool writes
      into its own script, in segment order. */
  lemma AgreeingRoundTrip(segments: seq<Segment>, title: string)
    requires forall k :: 0 <= k < |segments| ==> SingleLine(segments[k])
    requires forall k :: 0 <= k < |segments| ==> Agrees(segments[k].start) && Agrees(segments[k].end)
    ensures Document(SrtFile(SrtCues(segments)), title)
            == Ok(ScriptHeader(title, MarkerStyleLine()) + Join(DialogueLines(AssCues(segments)), "\n"))
  {
    assert ReadCues(segments) == AssCues(segments) by {
      forall k | 0 <= k < |segments| ensures ReadCues(segments)[k] == AssCues(segments)[k] {
        StampsAgree(segments[k].start);
        StampsAgree(segments[k].end);
      }
    }
    TranscriptRoundTrip(segments, title);
  }

  /** The tool writes a time the way the read-back conversion does exactly
      when its two conversions agree. */
  lemma StampsAgree(t: Instant)
    ensures ToolAssTimestamp(t) == AssTimestamp(t.clock) <==> Agrees(t)
  {
    var c := t.clock;
    var front := IntToString(c.hours) + ":" + FormatPadded(c.minutes, 2) + ":" + FormatPadded(c.seconds, 2) + ".";
    var read, tool := FormatPadded(c.millis / 10, 2), FormatPadded(t.centis, 2);
    assert AssTimestamp(c) == front + read;
    assert ToolAssTimestamp(t) == front + tool;
    if !Agrees(t) {
      PaddedDiffer(c.millis / 10, t.centis, 2);
      assert (front + read)[|front|..] == read;
      assert (front + tool)[|front|..] == tool;
    }
  }

  /** A segment starting at 0.58 s: the SubRip file holds `00:00:00,580`, so
      `srt_to_ass` writes `.58`, while the transcription tool's own script,
      with `int(0.58 * 100) == 57` in floating point, writes `.57`. */
  lemma HundredthsDiverge()
    ensures var t := Instant(Clock(0, 0, 0, 580), 57);
      && !Agrees(t)
      && SrtTimeToAssTime(SrtTimestamp(t.clock)) == Ok(AssTimestamp(t.clock))
      && AssTimestamp(t.clock) != ToolAssTimestamp(t)
  {
    var t := Instant(Clock(0, 0, 0, 580), 57);
    ConvertSrtTimestamp(t.clock);
    StampsAgree(t);
  }

  /** Different numbers are written differently. */
  lemma PaddedDiffer(m: nat, n: nat, width: nat)
    requires m != n
    ensures FormatPadded(m, width) != FormatPadded(n, width)
  {
    ParsePadded(m, width);
    ParsePadded(n, width);
  }

  /** The SubRip file is the bodies of its blocks, each followed by a blank line. */
  lemma WrittenBodies(segments: seq<Segment>)
    requires |segments| > 0
    requires forall k :: 0 <= k < |segments| ==> SingleLine(segments[k])
    ensures SrtFile(SrtCues(segments)) == Join(Bodies(segments), "\n\n") + "\n\n"
    ensures forall k :: 0 <= k < |segments| ==> BodyShape(Bodies(segments)[k])
  {
    var cues, bodies := SrtCues(segments), Bodies(segments);
    forall k | 0 <= k < |segments|
      ensures SrtBlock(k, cues[k]) == bodies[k] + "\n\n" && BodyShape(bodies[k])
    {
      assert cues[k] == SrtCue(segments[k]);
      assert bodies[k] == Body(k, SrtCue(segments[k]));
      SegmentWritten(k, segments[k]);
    }
    SrtFileJoin(cues, bodies);
  }

  /** The blocks of the segments convert to the read-back event lines. */
  lemma EventsOfSegments(segments: seq<Segment>)
    requires forall k :: 0 <= k < |segments| ==> SingleLine(segments[k])
    ensures Collect(BlockResults(Bodies(segments))) == Ok(DialogueLines(ReadCues(segments)))
  {
    var bodies, lines := Bodies(segments), DialogueLines(ReadCues(segments));
    forall k | 0 <= k < |segments| ensures BlockEvent(bodies[k]) == Ok(Some(lines[k])) {
      DialogueLinesAt(ReadCues(segments), k);
      assert ReadCues(segments)[k] == ReadCue(segments[k]);
      assert bodies[k] == Body(k, SrtCue(segments[k]));
      SegmentEvent(k, segments[k]);
    }
    EventsOfBodies(bodies, lines);
  }

  /** A block body that splits back cleanly: non-empty, no blank line, and no
      space at either end. */
  predicate BodyShape(body: string) {
    NoBlankLine(body) && |body| > 0 && !IsSpace(body[0]) && !IsSpace(body[|body| - 1])
  }

  /** Blocks written as bodies without blank lines, each followed by a blank
      line, are read back as those bodies. */
  lemma BlocksOfBodies(bodies: seq<string>)
    requires |bodies| > 0
    requires forall k :: 0 <= k < |bodies| ==> BodyShape(bodies[k])
    ensures Blocks(Join(bodies, "\n\n") + "\n\n") == bodies
  {
    JoinedEnds(bodies);
    BodiesSplit(bodies);
    BlocksOfJoined(Join(bodies, "\n\n"), bodies);
  }

  /** Text closed by a blank line, with no space at either end, is cut into its
      own blank-line split. */
  lemma BlocksOfJoined(joined: string, bodies: seq<string>)
    requires |joined| > 0 && !IsSpace(joined[0]) && !IsSpace(joined[|joined| - 1])
    requires Split(joined, "\n\n") == bodies
    ensures Blocks(joined + "\n\n") == bodies
  {
    StripTrailing(joined, "\n\n");
  }

  /** Bodies without blank lines, joined by blank lines, split back into the bodies. */
  lemma BodiesSplit(bodies: seq<string>)
    requires |bodies| > 0
    requires forall k :: 0 <= k < |bodies| ==> BodyShape(bodies[k])
    ensures Split(Join(bodies, "\n\n"), "\n\n") == bodies
  {
    forall k | 0 <= k < |bodies| ensures Clean(bodies[k], "\n\n") && !Contains(bodies[k], "\n\n") {
      assert BodyShape(bodies[k]);
      NoBlankLineClean(bodies[k]);
    }
    assert CleanParts(bodies, "\n\n");
    SplitJoin(bodies, "\n\n");
  }

  /** The joined bodies start and end with no space. */
  lemma JoinedEnds(bodies: seq<string>)
    requires |bodies| > 0
    requires forall k :: 0 <= k < |bodies| ==> BodyShape(bodies[k])
    ensures var joined := Join(bodies, "\n\n");
      |joined| > 0 && !IsSpace(joined[0]) && !IsSpace(joined[|joined| - 1])
  {
    var joined := Join(bodies, "\n\n");
    var first, last := bodies[0], bodies[|bodies| - 1];
    assert BodyShape(first) && BodyShape(last);
    JoinEnds(bodies, "\n\n");
    assert joined[0] == first[0] && joined[|joined| - 1] == last[|last| - 1];
  }

  /** Blocks that each yield an event give those events, in order. */
  lemma EventsOfBodies(bodies: seq<string>, events: seq<string>)
    requires |bodies| == |events|
    requires forall k :: 0 <= k < |bodies| ==> BlockEvent(bodies[k]) == Ok(Some(events[k]))
    ensures Collect(BlockResults(bodies)) == Ok(events)
  {
    var results := BlockResults(bodies);
    CollectOk(results);
    ValuesAllSome(results, events);
  }

  /** An empty transcript converts to the bare header. */
  lemma EmptyTranscript(title: string)
    ensures Document("", title) == Ok(ScriptHeader(title, MarkerStyleLine()))
  {
    var none: seq<string> := [];
    EmptyBlocks();
    DocumentOf("", title, none);
    assert Join(none, "\n") == "";
    AppendNothing(ScriptHeader(title, MarkerStyleLine()));
  }

  lemma AppendNothing(s: string)
    ensures s + "" == s
  {
  }

  /** The empty text is one empty block, which yields nothing. */
  lemma EmptyBlocks()
    ensures Collect(BlockResults(Blocks(""))) == Ok([])
  {
    StripUnchanged("");
    LacksFirst("", "\n\n");
    SplitNone("", "\n\n");
    LacksFirst("", "\n");
    SplitNone("", "\n");
    assert Blocks("") == [""];
    assert BlockEvent("") == Ok(None);
    var results := BlockResults([""]);
    assert results == [Ok(None)];
    CollectOk(results);
    assert results[..0] == [];
    assert Values(results) == Values(results[..0]) + [];
  }

  /** The text of a written block without its blank line: the index line, the
      time line and the text line. */
  function Body(i: nat, cue: Cue): string {
    Join([IntToString(i + 1), cue.start + Arrow + cue.end] + [Strip(cue.text)], "\n")
  }

  /** Every line break is followed by a character that is not one. */
  predicate NoBlankLine(s: string) {
    forall j :: 0 <= j < |s| && s[j] == '\n' ==> j + 1 < |s| && s[j + 1] != '\n'
  }

  /** Text with no blank line that does not end in a line break is not cut by
      a blank-line split, nor runs on into a following blank line. */
  lemma NoBlankLineClean(s: string)
    requires NoBlankLine(s) && (s == [] || s[|s| - 1] != '\n')
    ensures Clean(s, "\n\n") && !Contains(s, "\n\n")
  {
    var t := s + "\n\n";
    forall j | 0 <= j < |s| ensures !("\n\n" <= t[j..]) {
      assert t[j..][0] == t[j] == s[j];
      if s[j] == '\n' {
        assert t[j..][1] == t[j + 1] == s[j + 1];
      }
    }
    forall j | 0 <= j <= |s| ensures !("\n\n" <= s[j..]) {
      if j + 1 < |s| && s[j] == '\n' {
        assert s[j..][1] == s[j + 1];
      }
    }
  }

  /** Three non-empty lines without line breaks have no blank line. */
  lemma ThreeLines(a: string, b: string, c: string)
    requires |a| > 0 && |b| > 0 && |c| > 0
    requires '\n' !in a && '\n' !in b && '\n' !in c
    ensures Join([a, b] + [c], "\n") == a + "\n" + b + "\n" + c
    ensures NoBlankLine(Join([a, b] + [c], "\n"))
  {
    JoinCons(b, [c], "\n");
    assert [a, b] + [c] == [a] + [b, c];
    assert [b, c] == [b] + [c];
    JoinCons(a, [b, c], "\n");
    var s := a + "\n" + b + "\n" + c;
    forall j | 0 <= j < |s| ensures s[j] == '\n' ==> j + 1 < |s| && s[j + 1] != '\n' {
      if j < |a| {
        assert s[j] == a[j];
      } else if j == |a| {
        assert s[j + 1] == b[0];
      } else if j < |a| + 1 + |b| {
        assert s[j] == b[j - |a| - 1];
      } else if j == |a| + 1 + |b| {
        assert s[j + 1] == c[0];
      } else {
        assert s[j] == c[j - |a| - |b| - 2];
      }
    }
  }

  /** The block of one segment as written: its body and a blank line. */
  lemma SegmentWritten(k: nat, segment: Segment)
    requires SingleLine(segment)
    ensures SrtBlock(k, SrtCue(segment)) == Body(k, SrtCue(segment)) + "\n\n"
    ensures BodyShape(Body(k, SrtCue(segment)))
  {
    TimestampInBlock(segment.start.clock);
    TimestampInBlock(segment.end.clock);
    BodyLayout(k, SrtTimestamp(segment.start.clock), SrtTimestamp(segment.end.clock), Strip(segment.text));
  }

  /** The block of one segment yields the segment's read-back event line. */
  lemma SegmentEvent(k: nat, segment: Segment)
    requires SingleLine(segment)
    ensures BlockEvent(Body(k, SrtCue(segment))) == Ok(Some(CueDialogue(ReadCue(segment))))
  {
    var start, end := segment.start.clock, segment.end.clock;
    TimestampInBlock(start);
    TimestampInBlock(end);
    BodyEvent(k, SrtTimestamp(start), SrtTimestamp(end), Strip(segment.text),
              AssTimestamp(start), AssTimestamp(end));
  }

  /** The three writes of a cue's block are its three lines and a blank line,
      with no blank line among them. */
  lemma BodyLayout(k: nat, start: string, end: string, text: string)
    requires '\n' !in start && '\n' !in end && ' ' !in start && ' ' !in end
    requires text != [] && '\n' !in text && !IsSpace(text[|text| - 1])
    ensures var body := Join([IntToString(k + 1), start + Arrow + end] + [text], "\n");
      && IndexLine(k) + (start + " --> " + end + "\n") + (text + "\n\n") == body + "\n\n"
      && BodyShape(body)
  {
    var index := IntToString(k + 1);
    assert index == NatToString(k + 1);
    ArrowSplit(start, end);
    ThreeLines(index, start + Arrow + end, text);
    var body := index + "\n" + (start + Arrow + end) + "\n" + text;
    assert body[0] == index[0];
    assert body[|body| - 1] == text[|text| - 1];
  }

  /** A block number is non-empty digits: no space, no line break. */
  lemma IndexLineStart(k: nat)
    ensures var index := IntToString(k + 1);
      |index| > 0 && !IsSpace(index[0]) && '\n' !in index && ' ' !in index
  {
    var index := NatToString(k + 1);
    assert IsDigit(index[0]);
    assert forall j :: 0 <= j < |index| ==> IsDigit(index[j]);
  }

  /** The block of a cue whose times convert yields the cue's event. */
  lemma BodyEvent(k: nat, start: string, end: string, text: string, assStart: string, assEnd: string)
    requires ' ' !in start && ' ' !in end && '\n' !in start && '\n' !in end
    requires Strip(start) == start && Strip(end) == end
    requires SrtTimeToAssTime(start) == Ok(assStart) && SrtTimeToAssTime(end) == Ok(assEnd)
    requires text != [] && '\n' !in text && !IsSpace(text[|text| - 1])
    ensures BlockEvent(Join([IntToString(k + 1), start + Arrow + end] + [text], "\n"))
            == Ok(Some(DialogueLine(assStart, assEnd, text)))
  {
    var index := IntToString(k + 1);
    IndexLineStart(k);
    SingleLineCue(index, start, end, text, assStart, assEnd);
  }

  /** A SubRip file whose blocks are bodies followed by blank lines is the
      bodies joined by blank lines, and one more blank line. */
  lemma {:induction false} SrtFileJoin(cues: seq<Cue>, bodies: seq<string>)
    requires |cues| == |bodies| > 0
    requires forall k :: 0 <= k < |cues| ==> SrtBlock(k, cues[k]) == bodies[k] + "\n\n"
    ensures SrtFile(cues) == Join(bodies, "\n\n") + "\n\n"
    decreases |cues|
  {
    var n := |cues| - 1;
    var front, block := SrtFile(cues[..n]), SrtBlock(n, cues[n]);
    assert SrtFile(cues) == front + block;
    assert block == bodies[n] + "\n\n";
    if n == 0 {
      assert cues[..n] == [];
      assert front == "";
      assert Join(bodies, "\n\n") == bodies[0];
      assert "" + block == block;
    } else {
      forall k | 0 <= k < n ensures SrtBlock(k, cues[..n][k]) == bodies[..n][k] + "\n\n" {
        assert cues[..n][k] == cues[k];
        assert bodies[..n][k] == bodies[k];
      }
      SrtFileJoin(cues[..n], bodies[..n]);
      JoinNext(bodies);
    }
  }

  /** The blocks before the last, joined and closed, and the last block. */
  lemma JoinNext(bodies: seq<string>)
    requires |bodies| > 1
    ensures var n := |bodies| - 1;
      Join(bodies[..n], "\n\n") + "\n\n" + (bodies[n] + "\n\n") == Join(bodies, "\n\n") + "\n\n"
  {
    var n := |bodies| - 1;
    JoinSnoc(bodies[..n], bodies[n], "\n\n");
    LastSplit(bodies);
    AppendBlock(Join(bodies[..n], "\n\n"), bodies[n]);
  }

  lemma LastSplit(xs: seq<string>)
    requires |xs| > 0
    ensures xs[..|xs| - 1] + [xs[|xs| - 1]] == xs
  {
  }

  lemma AppendBlock(front: string, body: string)
    ensures front + "\n\n" + (body + "\n\n") == front + "\n\n" + body + "\n\n"
  {
  }

  /** Joining one more part adds the separator and the part at the end. */
  lemma {:induction false} JoinSnoc(parts: seq<string>, last: string, sep: string)
    requires |parts| > 0
    ensures Join(parts + [last], sep) == Join(parts, sep) + sep + last
    decreases |parts|
  {
    if |parts| == 1 {
      JoinCons(parts[0], [last], sep);
      assert parts + [last] == [parts[0]] + [last];
    } else {
      JoinSnoc(parts[1..], last, sep);
      JoinCons(parts[0], parts[1..] + [last], sep);
      JoinCons(parts[0], parts[1..], sep);
      assert parts + [last] == [parts[0]] + (parts[1..] + [last]);
      assert parts == [parts[0]] + parts[1..];
    }
  }

  /** Results that all carry an event give exactly those events. */
  lemma {:induction false} ValuesAllSome(results: seq<Result<Option<string>>>, events: seq<string>)
    requires |results| == |events|
    requires forall k :: 0 <= k < |results| ==> results[k] == Ok(Some(events[k]))
    ensures Values(results) == events
    decreases |results|
  {
    if results != [] {
      var n := |results| - 1;
      ValuesAllSome(results[..n], events[..n]);
      assert events[..n] + [events[n]] == events;
    }
  }
}
