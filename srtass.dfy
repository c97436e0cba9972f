/**
  `srt_to_ass`: a SubRip document, already rewritten by the marker scan, becomes
  an Advanced SubStation Alpha script with one `Dialogue:` event per cue.
 */
module SrtToAss {
  import opened Results
  import opened Text
  import opened Timecode
  import opened AssFormat

  /** The style line of the marker converter: Noto Sans CJK JP at 24, regular
      and upright, outline 2, bottom margin 40. */
  function MarkerStyleLine(): string {
    StyleLine(MarkerFont, "24", false, false, "2", "40")
  }

  const MarkerFont: string := "Noto Sans CJK JP"

  const Arrow: string := " --> "

  /** The lines of one block, surrounding whitespace removed first. */
  function BlockLines(block: string): (lines: seq<string>) {
    Split(Strip(block), "\n")
  }

  /** A block yields an event when it has an index line, a time line holding
      the arrow, and at least one text line. */
  predicate Qualifies(block: string) {
    var lines := BlockLines(block);
    |lines| >= 3 && Contains(lines[1], Arrow)
  }

  /** One iteration of the block loop: `None` for a block that is skipped,
      the event line otherwise; the time line must split into exactly two
      timestamps, each of which must convert. */
  function BlockEvent(block: string): Result<Option<string>> {
    var lines := BlockLines(block);
    if |lines| < 3 || !Contains(lines[1], Arrow) then Ok(None)
    else
      var times := Split(lines[1], Arrow);
      if |times| != 2 then Err(Unpack(lines[1], Arrow, 2, |times|))
      else
        var start :- SrtTimeToAssTime(Strip(times[0]));
        var end :- SrtTimeToAssTime(Strip(times[1]));
        Ok(Some(DialogueLine(start, end, Join(lines[2..], " "))))
  }

  /** What each block yields under a per-block step, in input order. */
  function Outcomes(blocks: seq<string>, step: string -> Result<Option<string>>): seq<Result<Option<string>>> {
    seq(|blocks|, k requires 0 <= k < |blocks| => step(blocks[k]))
  }

  /** What each block yields, in input order. */
  function BlockResults(blocks: seq<string>): seq<Result<Option<string>>> {
    Outcomes(blocks, BlockEvent)
  }

  /** The `events` list the loop builds from the blocks' results: the first
      error ends it, a skipped block adds nothing, any other adds its event. */
  function Collect(results: seq<Result<Option<string>>>): Result<seq<string>> {
    if results == [] then Ok([])
    else
      var earlier :- Collect(results[..|results| - 1]);
      var event :- results[|results| - 1];
      Ok(earlier + (if event.Some? then [event.value] else []))
  }

  /** The blocks of a document: the stripped text cut at blank lines. */
  function Blocks(srt: string): seq<string> {
    Split(Strip(srt), "\n\n")
  }

  /** The script `srt_to_ass` returns: the header titled with the video name,
      then the events joined by newlines. */
  function Document(srt: string, title: string): Result<string> {
    var events :- Collect(BlockResults(Blocks(srt)));
    Ok(ScriptHeader(title, MarkerStyleLine()) + Join(events, "\n"))
  }

  /** `srt_to_ass`: the events of the blocks, then the script. */
  method ConvertSrtToAss(srt: string, title: string) returns (r: Result<string>)
    ensures r == Document(srt, title)
  {
    var collected := CollectEvents(Blocks(srt), BlockEvent);
    if collected.Err? {
      return Err(collected.error);
    }
    r := Ok(ScriptHeader(title, MarkerStyleLine()) + Join(collected.value, "\n"));
  }

  /** The block loop of `srt_to_ass` appending to `events`, with the loop body
      that turns one block into its result given as `step`; the first block that
      fails ends it with that block's error. */
  method CollectEvents(blocks: seq<string>, step: string -> Result<Option<string>>)
    returns (r: Result<seq<string>>)
    ensures r == Collect(Outcomes(blocks, step))
  {
    ghost var results := Outcomes(blocks, step);
    var events: seq<string> := [];
    for i := 0 to |blocks|
      invariant Collect(results[..i]) == Ok(events)
    {
      var event := step(blocks[i]);
      CollectStep(results, i, events);
      if event.Err? {
        CollectErrorPrefix(results, i + 1);
        return Err(event.error);
      }
      events := events + (if event.value.Some? then [event.value.value] else []);
    }
    assert results[..|blocks|] == results;
    r := Ok(events);
  }

  /** One more result: its error, or the events so far with its event if any. */
  lemma CollectStep(results: seq<Result<Option<string>>>, i: nat, events: seq<string>)
    requires i < |results| && Collect(results[..i]) == Ok(events)
    ensures results[i].Err? ==> Collect(results[..i + 1]) == Err(results[i].error)
    ensures results[i].Ok? ==>
      Collect(results[..i + 1]) == Ok(events + (if results[i].value.Some? then [results[i].value.value] else []))
  {
    assert results[..i + 1][..i] == results[..i];
  }

  /** Once a prefix of the results fails, the whole collection fails the same way. */
  lemma {:induction false} CollectErrorPrefix(results: seq<Result<Option<string>>>, n: nat)
    requires n <= |results| && Collect(results[..n]).Err?
    ensures Collect(results) == Collect(results[..n])
    decreases |results| - n
  {
    if n == |results| {
      assert results[..n] == results;
    } else {
      assert results[..n + 1][..n] == results[..n];
      CollectErrorPrefix(results, n + 1);
    }
  }

  // ---------------------------------------------------------------- properties

  /** A block is dropped without an event exactly when it has fewer than three
      lines or no arrow in its second line. */
  lemma BlockDropped(block: string)
    ensures BlockEvent(block) == Ok(None) <==> !Qualifies(block)
  {
  }

  /** The events of the results that carry one, in order. */
  function Values(results: seq<Result<Option<string>>>): seq<string> {
    if results == [] then []
    else
      var last := results[|results| - 1];
      Values(results[..|results| - 1]) + (if last.Ok? && last.value.Some? then [last.value.value] else [])
  }

  /** The collection succeeds exactly when no result is an error, and then it is
      the events in order. */
  lemma {:induction false} CollectOk(results: seq<Result<Option<string>>>)
    ensures Collect(results).Ok? <==> forall k :: 0 <= k < |results| ==> results[k].Ok?
    ensures Collect(results).Ok? ==> Collect(results).value == Values(results)
    decreases |results|
  {
    if results != [] {
      var front := results[..|results| - 1];
      CollectOk(front);
      assert forall k :: 0 <= k < |front| ==> front[k] == results[k];
    }
  }

  /** A failed collection reports the error of the first result that failed. */
  lemma {:induction false} CollectFirstError(results: seq<Result<Option<string>>>)
    requires Collect(results).Err?
    ensures exists k :: && 0 <= k < |results| && results[k].Err? && Collect(results).error == results[k].error
                        && (forall j :: 0 <= j < k ==> results[j].Ok?)
    decreases |results|
  {
    var n := |results| - 1;
    var front := results[..n];
    assert forall k :: 0 <= k < |front| ==> front[k] == results[k];
    if Collect(front).Err? {
      CollectFirstError(front);
      var k :| 0 <= k < |front| && front[k].Err? && Collect(front).error == front[k].error
        && forall j :: 0 <= j < k ==> front[j].Ok?;
      assert results[k] == front[k];
    } else {
      CollectOk(front);
      assert results[n].Err?;
    }
  }

  /** The blocks that yield an event, in input order. */
  function Qualifying(blocks: seq<string>): seq<string> {
    Select(blocks, seq(|blocks|, k requires 0 <= k < |blocks| => Qualifies(blocks[k])))
  }

  /** The elements whose flag is set, in order. */
  function Select<T>(xs: seq<T>, flags: seq<bool>): seq<T>
    requires |flags| == |xs|
  {
    if xs == [] then []
    else
      var n := |xs| - 1;
      Select(xs[..n], flags[..n]) + (if flags[n] then [xs[n]] else [])
  }

  /** When no block raises there is one event per qualifying block, in order,
      each the one its block yields. */
  lemma EventsOfQualifying(blocks: seq<string>)
    requires forall k :: 0 <= k < |blocks| ==> BlockEvent(blocks[k]).Ok?
    ensures var events := Values(BlockResults(blocks)); var kept := Qualifying(blocks);
      && |events| == |kept|
      && forall k :: 0 <= k < |kept| ==> BlockEvent(kept[k]) == Ok(Some(events[k]))
  {
    var results := BlockResults(blocks);
    var flags := seq(|blocks|, k requires 0 <= k < |blocks| => Qualifies(blocks[k]));
    forall k | 0 <= k < |blocks|
      ensures results[k].Ok? && (results[k].value.Some? <==> flags[k])
    {
      BlockDropped(blocks[k]);
    }
    ValuesSelected(blocks, results, flags);
    var events := Values(results);
    var kept := Qualifying(blocks);
    forall k | 0 <= k < |kept| ensures BlockEvent(kept[k]) == Ok(Some(events[k])) {
      var i :| 0 <= i < |blocks| && blocks[i] == kept[k] && results[i] == Ok(Some(events[k]));
    }
  }

  /** The event values line up with the selected blocks when each result has
      an event exactly where the block's flag is set. */
  lemma {:induction false} ValuesSelected(blocks: seq<string>, results: seq<Result<Option<string>>>,
                                          flags: seq<bool>)
    requires |results| == |blocks| == |flags|
    requires forall k :: 0 <= k < |blocks| ==> results[k].Ok? && (results[k].value.Some? <==> flags[k])
    ensures |Values(results)| == |Select(blocks, flags)|
    ensures forall k :: 0 <= k < |Select(blocks, flags)| ==>
      exists i :: 0 <= i < |blocks| && blocks[i] == Select(blocks, flags)[k] && results[i] == Ok(Some(Values(results)[k]))
    decreases |blocks|
  {
    if blocks != [] {
      var n := |blocks| - 1;
      var front, frontResults, frontFlags := blocks[..n], results[..n], flags[..n];
      ValuesSelected(front, frontResults, frontFlags);
      var events, kept := Values(results), Select(blocks, flags);
      var earlier, keptFront := Values(frontResults), Select(front, frontFlags);
      if flags[n] {
        assert events == earlier + [results[n].value.value];
        assert kept == keptFront + [blocks[n]];
      } else {
        assert events == earlier + [];
        assert kept == keptFront + [];
      }
      forall k | 0 <= k < |kept|
        ensures exists i :: 0 <= i < |blocks| && blocks[i] == kept[k] && results[i] == Ok(Some(events[k]))
      {
        if k < |keptFront| {
          var i :| 0 <= i < |front| && front[i] == keptFront[k] && frontResults[i] == Ok(Some(earlier[k]));
          assert blocks[i] == kept[k] && results[i] == Ok(Some(events[k]));
        } else {
          assert blocks[n] == kept[k] && results[n] == Ok(Some(events[k]));
        }
      }
    }
  }

  /** A time line that holds the arrow once splits into the text around it. */
  lemma ArrowSplit(a: string, b: string)
    requires ' ' !in a && ' ' !in b && '\n' !in a && '\n' !in b
    ensures '\n' !in a + Arrow + b
    ensures Contains(a + Arrow + b, Arrow)
    ensures Split(a + Arrow + b, Arrow) == [a, b]
  {
    var line := a + Arrow + b;
    assert line[|a|..][..|Arrow|] == Arrow;
    ContainsAt(line, Arrow, |a|);
    CleanLacksFirst(a, Arrow);
    SplitCons(a, b, Arrow);
    LacksFirst(b, Arrow);
    SplitNone(b, Arrow);
  }

  /** A cue block, an index line, a time line and one or more text lines, whose
      two timestamps need no stripping and convert, yields the event with the
      converted times and the text lines joined by spaces. */
  lemma {:induction false} CueBlock(index: string, start: string, end: string, texts: seq<string>,
                                    assStart: string, assEnd: string)
    requires |index| > 0 && !IsSpace(index[0]) && '\n' !in index
    requires ' ' !in start && ' ' !in end && '\n' !in start && '\n' !in end
    requires Strip(start) == start && Strip(end) == end
    requires SrtTimeToAssTime(start) == Ok(assStart) && SrtTimeToAssTime(end) == Ok(assEnd)
    requires |texts| > 0 && forall k :: 0 <= k < |texts| ==> '\n' !in texts[k]
    requires var last := texts[|texts| - 1]; |last| > 0 && !IsSpace(last[|last| - 1])
    ensures BlockEvent(Join([index, start + Arrow + end] + texts, "\n"))
            == Ok(Some(DialogueLine(assStart, assEnd, Join(texts, " "))))
  {
    ArrowSplit(start, end);
    BlockLinesOf(index, start + Arrow + end, texts);
  }

  /** A block's lines are the lines it was joined from, when the first starts
      and the last ends with a non-space and none holds a line break. */
  lemma BlockLinesOf(index: string, timeLine: string, texts: seq<string>)
    requires |index| > 0 && !IsSpace(index[0]) && '\n' !in index && '\n' !in timeLine
    requires |texts| > 0 && forall k :: 0 <= k < |texts| ==> '\n' !in texts[k]
    requires var last := texts[|texts| - 1]; |last| > 0 && !IsSpace(last[|last| - 1])
    ensures var lines := BlockLines(Join([index, timeLine] + texts, "\n"));
      |lines| >= 3 && lines[1] == timeLine && lines[2..] == texts
  {
    var lines := [index, timeLine] + texts;
    assert lines[2..] == texts;
    JoinEnds(lines, "\n");
    StripUnchanged(Join(lines, "\n"));
    SplitJoinChar(lines, '\n');
  }

  /** Well-formed SubRip timestamps take part in a cue block: no space, no line
      break, nothing to strip, and they convert. */
  lemma TimestampInBlock(t: Clock)
    ensures var s := SrtTimestamp(t);
      ' ' !in s && '\n' !in s && Strip(s) == s && SrtTimeToAssTime(s) == Ok(AssTimestamp(t))
  {
    var s := SrtTimestamp(t);
    assert ' ' !in s && '\n' !in s && Strip(s) == s by {
      SrtTimestampChars(t);
      TimestampShaped(s);
    }
    ConvertSrtTimestamp(t);
  }

  /** Text of digits and separators that starts and ends with a digit has no
      space or line break and nothing to strip. */
  lemma TimestampShaped(s: string)
    requires |s| > 0 && IsDigit(s[0]) && IsDigit(s[|s| - 1])
    requires forall i :: 0 <= i < |s| ==> IsDigit(s[i]) || s[i] == ':' || s[i] == ','
    ensures ' ' !in s && '\n' !in s && Strip(s) == s
  {
    StripUnchanged(s);
  }

  /** A cue block with a single text line yields the event with that text. */
  lemma SingleLineCue(index: string, start: string, end: string, text: string,
                      assStart: string, assEnd: string)
    requires |index| > 0 && !IsSpace(index[0]) && '\n' !in index
    requires ' ' !in start && ' ' !in end && '\n' !in start && '\n' !in end
    requires Strip(start) == start && Strip(end) == end
    requires SrtTimeToAssTime(start) == Ok(assStart) && SrtTimeToAssTime(end) == Ok(assEnd)
    requires |text| > 0 && '\n' !in text && !IsSpace(text[|text| - 1])
    ensures BlockEvent(Join([index, start + Arrow + end] + [text], "\n"))
            == Ok(Some(DialogueLine(assStart, assEnd, text)))
  {
    var texts := [text];
    assert texts[|texts| - 1] == text;
    CueBlock(index, start, end, texts, assStart, assEnd);
    assert Join(texts, " ") == text;
  }

  /** Once the blocks have given their events, the script is the header and
      the events on separate lines. */
  lemma DocumentOf(srt: string, title: string, events: seq<string>)
    requires Collect(BlockResults(Blocks(srt))) == Ok(events)
    ensures Document(srt, title) == Ok(ScriptHeader(title, MarkerStyleLine()) + Join(events, "\n"))
  {
  }
}
