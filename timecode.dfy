/**
  SubRip timestamps (`HH:MM:SS,mmm`) rewritten as Advanced SubStation Alpha
  timestamps (`H:MM:SS.cc`) by splitting and re-formatting the text.
 */
module Timecode {
  import opened Results
  import opened Text

  /** `srt_time_to_ass_time`: unpack at `,` into two parts and the first at `:`
      into three, convert the milliseconds and the hours with `int()`, keep the
      minutes and the seconds as written, and floor the milliseconds to
      hundredths. Each unpack or `int()` that Python would reject is an error. */
  function SrtTimeToAssTime(srtTime: string): Result<string> {
    var halves := Split(srtTime, ",");
    if |halves| != 2 then Err(Unpack(srtTime, ",", 2, |halves|))
    else
      var fields := Split(halves[0], ":");
      if |fields| != 3 then Err(Unpack(halves[0], ":", 3, |fields|))
      else
        match ParseInt(halves[1])
        case None => Err(NotAnInteger(halves[1]))
        case Some(ms) =>
          match ParseInt(fields[0])
          case None => Err(NotAnInteger(fields[0]))
          case Some(hours) =>
            Ok(IntToString(hours) + ":" + fields[1] + ":" + fields[2] + "." + FormatPadded(ms / 10, 2))
  }

  /** A time of day on a subtitle track, to the millisecond. */
  datatype Clock = Clock(hours: nat, minutes: nat, seconds: nat, millis: nat)

  /** The SubRip timestamp `HH:MM:SS,mmm` of a time, each field zero-padded. */
  function SrtTimestamp(t: Clock): string {
    FormatPadded(t.hours, 2) + ":" + FormatPadded(t.minutes, 2) + ":" + FormatPadded(t.seconds, 2)
    + "," + FormatPadded(t.millis, 3)
  }

  /** The Advanced SubStation Alpha timestamp `H:MM:SS.cc` of a time: hours
      unpadded, the milliseconds floored to hundredths. */
  function AssTimestamp(t: Clock): string {
    IntToString(t.hours) + ":" + FormatPadded(t.minutes, 2) + ":" + FormatPadded(t.seconds, 2)
    + "." + FormatPadded(t.millis / 10, 2)
  }

  /** A well-formed SubRip timestamp converts: the hours lose their leading
      zeros, minutes and seconds are copied, and the milliseconds are floored to
      hundredths. */
  lemma ConvertSrtTimestamp(t: Clock)
    ensures SrtTimeToAssTime(SrtTimestamp(t)) == Ok(AssTimestamp(t))
  {
    PaddedDigits(t.hours, 2);
    PaddedDigits(t.minutes, 2);
    PaddedDigits(t.seconds, 2);
    PaddedDigits(t.millis, 3);
    SplitFields(FormatPadded(t.hours, 2), FormatPadded(t.minutes, 2), FormatPadded(t.seconds, 2),
                FormatPadded(t.millis, 3));
    ParsePadded(t.millis, 3);
    ParsePadded(t.hours, 2);
  }

  /** The two unpacks of `srt_time_to_ass_time` find the fields of a timestamp
      whose fields hold neither separator. */
  lemma SplitFields(hh: string, mm: string, ss: string, mmm: string)
    requires ':' !in hh && ':' !in mm && ':' !in ss
    requires ',' !in hh && ',' !in mm && ',' !in ss && ',' !in mmm
    ensures Split(hh + ":" + mm + ":" + ss + "," + mmm, ",") == [hh + ":" + mm + ":" + ss, mmm]
    ensures Split(hh + ":" + mm + ":" + ss, ":") == [hh, mm, ss]
  {
    SplitThree(hh, mm, ss, ':');
    var clock := hh + ":" + mm + ":" + ss;
    assert ',' !in clock;
    SplitTwo(clock, mmm, ',');
  }

  /** A SubRip timestamp holds digits, `:` and `,` only, starting and ending
      with a digit. */
  lemma SrtTimestampChars(t: Clock)
    ensures var s := SrtTimestamp(t);
      && |s| > 0 && IsDigit(s[0]) && IsDigit(s[|s| - 1])
      && forall i :: 0 <= i < |s| ==> IsDigit(s[i]) || s[i] == ':' || s[i] == ','
  {
    var s := SrtTimestamp(t);
    PaddedDigits(t.hours, 2);
    PaddedDigits(t.minutes, 2);
    PaddedDigits(t.seconds, 2);
    PaddedDigits(t.millis, 3);
    var hh, mm, ss, mmm := FormatPadded(t.hours, 2), FormatPadded(t.minutes, 2),
                           FormatPadded(t.seconds, 2), FormatPadded(t.millis, 3);
    assert s == hh + ":" + mm + ":" + ss + "," + mmm;
    FieldsChars(hh, mm, ss, mmm);
  }

  /** Digit fields joined by `:`, `:` and `,` give text of digits and those
      separators, starting and ending with a digit. */
  lemma FieldsChars(hh: string, mm: string, ss: string, mmm: string)
    requires |hh| > 0 && |mmm| > 0
    requires forall i :: 0 <= i < |hh| ==> IsDigit(hh[i])
    requires forall i :: 0 <= i < |mm| ==> IsDigit(mm[i])
    requires forall i :: 0 <= i < |ss| ==> IsDigit(ss[i])
    requires forall i :: 0 <= i < |mmm| ==> IsDigit(mmm[i])
    ensures var s := hh + ":" + mm + ":" + ss + "," + mmm;
      && IsDigit(s[0]) && IsDigit(s[|s| - 1])
      && forall i :: 0 <= i < |s| ==> IsDigit(s[i]) || s[i] == ':' || s[i] == ','
  {
    var s := hh + ":" + mm + ":" + ss + "," + mmm;
    forall i | 0 <= i < |s| ensures IsDigit(s[i]) || s[i] == ':' || s[i] == ',' {
      if i < |hh| { assert s[i] == hh[i]; }
      else if i == |hh| { }
      else if i < |hh| + 1 + |mm| { assert s[i] == mm[i - |hh| - 1]; }
      else if i == |hh| + 1 + |mm| { }
      else if i < |hh| + 2 + |mm| + |ss| { assert s[i] == ss[i - |hh| - 2 - |mm|]; }
      else if i == |hh| + 2 + |mm| + |ss| { }
      else { assert s[i] == mmm[i - |hh| - 3 - |mm| - |ss|]; }
    }
    assert s[0] == hh[0];
    assert s[|s| - 1] == mmm[|mmm| - 1];
  }

  /** A timestamp that converts has exactly one `,` and exactly two `:` before it. */
  lemma TimestampShape(srtTime: string)
    ensures multiset(srtTime)[','] != 1 ==> SrtTimeToAssTime(srtTime).Err?
    ensures multiset(srtTime)[','] == 1 && multiset(Split(srtTime, ",")[0])[':'] != 2 ==>
      SrtTimeToAssTime(srtTime).Err?
  {
    SplitCount(srtTime, ',');
    SplitCount(Split(srtTime, ",")[0], ':');
  }
}
