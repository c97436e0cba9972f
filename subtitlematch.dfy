/**
  Pairing a video with its subtitle files by name: a subtitle file belongs to
  a video when its stem is the video's stem, extends it after an underscore,
  or is a prefix of it.
 */
module SubtitleMatch {
  import opened Text
  import opened Paths

  /** The `if`/`elif` chain of `find_matching_subtitles`: exact match, the
      video stem followed by `_`, or the subtitle stem as a prefix of the
      video stem. */
  predicate SubtitleMatches(videoBaseName: string, subtitleFile: string) {
    var subtitleBase := Stem(subtitleFile);
    subtitleBase == videoBaseName
    || StartsWith(subtitleBase, videoBaseName + "_")
    || StartsWith(videoBaseName, subtitleBase)
  }

  /** The matching files in list order. */
  function Matching(videoBaseName: string, subtitleFiles: seq<string>): seq<string> {
    Filter(subtitleFiles, f => SubtitleMatches(videoBaseName, f))
  }

  /** The files `keep` accepts, in list order. */
  function Filter(files: seq<string>, keep: string -> bool): seq<string>
    decreases |files|
  {
    if files == [] then []
    else
      var n := |files| - 1;
      Filter(files[..n], keep) + (if keep(files[n]) then [files[n]] else [])
  }

  /** `find_matching_subtitles`: one pass over the files, appending each file
      at the first test of the chain it passes. */
  method FindMatchingSubtitles(videoBaseName: string, subtitleFiles: seq<string>)
    returns (matching: seq<string>)
    ensures matching == Matching(videoBaseName, subtitleFiles)
  {
    ghost var keep := f => SubtitleMatches(videoBaseName, f);
    matching := [];
    for i := 0 to |subtitleFiles|
      invariant matching == Filter(subtitleFiles[..i], keep)
    {
      var subtitleBase := Stem(subtitleFiles[i]);
      if subtitleBase == videoBaseName {
        matching := matching + [subtitleFiles[i]];
      } else if StartsWith(subtitleBase, videoBaseName + "_") {
        matching := matching + [subtitleFiles[i]];
      } else if StartsWith(videoBaseName, subtitleBase) {
        matching := matching + [subtitleFiles[i]];
      }
      assert subtitleFiles[..i + 1][..i] == subtitleFiles[..i];
    }
    assert subtitleFiles[..|subtitleFiles|] == subtitleFiles;
  }

  /** Whether each file matches, position by position. */
  function MatchFlags(videoBaseName: string, subtitleFiles: seq<string>): (flags: seq<bool>)
    ensures |flags| == |subtitleFiles|
  {
    Flags(subtitleFiles, f => SubtitleMatches(videoBaseName, f))
  }

  /** Whether `keep` accepts each file, position by position. */
  function Flags(files: seq<string>, keep: string -> bool): (flags: seq<bool>)
    ensures |flags| == |files|
  {
    seq(|files|, i requires 0 <= i < |files| => keep(files[i]))
  }

  /** The positions whose flag is set, in increasing order. */
  function Positions(flags: seq<bool>): (indices: seq<nat>)
    ensures forall k :: 0 <= k < |indices| ==> indices[k] < |flags|
    ensures forall k, l :: 0 <= k < l < |indices| ==> indices[k] < indices[l]
    ensures forall i :: 0 <= i < |flags| ==> (i in indices <==> flags[i])
    decreases |flags|
  {
    if flags == [] then []
    else
      var n := |flags| - 1;
      Positions(flags[..n]) + (if flags[n] then [n] else [])
  }

  /** The result picks the matching positions out of the input, in increasing
      order: it is an order-preserving subsequence holding exactly the
      matching positions. */
  lemma MatchingSubsequence(videoBaseName: string, subtitleFiles: seq<string>)
    ensures var indices := Positions(MatchFlags(videoBaseName, subtitleFiles));
      && |indices| == |Matching(videoBaseName, subtitleFiles)|
      && forall k :: 0 <= k < |indices| ==>
           Matching(videoBaseName, subtitleFiles)[k] == subtitleFiles[indices[k]]
  {
    FilterSubsequence(subtitleFiles, f => SubtitleMatches(videoBaseName, f));
  }

  lemma {:induction false} FilterSubsequence(files: seq<string>, keep: string -> bool)
    ensures var indices := Positions(Flags(files, keep));
      && |indices| == |Filter(files, keep)|
      && forall k :: 0 <= k < |indices| ==> Filter(files, keep)[k] == files[indices[k]]
    decreases |files|
  {
    if files != [] {
      var n := |files| - 1;
      var front := files[..n];
      var flags := Flags(files, keep);
      FilterSubsequence(front, keep);
      assert flags[..n] == Flags(front, keep);
      var frontIndices, frontKept := Positions(flags[..n]), Filter(front, keep);
      var indices, kept := Positions(flags), Filter(files, keep);
      assert indices == frontIndices + (if keep(files[n]) then [n] else []);
      assert kept == frontKept + (if keep(files[n]) then [files[n]] else []);
      forall k | 0 <= k < |indices| ensures kept[k] == files[indices[k]] {
        if k < |frontIndices| {
          assert kept[k] == frontKept[k] == front[frontIndices[k]];
        }
      }
    }
  }

  /** Each file occurs in the result exactly as often as in the input when it
      matches, and not at all otherwise: the `elif` chain never adds a file
      twice. */
  lemma MatchingCount(videoBaseName: string, subtitleFiles: seq<string>, file: string)
    ensures multiset(Matching(videoBaseName, subtitleFiles))[file]
            == if SubtitleMatches(videoBaseName, file) then multiset(subtitleFiles)[file] else 0
  {
    FilterCount(subtitleFiles, f => SubtitleMatches(videoBaseName, f), file);
  }

  lemma {:induction false} FilterCount(files: seq<string>, keep: string -> bool, file: string)
    ensures multiset(Filter(files, keep))[file] == if keep(file) then multiset(files)[file] else 0
    decreases |files|
  {
    if files != [] {
      var n := |files| - 1;
      FilterCount(files[..n], keep, file);
      assert files == files[..n] + [files[n]];
    }
  }

  /** A file is in the result exactly when it is in the input and matches; in
      particular a file whose stem is the video's stem is always included. */
  lemma MatchingMembership(videoBaseName: string, subtitleFiles: seq<string>, file: string)
    ensures file in Matching(videoBaseName, subtitleFiles)
            <==> file in subtitleFiles && SubtitleMatches(videoBaseName, file)
    ensures file in subtitleFiles && Stem(file) == videoBaseName
            ==> file in Matching(videoBaseName, subtitleFiles)
  {
    MatchingCount(videoBaseName, subtitleFiles, file);
  }

  /** The merged video's file name, `{videoBase}_{subtitleBase}_merged.mp4`. */
  function MergedOutputName(videoBase: string, subtitleBase: string): string {
    videoBase + "_" + subtitleBase + "_merged.mp4"
  }

  /** The merged name's own stem is both stems joined by underscores, so the
      two inputs can be read off it. */
  lemma MergedNameStem(videoBase: string, subtitleBase: string)
    requires '/' !in videoBase && '/' !in subtitleBase
    ensures Stem(MergedOutputName(videoBase, subtitleBase)) == videoBase + "_" + subtitleBase + "_merged"
  {
    var name := videoBase + "_" + subtitleBase + "_merged";
    assert MergedOutputName(videoBase, subtitleBase) == name + "." + "mp4";
    assert name[|name| - 1] == 'd';
    SplitExtLast(name, "mp4");
    assert '/' !in name + "." + "mp4";
    BasenamePlain(name + "." + "mp4");
  }
}
