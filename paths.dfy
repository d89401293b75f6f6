/**
 * The video-code shortcut of `main` (detect_with_yolo.py): a four-digit
 * argument names the proxy video of that code and fixes the keyframes
 * output file; any other argument is used as a path unchanged.
 */
module Paths {
  import opened Options

  const VideoPrefix := "videos/MVI_"
  const VideoSuffix := "_proxy.mp4"
  const OutputPrefix := "videos_keyframes/MVI_"
  const OutputSuffix := "_keyframes.json"

  predicate IsDigit(c: char) {
    '0' <= c <= '9'
  }

  /** `video.isdigit() and len(video) == 4`, over ASCII digits. */
  predicate IsVideoCode(s: string) {
    |s| == 4 && forall i :: 0 <= i < |s| ==> IsDigit(s[i])
  }

  /** The video path and the output path after the shortcut. */
  datatype Resolved = Resolved(video: string, output: Option<string>)

  function ResolveVideoArgument(video: string, output: Option<string>): (r: Resolved)
    ensures IsVideoCode(video) ==> r.output.Some? && |r.video| == |VideoPrefix| + 4 + |VideoSuffix|
    ensures !IsVideoCode(video) ==> r.video == video && r.output == output
  {
    if IsVideoCode(video) then
      Resolved(VideoPrefix + video + VideoSuffix, Some(OutputPrefix + video + OutputSuffix))
    else
      Resolved(video, output)
  }

  /** The part of `s` between `prefix` and `suffix`, if `s` has both. */
  function Between(prefix: string, s: string, suffix: string): (r: Option<string>)
    ensures r.Some? ==> s == prefix + r.value + suffix
  {
    if |prefix| + |suffix| <= |s| && s[..|prefix|] == prefix && s[|s| - |suffix|..] == suffix then
      assert s == s[..|prefix|] + s[|prefix|..|s| - |suffix|] + s[|s| - |suffix|..];
      Some(s[|prefix|..|s| - |suffix|])
    else
      None
  }

  lemma BetweenOfConcat(prefix: string, x: string, suffix: string)
    ensures Between(prefix, prefix + x + suffix, suffix) == Some(x)
  {
    var s := prefix + x + suffix;
    assert s[..|prefix|] == prefix;
    assert s[|s| - |suffix|..] == suffix;
    assert s[|prefix|..|s| - |suffix|] == x;
  }

  /** The code can be read back from both paths the shortcut produces. */
  lemma CodeRoundTrip(code: string, output: Option<string>)
    requires IsVideoCode(code)
    ensures var r := ResolveVideoArgument(code, output);
      && Between(VideoPrefix, r.video, VideoSuffix) == Some(code)
      && Between(OutputPrefix, r.output.value, OutputSuffix) == Some(code)
  {
    BetweenOfConcat(VideoPrefix, code, VideoSuffix);
    BetweenOfConcat(OutputPrefix, code, OutputSuffix);
  }

  /** Different codes name different videos and different output files. */
  lemma CodesDistinct(c1: string, c2: string, o1: Option<string>, o2: Option<string>)
    requires IsVideoCode(c1) && IsVideoCode(c2) && c1 != c2
    ensures ResolveVideoArgument(c1, o1).video != ResolveVideoArgument(c2, o2).video
    ensures ResolveVideoArgument(c1, o1).output != ResolveVideoArgument(c2, o2).output
  {
    CodeRoundTrip(c1, o1);
    CodeRoundTrip(c2, o2);
  }

  /** A resolved video path is not a code, so resolving again changes nothing. */
  lemma ResolveIdempotent(video: string, output: Option<string>)
    ensures var r := ResolveVideoArgument(video, output);
      ResolveVideoArgument(r.video, r.output) == r
  {
    var r := ResolveVideoArgument(video, output);
    if IsVideoCode(video) {
      assert |r.video| > 4;
    }
  }
}
