/** Splitting long videos into segments with ffmpeg (`split_video_if_needed`
    and `get_video_duration` in video.rs). A video shorter than an hour is
    used as it is; a longer one is cut into 3500-second pieces written to a
    temporary directory. The ffprobe and ffmpeg processes are inputs: the
    outcome of running ffprobe, and a function from an ffmpeg argument list
    to the outcome of running ffmpeg with it. */
module VideoSplit {
  import opened Wrappers
  import Strings
  import Decimal
  import Paths

  /** What running an external program gave: it could not be started, or
      it ran and exited with a success flag and its captured output. */
  datatype ProcessOutcome = SpawnFailed(error: string) | Exited(success: bool, stdout: string, stderr: string)

  /** Videos shorter than this many seconds are not split. */
  const SplitThreshold: real := 3600.0

  /** The length of every segment, in seconds. */
  const SegmentSeconds: nat := 3500

  /** Largest value of Rust's `i32`, where `as i32` saturates. */
  const I32Max: int := 2147483647

  /** `get_video_duration`: the duration ffprobe printed, or the error. */
  function GetVideoDuration(probe: ProcessOutcome): (r: Result<real>)
    ensures r.Ok? <==> probe.Exited? && probe.success && Decimal.ParseFloat(Strings.Trim(probe.stdout)).Some?
    ensures r.Ok? ==> r.value == Decimal.ParseFloat(Strings.Trim(probe.stdout)).value
    ensures probe.Exited? && probe.success && r.Err? ==> r.error == "Failed to parse duration"
  {
    match probe
    case SpawnFailed(e) =>
      Err("Failed to execute ffprobe: " + e + ". Make sure ffmpeg is installed and in your PATH.")
    case Exited(success, stdout, stderr) =>
      if !success then Err("ffprobe failed: " + stderr)
      else match Decimal.ParseFloat(Strings.Trim(stdout))
        case None => Err("Failed to parse duration")
        case Some(d) => Ok(d)
  }

  /** `(duration / 3500).ceil() as i32`, for a duration of at least an
      hour: at least two segments; unless the count saturates at the `i32`
      maximum, the segments cover the video and the last one starts before
      its end. */
  function SegmentCount(duration: real): (n: int)
    requires duration >= SplitThreshold
    ensures 2 <= n <= I32Max
    ensures duration <= I32Max as real * SegmentSeconds as real ==>
      (n - 1) as real * SegmentSeconds as real < duration <= n as real * SegmentSeconds as real
    ensures duration > I32Max as real * SegmentSeconds as real ==> n == I32Max
  {
    var x := duration / SegmentSeconds as real;
    var c := Decimal.Ceil(x);
    assert duration == x * SegmentSeconds as real;
    assert x > 1.0;
    if c > I32Max then I32Max else c
  }

  /** Every segment is shorter than the threshold, so no segment would be
      split again. */
  lemma SegmentsAreShort()
    ensures (SegmentSeconds as real) < SplitThreshold
  {
  }

  /** The stem used in segment names: the input's file stem or "video". */
  function StemOf(videoPath: string): (stem: string)
    ensures stem != "" && '/' !in stem
  {
    match Paths.FileStem(videoPath)
    case None => "video"
    case Some(s) =>
      Paths.StemAndExtension(videoPath);
      NoSlashInPart(Paths.FileName(videoPath).value, s, Paths.Extension(videoPath));
      s
  }

  /** The extension used in segment names: the input's extension or "mp4". */
  function ExtensionOf(videoPath: string): (ext: string)
    ensures '/' !in ext
  {
    match Paths.Extension(videoPath)
    case None => "mp4"
    case Some(e) =>
      Paths.StemAndExtension(videoPath);
      NoSlashInPart(Paths.FileName(videoPath).value, Paths.FileStem(videoPath).value, Some(e));
      e
  }

  /** The parts of a file name hold no `/` since the name holds none. */
  lemma NoSlashInPart(name: string, stem: string, ext: Option<string>)
    requires '/' !in name
    requires ext.Some? ==> name == stem + "." + ext.value
    requires ext.None? ==> name == stem
    ensures '/' !in stem
    ensures ext.Some? ==> '/' !in ext.value
  {
    if ext.Some? {
      forall k | 0 <= k < |stem| ensures stem[k] != '/' { assert stem[k] == name[k]; }
      var e := ext.value;
      forall k | 0 <= k < |e| ensures e[k] != '/' { assert e[k] == name[|stem| + 1 + k]; }
    }
  }

  /** `{stem}_part_{i+1:03}.{ext}`: the name of segment `i` (from 0). */
  function SegmentName(stem: string, ext: string, i: nat): (name: string)
    requires stem != ""
    ensures name != [] && name[0] == stem[0]
  {
    stem + "_part_" + Decimal.PaddedNat(i + 1, 3) + "." + ext
  }

  /** A segment name is the stem, `_part_`, a number of at least three
      digits, a dot and the extension. */
  lemma SegmentNameShape(stem: string, ext: string, i: nat)
    requires stem != ""
    ensures var name, k := SegmentName(stem, ext, i), |stem| + 6;
      var w := |name| - |ext| - 1;
      k + 3 <= w < |name| &&
      name[..|stem|] == stem && name[|stem|..k] == "_part_" &&
      name[k..w] == Decimal.PaddedNat(i + 1, 3) && Decimal.AllDigits(name[k..w]) &&
      name[w] == '.' && name[w + 1..] == ext
  {
    var digits := Decimal.PaddedNat(i + 1, 3);
    var name := SegmentName(stem, ext, i);
    assert name == stem + "_part_" + digits + "." + ext;
  }

  /** Where segment `i` is written. */
  function SegmentPath(dir: string, stem: string, ext: string, i: nat): string
    requires stem != "" && stem[0] != '/'
  {
    Paths.Join(dir, SegmentName(stem, ext, i))
  }

  /** The ffmpeg arguments that cut segment `i` into `output`: a stream
      copy starting at i·3500 seconds and lasting 3500 seconds. */
  function SegmentArgs(videoPath: string, i: nat, output: string): seq<string>
  {
    ["-i", videoPath, "-ss", Decimal.NatToString(i * SegmentSeconds), "-t", Decimal.NatToString(SegmentSeconds),
     "-c", "copy", "-avoid_negative_ts", "make_zero", output, "-y"]
  }

  /** The message a failed ffmpeg run gives. */
  function FfmpegError(outcome: ProcessOutcome): string
  {
    match outcome
    case SpawnFailed(e) => "Failed to execute ffmpeg: " + e + ". Make sure ffmpeg is installed and in your PATH."
    case Exited(_, _, stderr) => "ffmpeg failed: " + stderr
  }

  predicate Succeeded(outcome: ProcessOutcome)
  {
    outcome.Exited? && outcome.success
  }

  /** The ffmpeg arguments for segment `i` of a video cut into `dir`. */
  function SegmentCall(videoPath: string, dir: string, stem: string, ext: string, i: nat): seq<string>
    requires stem != "" && stem[0] != '/'
  {
    SegmentArgs(videoPath, i, SegmentPath(dir, stem, ext, i))
  }

  /** The argument lists of the first `k` segments, in order. */
  function Calls(videoPath: string, dir: string, stem: string, ext: string, k: nat): (calls: seq<seq<string>>)
    requires stem != "" && stem[0] != '/'
    ensures |calls| == k
    ensures forall i :: 0 <= i < k ==> calls[i] == SegmentCall(videoPath, dir, stem, ext, i)
  {
    seq(k, i requires 0 <= i => SegmentCall(videoPath, dir, stem, ext, i))
  }

  /** The paths of the first `k` segments, in order. */
  function Segments(dir: string, stem: string, ext: string, k: nat): (paths: seq<string>)
    requires stem != "" && stem[0] != '/'
    ensures |paths| == k
    ensures forall i :: 0 <= i < k ==> paths[i] == SegmentPath(dir, stem, ext, i)
  {
    seq(k, i requires 0 <= i => SegmentPath(dir, stem, ext, i))
  }

  lemma CallsStep(videoPath: string, dir: string, stem: string, ext: string, k: nat)
    requires stem != "" && stem[0] != '/'
    ensures Calls(videoPath, dir, stem, ext, k + 1) == Calls(videoPath, dir, stem, ext, k) + [SegmentCall(videoPath, dir, stem, ext, k)]
  {
  }

  lemma SegmentsStep(dir: string, stem: string, ext: string, k: nat)
    requires stem != "" && stem[0] != '/'
    ensures Segments(dir, stem, ext, k + 1) == Segments(dir, stem, ext, k) + [SegmentPath(dir, stem, ext, k)]
  {
    var longer, shorter := Segments(dir, stem, ext, k + 1), Segments(dir, stem, ext, k);
    forall i | 0 <= i < k + 1 ensures longer[i] == (shorter + [SegmentPath(dir, stem, ext, k)])[i] {
      if i < k { assert longer[i] == shorter[i]; }
    }
  }

  /** The first segment, from `from` on, whose ffmpeg run fails, if any:
      every run before it succeeds. */
  function FirstFailure(videoPath: string, dir: string, stem: string, ext: string, n: nat,
                        ffmpeg: seq<string> -> ProcessOutcome, from: nat): (j: Option<nat>)
    requires stem != "" && stem[0] != '/'
    ensures j.Some? ==> from <= j.value < n && !Succeeded(ffmpeg(SegmentCall(videoPath, dir, stem, ext, j.value)))
    ensures forall i :: from <= i < n && (j.None? || i < j.value) ==>
      Succeeded(ffmpeg(SegmentCall(videoPath, dir, stem, ext, i)))
    decreases n - from
  {
    if from >= n then None
    else if !Succeeded(ffmpeg(SegmentCall(videoPath, dir, stem, ext, from))) then Some(from)
    else FirstFailure(videoPath, dir, stem, ext, n, ffmpeg, from + 1)
  }

  /** Cutting `n` segments into `dir`: the runs stop at the first one that
      fails, whose error is returned; otherwise all segment paths are. */
  function Cut(videoPath: string, dir: string, stem: string, ext: string, n: nat,
               ffmpeg: seq<string> -> ProcessOutcome): (Result<seq<string>>, seq<seq<string>>)
    requires stem != "" && stem[0] != '/'
  {
    match FirstFailure(videoPath, dir, stem, ext, n, ffmpeg, 0)
    case Some(j) =>
      (Err(FfmpegError(ffmpeg(SegmentCall(videoPath, dir, stem, ext, j)))), Calls(videoPath, dir, stem, ext, j + 1))
    case None => (Ok(Segments(dir, stem, ext, n)), Calls(videoPath, dir, stem, ext, n))
  }

  /** What `split_video_if_needed` returns, and the ffmpeg argument lists
      it runs, in order. */
  function Split(videoPath: string, probe: ProcessOutcome, tempDir: Result<string>,
                 ffmpeg: seq<string> -> ProcessOutcome): (Result<seq<string>>, seq<seq<string>>)
  {
    match GetVideoDuration(probe)
    case Err(e) => (Err(e), [])
    case Ok(d) =>
      if d < SplitThreshold then (Ok([videoPath]), [])
      else match tempDir
        case Err(e) => (Err(e), [])
        case Ok(dir) => Cut(videoPath, dir, StemOf(videoPath), ExtensionOf(videoPath), SegmentCount(d), ffmpeg)
  }

  /** The loop of `split_video_if_needed`: segment by segment, run ffmpeg
      and keep the output path, or return the first error. */
  method CutSegments(videoPath: string, dir: string, stem: string, ext: string, n: nat,
                     ffmpeg: seq<string> -> ProcessOutcome)
    returns (r: Result<seq<string>>, calls: seq<seq<string>>)
    requires stem != "" && stem[0] != '/'
    ensures (r, calls) == Cut(videoPath, dir, stem, ext, n, ffmpeg)
  {
    var segments: seq<string> := [];
    calls := [];
    for i := 0 to n
      invariant segments == Segments(dir, stem, ext, i)
      invariant calls == Calls(videoPath, dir, stem, ext, i)
      invariant FirstFailure(videoPath, dir, stem, ext, n, ffmpeg, 0) == FirstFailure(videoPath, dir, stem, ext, n, ffmpeg, i)
    {
      var output := SegmentPath(dir, stem, ext, i);
      var args := SegmentArgs(videoPath, i, output);
      CallsStep(videoPath, dir, stem, ext, i);
      calls := calls + [args];
      var outcome := ffmpeg(args);
      if !Succeeded(outcome) {
        return Err(FfmpegError(outcome)), calls;
      }
      SegmentsStep(dir, stem, ext, i);
      segments := segments + [output];
    }
    r := Ok(segments);
  }

  /** `split_video_if_needed`, returning as well the ffmpeg argument lists
      in the order it runs them and the segment files that exist once it
      has returned. */
  method SplitVideoIfNeeded(videoPath: string, probe: ProcessOutcome, tempDir: Result<string>,
                            ffmpeg: seq<string> -> ProcessOutcome)
    returns (r: Result<seq<string>>, calls: seq<seq<string>>, onDisk: set<string>)
    ensures (r, calls) == Split(videoPath, probe, tempDir, ffmpeg)
    ensures onDisk == if r.Ok? && |calls| > 0 then KeptTempDir(r.value) else {}
  {
    var duration := GetVideoDuration(probe);
    if duration.Err? {
      return Err(duration.error), [], {};
    }
    var d := duration.value;
    if d < SplitThreshold {
      return Ok([videoPath]), [], {};
    }
    var n := SegmentCount(d);
    if tempDir.Err? {
      return Err(tempDir.error), [], {};
    }
    var stem, ext := StemOf(videoPath), ExtensionOf(videoPath);
    r, calls := CutSegments(videoPath, tempDir.value, stem, ext, n, ffmpeg);
    onDisk := if r.Ok? then KeptTempDir(r.value) else {};
  }

  /** The segment files left once the function returns when the temporary
      directory is kept: all that were written. */
  function KeptTempDir(written: seq<string>): (onDisk: set<string>)
    ensures forall p :: p in written <==> p in onDisk
  {
    set p | p in written
  }

  /** The segment files left as the source is written: the `TempDir`
      guard is dropped when the function returns, which removes the
      directory and every segment in it. */
  function DroppedTempDir(dir: string, written: seq<string>): (onDisk: set<string>)
    ensures forall p :: p in onDisk ==> p in written
  {
    set p | p in written && !(|p| >= |dir| && p[..|dir|] == dir)
  }

  /** As written, none of the segments returned for a video of an hour or
      more is still on disk. */
  lemma DroppedSegmentsAreGone(dir: string, stem: string, ext: string, n: nat)
    requires stem != "" && stem[0] != '/'
    ensures DroppedTempDir(dir, Segments(dir, stem, ext, n)) == {}
  {
    var paths := Segments(dir, stem, ext, n);
    forall p | p in paths ensures |p| >= |dir| && p[..|dir|] == dir {
      var i :| 0 <= i < |paths| && paths[i] == p;
      var name := SegmentName(stem, ext, i);
      assert p == Paths.Join(dir, name);
    }
  }

  /** With the directory kept, every segment returned is on disk. */
  lemma KeptSegmentsExist(dir: string, stem: string, ext: string, n: nat)
    requires stem != "" && stem[0] != '/'
    ensures forall i :: 0 <= i < n ==> SegmentPath(dir, stem, ext, i) in KeptTempDir(Segments(dir, stem, ext, n))
  {
  }

  /** As written, a video of an hour or more that is split successfully
      comes back as at least two paths, none of which is still on disk
      once `split_video_if_needed` has returned. */
  lemma SplitSegmentsAreGone(videoPath: string, probe: ProcessOutcome, dir: string,
                             ffmpeg: seq<string> -> ProcessOutcome)
    requires GetVideoDuration(probe).Ok? && GetVideoDuration(probe).value >= SplitThreshold
    requires Split(videoPath, probe, Ok(dir), ffmpeg).0.Ok?
    ensures var r := Split(videoPath, probe, Ok(dir), ffmpeg).0;
      |r.value| >= 2 && DroppedTempDir(dir, r.value) == {}
  {
    var n := SegmentCount(GetVideoDuration(probe).value);
    var stem, ext := StemOf(videoPath), ExtensionOf(videoPath);
    assert stem[0] != '/';
    assert Split(videoPath, probe, Ok(dir), ffmpeg) == Cut(videoPath, dir, stem, ext, n, ffmpeg);
    assert FirstFailure(videoPath, dir, stem, ext, n, ffmpeg, 0).None?;
    DroppedSegmentsAreGone(dir, stem, ext, n);
  }

  /** A video shorter than an hour is returned as it is and ffmpeg is not
      run. */
  lemma ShortVideoUnsplit(videoPath: string, probe: ProcessOutcome, tempDir: Result<string>,
                          ffmpeg: seq<string> -> ProcessOutcome)
    requires GetVideoDuration(probe).Ok? && GetVideoDuration(probe).value < SplitThreshold
    ensures Split(videoPath, probe, tempDir, ffmpeg) == (Ok([videoPath]), [])
  {
  }

  /** When every run succeeds, all `n` segments are cut, in order. */
  lemma CutAllSucceed(videoPath: string, dir: string, stem: string, ext: string, n: nat,
                      ffmpeg: seq<string> -> ProcessOutcome)
    requires stem != "" && stem[0] != '/'
    requires forall i :: 0 <= i < n ==> Succeeded(ffmpeg(SegmentCall(videoPath, dir, stem, ext, i)))
    ensures Cut(videoPath, dir, stem, ext, n, ffmpeg) == (Ok(Segments(dir, stem, ext, n)), Calls(videoPath, dir, stem, ext, n))
  {
  }

  /** A failing run aborts the cut with its error; no later segment is cut. */
  lemma CutFails(videoPath: string, dir: string, stem: string, ext: string, n: nat,
                 ffmpeg: seq<string> -> ProcessOutcome, j: nat)
    requires stem != "" && stem[0] != '/'
    requires j < n
    requires forall i :: 0 <= i < j ==> Succeeded(ffmpeg(SegmentCall(videoPath, dir, stem, ext, i)))
    requires !Succeeded(ffmpeg(SegmentCall(videoPath, dir, stem, ext, j)))
    ensures Cut(videoPath, dir, stem, ext, n, ffmpeg) ==
      (Err(FfmpegError(ffmpeg(SegmentCall(videoPath, dir, stem, ext, j)))), Calls(videoPath, dir, stem, ext, j + 1))
  {
  }

  /** When every ffmpeg run succeeds, the result holds exactly one path per
      segment, in order, each named after its 1-based index, and each
      segment was cut once, starting 3500 seconds after the one before. */
  lemma LongVideoSegments(videoPath: string, probe: ProcessOutcome, dir: string,
                          ffmpeg: seq<string> -> ProcessOutcome)
    requires GetVideoDuration(probe).Ok? && GetVideoDuration(probe).value >= SplitThreshold
    requires forall args :: Succeeded(ffmpeg(args))
    ensures var n := SegmentCount(GetVideoDuration(probe).value);
      var stem, ext := StemOf(videoPath), ExtensionOf(videoPath);
      Split(videoPath, probe, Ok(dir), ffmpeg) == (Ok(Segments(dir, stem, ext, n)), Calls(videoPath, dir, stem, ext, n))
  {
    var n := SegmentCount(GetVideoDuration(probe).value);
    CutAllSucceed(videoPath, dir, StemOf(videoPath), ExtensionOf(videoPath), n, ffmpeg);
  }

  /** Segment `i` is cut from i·3500 seconds on, for 3500 seconds, into its
      own path: the start and length arguments read back as those numbers. */
  lemma SegmentCallTimes(videoPath: string, dir: string, stem: string, ext: string, i: nat)
    requires stem != "" && stem[0] != '/'
    ensures var args := SegmentCall(videoPath, dir, stem, ext, i);
      |args| == 12 && args[1] == videoPath && args[10] == SegmentPath(dir, stem, ext, i) &&
      Decimal.ParseFloat(args[3]) == Some((i * SegmentSeconds) as real) &&
      Decimal.ParseFloat(args[5]) == Some(SegmentSeconds as real)
  {
    var args := SegmentCall(videoPath, dir, stem, ext, i);
    assert args == SegmentArgs(videoPath, i, SegmentPath(dir, stem, ext, i));
    assert args[3] == Decimal.NatToString(i * SegmentSeconds) && args[5] == Decimal.NatToString(SegmentSeconds);
    Decimal.ParseNatToString(i * SegmentSeconds);
    Decimal.ParseNatToString(SegmentSeconds);
  }

  /** A failing ffmpeg run aborts the split: no list of segments comes back,
      only the error of the first failure, and no later segment is cut. */
  lemma FailureAborts(videoPath: string, probe: ProcessOutcome, dir: string,
                      ffmpeg: seq<string> -> ProcessOutcome, j: nat)
    requires GetVideoDuration(probe).Ok? && GetVideoDuration(probe).value >= SplitThreshold
    requires j < SegmentCount(GetVideoDuration(probe).value)
    requires forall i :: 0 <= i < j ==> Succeeded(ffmpeg(SegmentCall(videoPath, dir, StemOf(videoPath), ExtensionOf(videoPath), i)))
    requires !Succeeded(ffmpeg(SegmentCall(videoPath, dir, StemOf(videoPath), ExtensionOf(videoPath), j)))
    ensures var (r, calls) := Split(videoPath, probe, Ok(dir), ffmpeg);
      r.Err? && |calls| == j + 1 &&
      r.error == FfmpegError(ffmpeg(SegmentCall(videoPath, dir, StemOf(videoPath), ExtensionOf(videoPath), j)))
  {
    var n := SegmentCount(GetVideoDuration(probe).value);
    CutFails(videoPath, dir, StemOf(videoPath), ExtensionOf(videoPath), n, ffmpeg, j);
  }

  /** Two different segments never get the same name. */
  lemma SegmentNamesDistinct(stem: string, ext: string, i: nat, j: nat)
    requires stem != ""
    requires SegmentName(stem, ext, i) == SegmentName(stem, ext, j)
    ensures i == j
  {
    var a, b := Decimal.PaddedNat(i + 1, 3), Decimal.PaddedNat(j + 1, 3);
    var head := stem + "_part_";
    Strings.CancelSuffix(head + a + ".", head + b + ".", ext);
    Strings.CancelSuffix(head + a, head + b, ".");
    Strings.CancelPrefix(head, a, b);
    Decimal.PaddedNatInjective(i + 1, j + 1, 3);
  }

  /** Segment paths in one directory are pairwise distinct. */
  lemma SegmentPathsDistinct(dir: string, stem: string, ext: string, i: nat, j: nat)
    requires stem != "" && stem[0] != '/'
    requires SegmentPath(dir, stem, ext, i) == SegmentPath(dir, stem, ext, j)
    ensures i == j
  {
    var x, y := SegmentName(stem, ext, i), SegmentName(stem, ext, j);
    var pre := if dir == [] || dir[|dir| - 1] == '/' then dir else dir + "/";
    assert Paths.Join(dir, x) == pre + x && Paths.Join(dir, y) == pre + y;
    Strings.CancelPrefix(pre, x, y);
    SegmentNamesDistinct(stem, ext, i, j);
  }
}
