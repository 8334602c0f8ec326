/** The video editor session and its ffmpeg runner: the single imported
    video, output paths, the progress protocol of one ffmpeg run, and the
    `trim_video` and `import_video` tools. The child process is given as its
    observable behaviour (does it start, the lines of its diagnostic stream,
    its exit code); the tool's clock reading is a parameter. */
module Server {
  import opened Text
  import opened Errors
  import opened Paths
  import opened Security

  /** `MAX_FILENAME_LENGTH`. */
  const MaxFilenameLength := 255

  /** The configured directories (`INPUT_DIR`, `OUTPUT_DIR`) and the working
      directory that `realpath` resolves relative paths against. */
  datatype Config = Config(inputDir: PurePath, outputDir: PurePath, cwd: seq<string>)

  predicate ValidConfig(config: Config) {
    ValidPath(config.inputDir) && ValidPath(config.outputDir) && Canonical(config.cwd)
  }

  /** One `report_progress(percent, message, error)` notification. */
  datatype Progress = Progress(percent: int, message: string, error: bool)

  /** What the spawned ffmpeg does: it cannot be started (the operating
      system's reason), or it writes these diagnostic lines and exits. */
  datatype Child = SpawnFails(reason: string) | Exits(stderr: seq<string>, exitCode: int)

  /** The request context's progress channel: the notifications it has
      received, in order. */
  class ProgressSink {
    var events: seq<Progress>

    constructor()
      ensures events == []
    {
      events := [];
    }

    method Report(percent: int, message: string, error: bool)
      modifies this
      ensures events == old(events) + [Progress(percent, message, error)]
    {
      events := events + [Progress(percent, message, error)];
    }
  }

  // ---------------------------------------------------------------------
  // get_output_path
  // ---------------------------------------------------------------------

  /** `get_output_path(filename)`: `OUTPUT_DIR / sanitize_filename(filename)`,
      refused with `InvalidInputError` when the sanitised name is longer than
      the limit. */
  function OutputPath(config: Config, filename: string): (r: Result<PurePath>)
    requires ValidConfig(config)
    ensures r.Err? <==> |SanitizeFilename(filename)| > MaxFilenameLength
    ensures r.Err? ==> r.error == Error(InvalidInputError, "Filename too long")
    ensures r.Ok? ==> r.value.absolute == config.outputDir.absolute
    ensures r.Ok? ==> var safe := SanitizeFilename(filename);
      r.value.parts == config.outputDir.parts + (if safe == "" || safe == "." then [] else [safe])
  {
    var safe := SanitizeFilename(filename);
    if |safe| > MaxFilenameLength then Err(Error(InvalidInputError, "Filename too long"))
    else
      JoinPathComponent(config.outputDir, safe);
      Ok(JoinPath(config.outputDir, safe))
  }

  /** The output path only ever appends one separator-free component to
      `OUTPUT_DIR`; that component may be `..`, so the path is not
      guaranteed to stay inside `OUTPUT_DIR` once resolved. */
  lemma OutputPathOneComponent(config: Config, filename: string)
    requires ValidConfig(config) && OutputPath(config, filename).Ok?
    ensures var p := OutputPath(config, filename).value;
      IsPrefix(config.outputDir.parts, p.parts) &&
      |p.parts| <= |config.outputDir.parts| + 1 &&
      forall i :: |config.outputDir.parts| <= i < |p.parts| ==> '/' !in p.parts[i] && '\0' !in p.parts[i]
  {
  }

  /** A name that sanitising keeps, within the limit, is appended as it is. */
  lemma OutputPathOfPlainName(config: Config, name: string)
    requires ValidConfig(config)
    requires SanitizeFilename(name) == name && name != "" && name != "."
    ensures OutputPath(config, name) ==
      if |name| > MaxFilenameLength then Err(Error(InvalidInputError, "Filename too long"))
      else Ok(PurePath(config.outputDir.absolute, config.outputDir.parts + [name]))
  {
  }

  /** A traversal attempt keeps only its last name. */
  lemma OutputPathTraversal(config: Config)
    requires ValidConfig(config)
    ensures OutputPath(config, "../../etc/passwd") ==
      Ok(PurePath(config.outputDir.absolute, config.outputDir.parts + ["passwd"]))
  {
    SanitizeTraversal();
    var r := OutputPath(config, "../../etc/passwd");
    assert SanitizeFilename("../../etc/passwd") == "passwd";
    assert r.Ok?;
  }

  /** A bare `..` survives sanitising and becomes the last part. */
  lemma OutputPathDotDot(config: Config)
    requires ValidConfig(config)
    ensures OutputPath(config, "..") ==
      Ok(PurePath(config.outputDir.absolute, config.outputDir.parts + [".."]))
  {
    SanitizeKeepsDotDot();
    OutputPathOfPlainName(config, "..");
  }

  // ---------------------------------------------------------------------
  // The progress protocol of execute_ffmpeg
  // ---------------------------------------------------------------------

  /** `b"frame=" in line`. */
  predicate HasFrameMarker(line: string) {
    Contains(line, "frame=")
  }

  /** How many of the lines carry the frame marker. */
  function CountFrames(lines: seq<string>): (n: nat)
    ensures n <= |lines|
  {
    if lines == [] then 0
    else CountFrames(lines[..|lines| - 1]) + (if HasFrameMarker(lines[|lines| - 1]) then 1 else 0)
  }

  /** The count adds up over a concatenation, and a single line counts one
      exactly when it has the marker: `CountFrames` is the number of lines
      containing `frame=`. */
  lemma {:induction false} CountFramesAppend(a: seq<string>, b: seq<string>)
    ensures CountFrames(a + b) == CountFrames(a) + CountFrames(b)
    ensures |a| == 1 ==> CountFrames(a) == if HasFrameMarker(a[0]) then 1 else 0
  {
    if b != [] {
      assert (a + b)[..|a + b| - 1] == a + b[..|b| - 1];
      CountFramesAppend(a, b[..|b| - 1]);
    } else {
      assert a + b == a;
    }
    if |a| == 1 {
      assert a[..0] == [];
    }
  }

  function Min(a: int, b: int): int {
    if a <= b then a else b
  }

  /** The notification sent when the frame counter reaches a multiple of 30. */
  function FrameReport(frames: nat): Progress {
    Progress(Min(95, frames / 30), "Frames processed: " + NatToString(frames), false)
  }

  /** The notifications sent while reading `lines`: one each time the count
      of frame lines becomes a multiple of 30. */
  function FrameProgress(lines: seq<string>): seq<Progress> {
    if lines == [] then []
    else
      var frames := CountFrames(lines);
      FrameProgress(lines[..|lines| - 1]) +
      (if HasFrameMarker(lines[|lines| - 1]) && frames % 30 == 0 then [FrameReport(frames)] else [])
  }

  /** Reading one more line adds at most one frame and at most one
      notification. */
  lemma FrameStep(lines: seq<string>, i: nat)
    requires i < |lines|
    ensures var marked := HasFrameMarker(lines[i]);
      var frames := CountFrames(lines[..i + 1]);
      frames == CountFrames(lines[..i]) + (if marked then 1 else 0) &&
      FrameProgress(lines[..i + 1]) ==
        FrameProgress(lines[..i]) + (if marked && frames % 30 == 0 then [FrameReport(frames)] else [])
  {
    assert lines[..i + 1][..i] == lines[..i];
  }

  /** Closed form of the frame progress: one notification per 30 frame
      lines, the k-th (from 0) reporting `min(95, k + 1)` percent after
      `30 * (k + 1)` frames. */
  lemma {:induction false} FrameProgressClosedForm(lines: seq<string>)
    ensures |FrameProgress(lines)| == CountFrames(lines) / 30
    ensures forall k :: 0 <= k < |FrameProgress(lines)| ==>
      FrameProgress(lines)[k] == FrameReport(30 * (k + 1))
  {
    if lines != [] {
      var init := lines[..|lines| - 1];
      FrameProgressClosedForm(init);
      var before := CountFrames(init);
      var frames := CountFrames(lines);
      if HasFrameMarker(lines[|lines| - 1]) {
        assert frames == before + 1;
        if frames % 30 == 0 {
          assert frames / 30 == before / 30 + 1;
          assert 30 * (before / 30 + 1) == frames;
        } else {
          assert frames / 30 == before / 30;
        }
      }
    }
  }

  /** Every intermediate notification is between 1 and 95 percent, is not an
      error, and they never decrease. */
  lemma FrameProgressBounded(lines: seq<string>)
    ensures forall e :: e in FrameProgress(lines) ==> 1 <= e.percent <= 95 && !e.error
    ensures forall i, j :: 0 <= i <= j < |FrameProgress(lines)| ==>
      FrameProgress(lines)[i].percent <= FrameProgress(lines)[j].percent
  {
    FrameProgressClosedForm(lines);
    var events := FrameProgress(lines);
    forall k | 0 <= k < |events|
      ensures events[k].percent == Min(95, k + 1) && !events[k].error
    {
      assert 30 * (k + 1) / 30 == k + 1;
    }
  }

  // ---------------------------------------------------------------------
  // The outcome of execute_ffmpeg
  // ---------------------------------------------------------------------

  /** The argument vector handed to the process-creation call: the binary,
      the input option and the imported video, then the caller's arguments
      as separate elements (no shell is involved). */
  function Command(video: PurePath, args: seq<string>): seq<string> {
    ["ffmpeg", "-i", PathStr(video)] + args
  }

  /** What `communicate()` still finds on the diagnostic stream after the
      reading loop consumed `consumed` of its lines. */
  function StderrAfterLoop(stderr: seq<string>, consumed: nat): string
    requires consumed <= |stderr|
  {
    Concat(stderr[consumed..])
  }

  /** The error text as the code builds it: the reading loop only stops at
      end-of-stream, so `communicate()` is left with nothing. */
  function FfmpegErrorAsWritten(stderr: seq<string>): string {
    "FFmpeg error: " + StderrAfterLoop(stderr, |stderr|)
  }

  /** Whatever ffmpeg wrote, the error text as written carries none of it. */
  lemma FfmpegErrorAsWrittenDropsStderr(stderr: seq<string>)
    ensures FfmpegErrorAsWritten(stderr) == "FFmpeg error: "
  {
    assert stderr[|stderr|..] == [];
  }

  /** A concrete run: ffmpeg reports a bad input and exits, and the error
      text does not mention it. */
  lemma FfmpegErrorAsWrittenExample()
    ensures var stderr := ["Invalid data found when processing input\n"];
      !Contains(FfmpegErrorAsWritten(stderr), stderr[0])
  {
    var stderr := ["Invalid data found when processing input\n"];
    FfmpegErrorAsWrittenDropsStderr(stderr);
    assert |FfmpegErrorAsWritten(stderr)| < |stderr[0]|;
  }

  /** The error text with the diagnostic output the message was meant to
      carry. */
  function FfmpegErrorMessage(stderr: seq<string>): (message: string)
    ensures |message| >= 14 && message[..14] == "FFmpeg error: "
    ensures forall k :: 0 <= k < |stderr| ==> Contains(message, stderr[k])
  {
    var message := "FFmpeg error: " + Concat(stderr);
    assert forall k :: 0 <= k < |stderr| ==> Contains(message, stderr[k]) by {
      forall k | 0 <= k < |stderr| ensures Contains(message, stderr[k]) {
        ConcatContainsChunk(stderr, k);
        ContainsAfterPrefix("FFmpeg error: ", Concat(stderr), stderr[k]);
      }
    }
    message
  }

  /** The notification sent from the exception handler before re-raising. */
  function ErrorReport(e: Error): Progress {
    Progress(100, e.message, true)
  }

  /** One run of `execute_ffmpeg`: the argument vector it spawns (if it gets
      that far), the notifications it sends and its result. */
  datatype Execution = Execution(command: Option<seq<string>>, trace: seq<Progress>,
                                 outcome: Result<string>)

  /** The specification of `execute_ffmpeg(args)` with `current_video`
      equal to `current` and the child process behaving as `child`. */
  function Execute(current: Option<PurePath>, args: seq<string>, child: Child): Execution {
    match current
    case None =>
      var e := Error(InvalidInputError, "No video imported");
      Execution(None, [ErrorReport(e)], Err(e))
    case Some(video) =>
      var command := Command(video, args);
      match child
      case SpawnFails(reason) =>
        var e := Error(OSError, reason);
        Execution(Some(command), [ErrorReport(e)], Err(e))
      case Exits(stderr, exitCode) =>
        var done := FrameProgress(stderr) + [Progress(100, "Complete", false)];
        if exitCode == 0 then Execution(Some(command), done, Ok("Success"))
        else
          var e := Error(VideoEditorError, FfmpegErrorMessage(stderr));
          Execution(Some(command), done + [ErrorReport(e)], Err(e))
  }

  /** The notifications of any run are never above 100, never decrease, and
      the last one is 100. */
  lemma ExecuteTraceMonotone(current: Option<PurePath>, args: seq<string>, child: Child)
    ensures var trace := Execute(current, args, child).trace;
      |trace| >= 1 && trace[|trace| - 1].percent == 100 &&
      (forall e :: e in trace ==> 1 <= e.percent <= 100) &&
      (forall i, j :: 0 <= i <= j < |trace| ==> trace[i].percent <= trace[j].percent)
  {
    if current.Some? && child.Exits? {
      FrameProgressBounded(child.stderr);
    }
  }

  /** Success exactly when a video is imported, ffmpeg starts and exits with
      0; then the last notification is `(100, "Complete")` and none is an
      error. Otherwise the last notification is an error-flagged 100 that
      carries the raised error's text. */
  lemma ExecuteOutcome(current: Option<PurePath>, args: seq<string>, child: Child)
    ensures var x := Execute(current, args, child);
      (x.outcome.Ok? <==> current.Some? && child.Exits? && child.exitCode == 0) &&
      (x.outcome.Ok? ==> x.outcome.value == "Success" &&
                         x.trace[|x.trace| - 1] == Progress(100, "Complete", false) &&
                         forall e :: e in x.trace ==> !e.error) &&
      (x.outcome.Err? ==> |x.trace| >= 1 &&
                          x.trace[|x.trace| - 1] == Progress(100, x.outcome.error.message, true))
  {
    if current.Some? && child.Exits? {
      FrameProgressBounded(child.stderr);
    }
  }

  /** A failing ffmpeg still gets `(100, "Complete")` first, and then the
      error-flagged 100 with the `VideoEditorError` text. */
  lemma ExecuteNonzeroExit(video: PurePath, args: seq<string>, stderr: seq<string>, exitCode: int)
    requires exitCode != 0
    ensures var x := Execute(Some(video), args, Exits(stderr, exitCode));
      |x.trace| >= 2 &&
      x.trace[|x.trace| - 2] == Progress(100, "Complete", false) &&
      x.outcome.Err? && x.outcome.error.cls == VideoEditorError &&
      x.trace[|x.trace| - 1] == Progress(100, x.outcome.error.message, true) &&
      forall k :: 0 <= k < |stderr| ==> Contains(x.outcome.error.message, stderr[k])
  {
  }

  /** Without an imported video nothing is spawned: the only notification is
      the error-flagged 100 and the error is `InvalidInputError`. */
  lemma ExecuteWithoutVideo(args: seq<string>, child: Child)
    ensures var x := Execute(None, args, child);
      x.command.None? && x.trace == [Progress(100, "No video imported", true)] &&
      x.outcome == Err(Error(InvalidInputError, "No video imported"))
  {
  }

  /** Whenever a process is spawned its argument vector is the literal list
      `ffmpeg -i <video>` followed by the caller's arguments unchanged. */
  lemma ExecuteCommand(current: Option<PurePath>, args: seq<string>, child: Child)
    ensures var x := Execute(current, args, child);
      (x.command.Some? <==> current.Some?) &&
      (x.command.Some? ==>
        |x.command.value| == 3 + |args| &&
        x.command.value[..3] == ["ffmpeg", "-i", PathStr(current.value)] &&
        x.command.value[3..] == args)
  {
  }

  // ---------------------------------------------------------------------
  // The session
  // ---------------------------------------------------------------------

  /** The checks of `VideoEditor.import_video(path)`: a valid video file that
      resolves inside `INPUT_DIR`. */
  function ImportCheck(config: Config, path: string, present: PurePath -> bool): (r: Result<PurePath>)
    requires ValidConfig(config)
    ensures r.Ok? <==>
      ValidateVideoFile(path, present).Ok? &&
      IsSafePath(PathStr(ParsePath(path)), PathStr(config.inputDir), config.cwd)
    ensures r.Ok? ==> r.value == ParsePath(path)
    ensures r.Err? ==> r.error.cls == InvalidInputError || r.error.cls == SecurityError
    ensures r.Err? && ValidateVideoFile(path, present).Ok? ==>
      r.error == Error(SecurityError, "Access denied: File must be in allowed input directory")
  {
    match ValidateVideoFile(path, present)
    case Err(e) => Err(e)
    case Ok(video) =>
      if !IsSafePath(PathStr(video), PathStr(config.inputDir), config.cwd) then
        Err(Error(SecurityError, "Access denied: File must be in allowed input directory"))
      else Ok(video)
  }

  /** An accepted import is a present file with an allowed extension whose
      resolved path lies below the resolved input directory. */
  lemma ImportCheckContained(config: Config, path: string, present: PurePath -> bool)
    requires ValidConfig(config) && ImportCheck(config, path, present).Ok?
    ensures var video := ParsePath(path);
      present(video) &&
      (exists ext :: ext in VideoExtensions && EndsWithIgnoringCase(Name(video), ext)) &&
      RealPath(PathStr(video), config.cwd).Some? &&
      RealPath(PathStr(config.inputDir), config.cwd).Some? &&
      IsPrefix(RealPath(PathStr(config.inputDir), config.cwd).value,
               RealPath(PathStr(video), config.cwd).value)
  {
  }

  /** The editor's state: the configuration and the one imported video. */
  class VideoEditor {
    const config: Config
    var currentVideo: Option<PurePath>

    constructor(config: Config)
      requires ValidConfig(config)
      ensures this.config == config && currentVideo == None
    {
      this.config := config;
      currentVideo := None;
    }

    /** `import_video(path)`: the video becomes current only when every check
        passes; a failed import leaves the current video as it was. */
    method ImportVideo(path: string, present: PurePath -> bool) returns (r: Result<PurePath>)
      requires ValidConfig(config)
      modifies this
      ensures r == ImportCheck(config, path, present)
      ensures currentVideo == if r.Ok? then Some(r.value) else old(currentVideo)
    {
      r := ImportCheck(config, path, present);
      if r.Ok? {
        currentVideo := Some(r.value);
      }
    }

    /** The reading loop of `execute_ffmpeg`: read the diagnostic lines to
        the end, count those with the frame marker and report every 30th. */
    method ReadDiagnostics(stderr: seq<string>, ctx: ProgressSink) returns (frames: nat)
      modifies ctx
      ensures frames == CountFrames(stderr)
      ensures ctx.events == old(ctx.events) + FrameProgress(stderr)
    {
      frames := 0;
      var i := 0;
      while i < |stderr|
        invariant 0 <= i <= |stderr|
        invariant frames == CountFrames(stderr[..i])
        invariant ctx.events == old(ctx.events) + FrameProgress(stderr[..i])
      {
        FrameStep(stderr, i);
        if HasFrameMarker(stderr[i]) {
          frames := frames + 1;
          if frames % 30 == 0 {
            ctx.Report(Min(95, frames / 30), "Frames processed: " + NatToString(frames), false);
          }
        }
        i := i + 1;
      }
      assert stderr[..i] == stderr;
    }

    /** `execute_ffmpeg(args, ctx)`: the reading loop counts frame lines and
        reports every 30th, then the final notifications and the result. */
    method ExecuteFfmpeg(args: seq<string>, ctx: ProgressSink, child: Child)
      returns (result: Result<string>, command: Option<seq<string>>)
      modifies ctx
      ensures var x := Execute(currentVideo, args, child);
        result == x.outcome && command == x.command && ctx.events == old(ctx.events) + x.trace
    {
      if currentVideo.None? {
        var e := Error(InvalidInputError, "No video imported");
        ctx.Report(100, e.message, true);
        return Err(e), None;
      }
      command := Some(Command(currentVideo.value, args));
      match child
      case SpawnFails(reason) =>
        var e := Error(OSError, reason);
        ctx.Report(100, e.message, true);
        result := Err(e);
      case Exits(stderr, exitCode) =>
        var frames := ReadDiagnostics(stderr, ctx);
        ctx.Report(100, "Complete", false);
        if exitCode != 0 {
          var e := Error(VideoEditorError, FfmpegErrorMessage(stderr));
          ctx.Report(100, e.message, true);
          result := Err(e);
        } else {
          result := Ok("Success");
        }
    }
  }

  // ---------------------------------------------------------------------
  // The tools
  // ---------------------------------------------------------------------

  /** The output name of a trim started at clock reading `now`. */
  function TrimFileName(now: nat): string {
    "trim_" + NatToString(now) + ".mp4"
  }

  /** `OUTPUT_DIR / trim_<now>.mp4`. */
  function TrimOutput(config: Config, now: nat): PurePath {
    PurePath(config.outputDir.absolute, config.outputDir.parts + [TrimFileName(now)])
  }

  /** The trim output name is one plain component that sanitising keeps. */
  lemma TrimFileNameIsPlain(now: nat)
    ensures SanitizeFilename(TrimFileName(now)) == TrimFileName(now)
    ensures TrimFileName(now) != "" && TrimFileName(now) != "."
  {
    var name := TrimFileName(now);
    var digits := NatToString(now);
    assert '/' !in digits && '\0' !in digits;
    assert name == "trim_" + digits + ".mp4";
    assert '/' !in name && '\0' !in name;
    BasenameOfPlainName(name);
    RemoveNulOfClean(name);
  }

  /** The output path of a trim is `trim_<now>.mp4` below `OUTPUT_DIR`,
      unless that name is over the limit. The name is a parameter pinned to
      `TrimFileName(now)` so that the proof reasons about one string
      variable instead of unfolding the path functions over the literal text
      `"trim_" + ... + ".mp4"`, which the solver finds very costly. */
  lemma TrimOutputPath(config: Config, now: nat, name: string)
    requires ValidConfig(config) && name == TrimFileName(now)
    ensures OutputPath(config, name) ==
      if |name| > MaxFilenameLength then Err(Error(InvalidInputError, "Filename too long"))
      else Ok(PurePath(config.outputDir.absolute, config.outputDir.parts + [name]))
  {
    TrimFileNameIsPlain(now);
    OutputPathOfPlainName(config, name);
  }

  /** The checks and the ffmpeg arguments of `trim_video(start, end)`: both
      timestamps first, then the output path (the length check of
      `get_output_path`, see `TrimArgsViaOutputPath`), then the argument
      list. */
  function TrimArgs(config: Config, start: string, end: string, now: nat): (r: Result<seq<string>>)
    requires ValidConfig(config)
    ensures !ValidateTimestamp(start) || !ValidateTimestamp(end) ==>
      r == Err(Error(InvalidInputError, "Invalid timestamp format"))
    ensures r.Ok? <==>
      ValidateTimestamp(start) && ValidateTimestamp(end) && |TrimFileName(now)| <= MaxFilenameLength
    ensures r.Err? ==> r.error.cls == InvalidInputError
    ensures r.Ok? ==> r.value == ["-ss", start, "-to", end, "-c", "copy", PathStr(TrimOutput(config, now))]
  {
    if !ValidateTimestamp(start) || !ValidateTimestamp(end) then
      Err(Error(InvalidInputError, "Invalid timestamp format"))
    else
      var name := TrimFileName(now);
      TrimOutputPath(config, now, name);
      if |name| > MaxFilenameLength then Err(Error(InvalidInputError, "Filename too long"))
      else Ok(["-ss", start, "-to", end, "-c", "copy", PathStr(TrimOutput(config, now))])
  }

  /** After the timestamp checks, the trim arguments are those built from
      `get_output_path("trim_<now>.mp4")`: its error is the tool's error, and
      its path is the last argument. As in `TrimOutputPath`, the name is
      passed in, pinned to `TrimFileName(now)`, to keep the proof cheap. */
  lemma TrimArgsViaOutputPath(config: Config, start: string, end: string, now: nat, name: string)
    requires ValidConfig(config) && ValidateTimestamp(start) && ValidateTimestamp(end)
    requires name == TrimFileName(now)
    ensures TrimArgs(config, start, end, now) ==
      match OutputPath(config, name)
      case Err(e) => Err(e)
      case Ok(output) => Ok(["-ss", start, "-to", end, "-c", "copy", PathStr(output)])
  {
    TrimOutputPath(config, now, name);
  }

  /** One call of `trim_video`: invalid arguments stop it before anything is
      reported or spawned; otherwise it is one run of `execute_ffmpeg`. */
  function TrimRun(config: Config, current: Option<PurePath>, start: string, end: string,
                   now: nat, child: Child): Execution
    requires ValidConfig(config)
  {
    match TrimArgs(config, start, end, now)
    case Err(e) => Execution(None, [], Err(e))
    case Ok(args) => Execute(current, args, child)
  }

  /** An invalid start or end stops the trim before the output path, any
      notification or any process. */
  lemma TrimInvalidTimestamp(config: Config, current: Option<PurePath>, start: string, end: string,
                             now: nat, child: Child)
    requires ValidConfig(config)
    requires !ValidateTimestamp(start) || !ValidateTimestamp(end)
    ensures TrimRun(config, current, start, end, now, child) ==
      Execution(None, [], Err(Error(InvalidInputError, "Invalid timestamp format")))
  {
  }

  /** A trim before any import fails with `InvalidInputError` and spawns
      nothing. */
  lemma TrimBeforeImport(config: Config, start: string, end: string, now: nat, child: Child)
    requires ValidConfig(config)
    ensures var x := TrimRun(config, None, start, end, now, child);
      x.command.None? && x.outcome.Err? && x.outcome.error.cls == InvalidInputError
  {
  }

  /** Once the arguments are accepted (both timestamps valid, the output name
      within the limit) and a video is imported, ffmpeg is spawned with
      `-i <video> -ss <start> -to <end> -c copy <OUTPUT_DIR/trim_<now>.mp4>`. */
  lemma TrimCommand(config: Config, video: PurePath, start: string, end: string, now: nat,
                    child: Child)
    requires ValidConfig(config) && TrimArgs(config, start, end, now).Ok?
    ensures TrimRun(config, Some(video), start, end, now, child).command ==
      Some(["ffmpeg", "-i", PathStr(video), "-ss", start, "-to", end, "-c", "copy",
            PathStr(TrimOutput(config, now))])
  {
    var output := PathStr(TrimOutput(config, now));
    TrimRunSpawns(config, video, start, end, now, child);
    TrimCommandVector(video, start, end, output);
  }

  lemma TrimRunSpawns(config: Config, video: PurePath, start: string, end: string, now: nat,
                      child: Child)
    requires ValidConfig(config) && TrimArgs(config, start, end, now).Ok?
    ensures TrimRun(config, Some(video), start, end, now, child).command ==
      Some(Command(video, TrimArgs(config, start, end, now).value))
  {
    var args := TrimArgs(config, start, end, now).value;
    assert TrimRun(config, Some(video), start, end, now, child) == Execute(Some(video), args, child);
    ExecuteSpawns(video, args, child);
  }

  lemma ExecuteSpawns(video: PurePath, args: seq<string>, child: Child)
    ensures Execute(Some(video), args, child).command == Some(Command(video, args))
  {
  }

  lemma TrimCommandVector(video: PurePath, start: string, end: string, output: string)
    ensures Command(video, ["-ss", start, "-to", end, "-c", "copy", output]) ==
      ["ffmpeg", "-i", PathStr(video), "-ss", start, "-to", end, "-c", "copy", output]
  {
  }

  /** `trim_video(start, end)` against the editor's current video. */
  method TrimVideo(editor: VideoEditor, start: string, end: string, now: nat, ctx: ProgressSink,
                   child: Child)
    returns (result: Result<string>, command: Option<seq<string>>)
    requires ValidConfig(editor.config)
    modifies ctx
    ensures var x := TrimRun(editor.config, editor.currentVideo, start, end, now, child);
      result == x.outcome && command == x.command && ctx.events == old(ctx.events) + x.trace
  {
    var args := TrimArgs(editor.config, start, end, now);
    if args.Err? {
      return Err(args.error), None;
    }
    result, command := editor.ExecuteFfmpeg(args.value, ctx, child);
  }

  /** The reply of the `import_video` tool. */
  function ImportReply(config: Config, path: string, present: PurePath -> bool): (r: Result<string>)
    requires ValidConfig(config)
  {
    match ImportCheck(config, path, present)
    case Err(e) => Err(e)
    case Ok(video) => Ok("Successfully imported video: " + Name(video))
  }

  /** The reply names the imported file by its last path component. */
  lemma ImportReplyNamesFile(config: Config, path: string, present: PurePath -> bool)
    requires ValidConfig(config)
    ensures ImportReply(config, path, present).Ok? <==> ImportCheck(config, path, present).Ok?
    ensures ImportReply(config, path, present).Ok? ==>
      var parts := ParsePath(path).parts;
      |parts| >= 1 &&
      ImportReply(config, path, present).value == "Successfully imported video: " + parts[|parts| - 1]
  {
    if ImportCheck(config, path, present).Ok? {
      var name := Name(ParsePath(path));
      assert exists ext :: ext in VideoExtensions && EndsWithIgnoringCase(name, ext);
      assert name != "";
    }
  }

  /** The `import_video` tool: import, then reply with the file's name. */
  method ImportVideoTool(editor: VideoEditor, path: string, present: PurePath -> bool)
    returns (reply: Result<string>)
    requires ValidConfig(editor.config)
    modifies editor
    ensures reply == ImportReply(editor.config, path, present)
    ensures editor.currentVideo ==
      if reply.Ok? then Some(ParsePath(path)) else old(editor.currentVideo)
  {
    var video := editor.ImportVideo(path, present);
    match video
    case Err(e) => reply := Err(e);
    case Ok(v) => reply := Ok("Successfully imported video: " + Name(v));
  }
}
