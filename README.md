# Video editor MCP server: a Dafny model of its validators and ffmpeg runner

This project models the core of a small video editing server. The server
exposes two tools, `import_video` and `trim_video`. It keeps a single
"current video", confines imports to a configured input directory and
writes trimmed clips to a configured output directory. It runs ffmpeg as a
child process with a literal argument vector and streams progress
notifications while ffmpeg works.

The project has five modules:

- `Text` (text.dfy): decimal digits and Python's `str(n)`, substring search
  (`in` on strings), the text of a stream read in chunks, and ASCII
  lower-casing.
- `Errors` (errors.dfy): the exception classes `VideoEditorError`,
  `InvalidInputError` and `SecurityError`, plus `OSError` for a spawn
  failure. A `Result` stands for "returns or raises".
- `Paths` (paths.dfy): `str.split('/')`, the `PurePosixPath` operations the
  code uses, `os.path.realpath` as lexical normalisation against a working
  directory, and `os.path.commonpath` as the longest common component
  prefix.
- `Security` (security.dfy): `is_safe_path`, `validate_timestamp`,
  `validate_video_file` and `sanitize_filename`.
  - The timestamp check is a parser into `(H:)?M:SS(.F)?` pieces. It is
    proved to accept exactly the renderings of well-formed timestamps, each
    optionally followed by one newline.
- `Server` (server.dfy): the editor session, its ffmpeg run and the two
  tools.
  - The ffmpeg run is specified by a function, `Execute`, from the current
    video, the arguments and the child's behaviour to the spawned command,
    the progress notifications and the result.
  - The class method `VideoEditor.ExecuteFfmpeg` runs the reading loop over
    a `ProgressSink` and is proved equal to `Execute`.
  - Lemmas about `Execute` prove the progress protocol: notifications never
    decrease, the last one is 100, the error flag is set exactly on failure,
    and the argument vector is literal.

The outside world appears as parameters:

- whether a path exists is an oracle `present: PurePath -> bool`;
- the working directory used to resolve relative paths is part of `Config`;
- the clock reading used in the trim output name is the natural number `now`;
- the child process is a `Child` value: it either fails to spawn with an
  operating-system reason, or writes diagnostic lines and exits with a code.

Three details of the ffmpeg run, as the code does them:

- `(100, "Complete")` is reported before the exit code is inspected. A
  failed run therefore reports `(100, "Complete")` and then the
  error-flagged 100.
- Success returns the literal `"Success"`.
- `FFMPEG_TIMEOUT` is read (src/video_editor/config.py:19) but never used.

One detail of the run model is corrected rather than as written: the text
of the error raised on a non-zero exit. As written it is always
`FFmpeg error: ` with nothing after it (see "## Findings"). `Execute` and
`VideoEditor.ExecuteFfmpeg` carry the corrected text,
`FfmpegErrorMessage(stderr)`, which holds ffmpeg's diagnostic lines. The
error-flagged 100 that follows it carries the same corrected text. The text
as written is `FfmpegErrorAsWritten(stderr)`.

## Model

| member | source | states |
|---|---|---|
| Text.NatToStringValue | src/video_editor/server.py:79 | the decimal rendering used in progress messages and file names reads back as the same number |
| Text.ToLowerAscii | src/video_editor/security.py:70 | `.lower()` keeps the length and leaves no upper-case ASCII letter; every other character is kept, and each upper-case letter becomes the letter 32 code points above it |
| Text.LowerEqualIffCaseless | src/video_editor/security.py:70 | two equal-length strings lower-case to the same text exactly when, at every position, their characters are equal or are the two cases of one letter |
| Paths.JoinSplit | src/video_editor/security.py:33-34 | splitting a path at `/` loses nothing: joining the pieces gives the path back |
| Paths.ParsePath | src/video_editor/security.py:66 | `Path(s)` keeps only non-empty, non-`.` parts without separators, and is absolute exactly when `s` starts with `/` |
| Paths.SplitSeparator | src/video_editor/security.py:66 | splitting at a `/` splits the text on each side of it independently |
| Paths.SplitJoin | src/video_editor/security.py:66 | splitting the `/`-join of separator-free pieces gives back the same pieces |
| Paths.KeepPartsAppend | src/video_editor/security.py:66 | `Path(s)` filters the split pieces in order: a concatenation is filtered side by side |
| Paths.KeepPartsCons | src/video_editor/security.py:66 | a leading piece is kept exactly when it is neither `''` nor `.`, and the rest is filtered after it |
| Paths.ParsePathStr | src/video_editor/security.py:66 | `Path(str(p)) == p` for every path: parsing gives back the root flag and every part, in order |
| Paths.JoinPathComponent | src/video_editor/server.py:48 | `dir / name` with a separator-free name appends exactly that name, or nothing for `''` and `.` |
| Paths.RealPath | src/video_editor/security.py:33-34 | resolution fails exactly on an embedded NUL, and otherwise yields only plain names (no `.`, `..` or empty parts) |
| Paths.NormalizeCanonical | src/video_editor/security.py:33-34 | resolving a path that is already canonical leaves it unchanged |
| Paths.CommonPrefix | src/video_editor/security.py:35 | `commonpath` is a component prefix of both paths and the longest one |
| Paths.CommonPrefixIsSecond | src/video_editor/security.py:35 | the common path equals the base exactly when the base is a component prefix of the path |
| Security.IsSafePath | src/video_editor/security.py:21-37 | safe exactly when neither path holds a NUL and the resolved base is a component prefix of the resolved path |
| Security.BaseIsSafe | src/video_editor/security.py:21-37 | the base directory is inside itself |
| Security.SiblingIsNotSafe | src/video_editor/security.py:33-35 | a sibling whose name extends the base's last name is outside the base |
| Security.SiblingExample | src/video_editor/security.py:33-35 | `/w/input2` is not inside `/w/input` |
| Security.TraversalIsSafeIff | src/video_editor/security.py:33-35 | `base/../name` is inside `base` exactly when `name` is the base's own last name |
| Security.ParseTimestamp | src/video_editor/security.py:49-50 | an accepted text is a well-formed timestamp's rendering, possibly followed by one newline |
| Security.ParseRender | src/video_editor/security.py:49-50 | every well-formed timestamp, with or without a trailing newline, is parsed back into its own pieces |
| Security.TimestampLanguage | src/video_editor/security.py:39-50 | `validate_timestamp` accepts exactly the language `(\d+:)?[0-5]?\d:[0-5]\d(\.\d+)?`, optionally followed by one newline |
| Security.TimestampFieldsBounded | src/video_editor/security.py:49 | an accepted timestamp parses into well-formed pieces whose minutes and seconds are at most 59 |
| Security.TimestampAcceptsClock | src/video_editor/security.py:49-50 | `00:01:30` is accepted |
| Security.TimestampAcceptsNewline | src/video_editor/security.py:49-50 | `00:01:30` followed by a newline is accepted |
| Security.TimestampAcceptsFraction | src/video_editor/security.py:49-50 | `1:02:03.500` is accepted |
| Security.TimestampRejected | src/video_editor/security.py:49-50 | `99:99`, `abc` and the empty string are rejected |
| Security.RejectsNoColon | src/video_editor/security.py:49-50 | text without a colon is never a timestamp |
| Security.Basename | src/video_editor/security.py:88 | `basename` is the separator-free tail of the path after its last `/` |
| Security.RemoveNul | src/video_editor/security.py:90 | removing NULs keeps every other character with its multiplicity and leaves no NUL |
| Security.RemoveNulAppend | src/video_editor/security.py:90 | removing NULs keeps the order: a concatenation is cleaned side by side |
| Security.RemoveNulCons | src/video_editor/security.py:90 | a leading character is dropped exactly when it is NUL, and the rest is cleaned after it |
| Security.SanitizeFilename | src/video_editor/security.py:78-93 | the sanitised name has no `/` and no NUL and is no longer than the input |
| Security.SanitizeIdempotent | src/video_editor/security.py:78-93 | sanitising twice is sanitising once |
| Security.SanitizeTraversal | src/video_editor/security.py:88-90 | `../../etc/passwd` sanitises to `passwd` |
| Security.SanitizeKeepsDotDot | src/video_editor/security.py:88-90 | `..` passes through sanitising unchanged |
| Security.Suffix | src/video_editor/security.py:70 | the suffix is empty or a final `.ext` that neither starts nor ends the name |
| Security.SuffixAllowedIff | src/video_editor/security.py:70 | the lower-cased suffix is allowed exactly when the name ends, ignoring case, with an allowed extension preceded by something |
| Security.DotfileHasNoSuffix | src/video_editor/security.py:70 | `.mp4` has no suffix while `clip.MP4` has `.MP4` |
| Security.ValidateVideoFile | src/video_editor/security.py:52-76 | accepted exactly when the file exists and has an allowed extension, returning the unresolved path; otherwise `InvalidInputError` with the existence message first, then the format message |
| Server.ProgressSink.Report | src/video_editor/server.py:79 | a notification is appended to those already sent |
| Server.OutputPath | src/video_editor/server.py:43-48 | refused with "Filename too long" exactly when the sanitised name exceeds 255; otherwise the output directory plus that one name |
| Server.OutputPathOneComponent | src/video_editor/server.py:43-48 | the output path extends the output directory by at most one part, which has no `/` and no NUL |
| Server.OutputPathOfPlainName | src/video_editor/server.py:43-48 | a name that sanitising keeps is appended as it is, or refused when too long |
| Server.OutputPathTraversal | src/video_editor/server.py:45-48 | `../../etc/passwd` becomes `OUTPUT_DIR/passwd` |
| Server.OutputPathDotDot | src/video_editor/server.py:45-48 | `..` becomes `OUTPUT_DIR/..` |
| Server.CountFrames | src/video_editor/server.py:75-76 | the frame count never exceeds the number of lines read |
| Server.CountFramesAppend | src/video_editor/server.py:75-76 | the count adds up over a concatenation, and one line counts 1 exactly when it contains `frame=`: the count is the number of lines with the marker |
| Server.FrameProgressClosedForm | src/video_editor/server.py:65-79 | one notification per 30 frame lines; the k-th reports `min(95, k+1)` percent and `30(k+1)` frames |
| Server.FrameProgressBounded | src/video_editor/server.py:77-79 | intermediate notifications are between 1 and 95 percent, never decrease and are not errors |
| Server.FfmpegErrorAsWrittenDropsStderr | src/video_editor/server.py:67-85 | as written, the error text is always just `FFmpeg error: ` |
| Server.FfmpegErrorAsWrittenExample | src/video_editor/server.py:67-85 | ffmpeg's diagnostic line is missing from the error text as written |
| Server.FfmpegErrorMessage | src/video_editor/server.py:85 | the corrected error text starts with `FFmpeg error: ` and contains every diagnostic line |
| Server.ExecuteTraceMonotone | src/video_editor/server.py:50-92 | every run sends at least one notification; they lie in 1..100, never decrease, and the last is 100 |
| Server.ExecuteOutcome | src/video_editor/server.py:50-92 | success exactly when a video is imported and ffmpeg starts and exits 0, then ending on `(100, "Complete")` with no error; a failure ends on an error-flagged 100 carrying the error text |
| Server.ExecuteNonzeroExit | src/video_editor/server.py:81-92 | a non-zero exit reports `(100, "Complete")`, then the error-flagged 100 with a `VideoEditorError`; with the corrected error text of "## Findings", that text holds the diagnostics, where the code as written gives `FFmpeg error: ` alone |
| Server.ExecuteWithoutVideo | src/video_editor/server.py:53-54 | without an import nothing is spawned; the only notification is the error 100 and the error is `InvalidInputError` |
| Server.ExecuteCommand | src/video_editor/server.py:56-62 | a process is spawned exactly when a video is imported, with argument vector `ffmpeg -i <video>` followed by the caller's arguments unchanged |
| Server.ImportCheck | src/video_editor/server.py:35-41 | accepted exactly when the file validates and resolves inside the input directory; a valid file outside it gets the "Access denied" `SecurityError` |
| Server.ImportCheckContained | src/video_editor/server.py:35-41 | an accepted import exists, has an allowed extension and resolves below the resolved input directory |
| Server.VideoEditor.constructor | src/video_editor/server.py:32-33 | a new editor has no current video |
| Server.VideoEditor.ImportVideo | src/video_editor/server.py:35-41 | the video becomes current only on success; a failed import leaves the current video unchanged |
| Server.VideoEditor.ReadDiagnostics | src/video_editor/server.py:65-79 | reading the diagnostic lines counts exactly the frame lines and sends exactly the frame notifications of `FrameProgress` |
| Server.VideoEditor.ExecuteFfmpeg | src/video_editor/server.py:50-92 | a run sends exactly the notifications of `Execute` and returns its result and command; on a non-zero exit its error carries the corrected text of "## Findings", not the empty text as written |
| Server.TrimFileNameIsPlain | src/video_editor/server.py:102 | `trim_<now>.mp4` is one plain name that sanitising keeps |
| Server.TrimOutputPath | src/video_editor/server.py:102 | the trim output is `OUTPUT_DIR/trim_<now>.mp4`, unless that name is over the limit |
| Server.TrimArgs | src/video_editor/server.py:96-109 | an invalid start or end is refused with "Invalid timestamp format" before anything else; otherwise it succeeds exactly when the output name is within the limit, giving `-ss start -to end -c copy OUTPUT_DIR/trim_<now>.mp4` |
| Server.TrimArgsViaOutputPath | src/video_editor/server.py:102-109 | once the timestamps are valid, the arguments are those built from `get_output_path("trim_<now>.mp4")`, including its error |
| Server.TrimInvalidTimestamp | src/video_editor/server.py:99-100 | an invalid start or end raises "Invalid timestamp format" with no notification and no process |
| Server.TrimBeforeImport | src/video_editor/server.py:96-111 | trimming before any import fails with `InvalidInputError` and spawns nothing |
| Server.TrimCommand | src/video_editor/server.py:102-111 | once the arguments are accepted and a video is imported, ffmpeg gets `-i <video> -ss <start> -to <end> -c copy OUTPUT_DIR/trim_<now>.mp4` |
| Server.TrimVideo | src/video_editor/server.py:96-111 | the tool returns what the trim run returns and sends its notifications |
| Server.ImportReplyNamesFile | src/video_editor/server.py:113-118 | the reply succeeds exactly when the import does and names the file by its last path component |
| Server.ImportVideoTool | src/video_editor/server.py:113-121 | the tool replies as `ImportReply` does and sets the current video only on success |

## Left out

- Unicode: `\d` is modelled as the ASCII digits and `.lower()` as ASCII lower-casing. Python's `\d` also accepts other decimal digits, and `.lower()` maps a few non-ASCII characters, such as the Kelvin sign, to ASCII letters.
- Paths.RealPath: resolves components lexically and does not follow symbolic links. A link inside the input directory that points outside is judged by its name, not its target.
- Paths.ParsePath: does not model POSIX's special leading `//`. Such a path is treated like one with a single `/`.
- File existence (`Path.exists()`) is an oracle parameter. File sizes, the configured maximum file size and directory creation are not modelled.
- Security.IsSafePath: models the `ValueError` for an embedded NUL as an unsafe answer. This is what current Python versions raise from `realpath`; older versions can behave differently.
- Asynchronous I/O: the suspension points, cancellation and concurrent requests are not modelled. A run is one sequential function of the child's behaviour.
- Decoding: ffmpeg's output lines are already decoded text. A `UnicodeDecodeError` from `line.decode()` is not modelled.
- Logging: the `ctx.info` messages and `logger` calls are not modelled.
- Server.ProgressSink.Report: takes the call shape the code uses, `report_progress(percent, message, error)`. The hosting library's own signature for that call is not part of this model. If its `report_progress` has no `error` parameter, each error path at src/video_editor/server.py:91 raises a `TypeError` in place of the modelled error, and no error-flagged 100 is sent. The model assumes the call succeeds. This is not checked against the library.
- The configured timeout: `FFMPEG_TIMEOUT` is never used by the code, so it is not modelled.
- The clock: `int(time.time())` is the parameter `now`.
- Configuration loading: the environment and `.env` files are replaced by the `Config` value.
- src/video_editor/newserver.py: not part of this model.
- The tool transport: the stdio server is not part of this model.

## Findings

| source | as written | input that shows it | evidently intended | confidence | as-written member | corrected member |
|---|---|---|---|---|---|---|
| src/video_editor/server.py:67-85 | the loop reads stderr to end-of-stream, so `communicate()` returns empty stderr and the error is always `FFmpeg error: ` | ffmpeg writes `Invalid data found when processing input` and exits 1; the raised text is `FFmpeg error: ` with no diagnostic | the error carries ffmpeg's diagnostic output | not executed | Server.FfmpegErrorAsWrittenExample | Server.FfmpegErrorMessage |
