# process_media: the movie-processing decisions, modelled in Dafny

`process_media.py` runs a media library through ffmpeg. This project models
the decision logic of its movies mode, and the framing of ffmpeg's progress
stream, as pure functions over immutable data:

- **Probe classification** (`Resolution`). The first video stream's width is
  mapped to the height of the first entry of the table 2160/3840, 1080/1920,
  720/1280, 480/720 whose width, less 10 pixels, it exceeds. Otherwise the
  result is `-1`.
- **Name rules** (`Names`, `Paths`):
  - the ` - {height}p.mp4` marker that `is_processed` tests;
  - the output name `{base_name} - {height}p.mp4`;
  - the two `re.match` patterns that recover the base name `Title (Year)`
    and the title;
  - the `, The` display rewrite;
  - the extension filter;
  - POSIX `os.path.join`.
- **Action log** (`Effects`). Every file operation is an action rather than
  an effect:
  - an `Encode` for each `_encode_video` call;
  - a `Run` for each statement passed to `_run`;
  - a `Direct` for `os.makedirs`/`os.chmod`, which are called directly.

  On a dry run only the `Direct` actions take effect. Uncaught exceptions
  are modelled as `Crash` values:
  - a failed `re.match`/`re.search` followed by `.group`;
  - an unbound `master_file`.
- **The resolution ladder** (`Ladder`). `_process_resolution` is one step
  over the state `(current_resolution, source_file)`. The loop of
  `_process_movie_file` runs it over the table's heights, and the closing
  block files the final file under `output/{height}p/{folder}`.
- **Duplicate resolution** (`Duplicates`):
  - `_find_highest_res`, with the regex `(\d+)p.mp4` modelled as Python's
    leftmost search;
  - `_check_movies`;
  - the grouping of walked files that `_find_files` performs before it.
- **Progress framing** (`Progress`). The receive loop of
  `_do_watch_progress` is a fold over the chunks `recv` returns. It cuts
  lines at `\n`, splits each complete line at `=` into a handler call, and
  carries the unfinished tail.

`Wrappers` (Option/Result) and `Strings` (prefix/suffix tests, split/join,
digit strings, `str(int)`) are shared helpers.

Two facts of the code that the model keeps:

- `os.makedirs`/`os.chmod` on output directories (lines 322-323 and
  449-450) are called directly, not through `_run`, so they run even when
  `dry_run` is set. `Effects.Effective` keeps those actions on a dry run.
- The progress handler passes the raw `out_time - bar.pos` difference to
  the gauge; nothing clamps it. The handler is not modelled, see below.

## Model

| member | source | states |
|---|---|---|
| `Resolution.WidthOf` | process_media.py:136-141 | the width the table gives a height is that height's entry's width |
| `Resolution.HeightsOfTable` | process_media.py:136-141 | the ladder's rungs are the table's heights in iteration order |
| `Resolution.FirstFit` | process_media.py:402-405 | the index returned is the first table entry the width exceeds less the tolerance; none exists exactly when no entry fits |
| `Resolution.ClassifyWidth` | process_media.py:401-407 | the classifier answers -1 exactly for widths of at most 710, and a table height otherwise |
| `Resolution.ClassifyBands` | process_media.py:401-407 | each height is returned for exactly its band of widths: above 3830, 1911-3830, 1271-1910, 711-1270 |
| `Resolution.ClassifyMonotone` | process_media.py:401-407 | a wider stream is never classified lower |
| `Resolution.FirstVideo` | process_media.py:388-395 | the stream found is the first whose codec type is `video`, and none is found only when there is no video stream |
| `Resolution.ProbeFile` | process_media.py:383-407 | the probe is -1 without a video stream and otherwise the classification of the first video stream's width |
| `Names.OutputName` | process_media.py:421 | the output name is exactly the base name followed by the ` - {res}p.mp4` marker: it starts with the base name, ends with the marker (passes the processed test for its own height) and is exactly as long as the two together |
| `Names.ProcessedIffOutputName` | process_media.py:420-421 | a name passes the processed test for a height exactly when it is some base's output name for that height |
| `Names.MarkersDistinct` | process_media.py:420-421 | an output name for one height never passes the processed test for another |
| `Names.ParseTitle` | process_media.py:425 | the title is the longest prefix of the base name followed by ` (dddd)` with no newline before it; none exactly when there is no such prefix |
| `Names.TitleRoundTrip` | process_media.py:425 | the title of `Title (Year)` is `Title` |
| `Names.BaseName` | process_media.py:293 | the base name is the file name up to and including a `(digits)` reachable without a newline after which no other `(digits)` starts; none exactly when there is none |
| `Names.BaseNameRoundTrip` | process_media.py:293 | a name `stem(digits)` followed by text without `(` has base name `stem(digits)` |
| `Names.ArticleFronted` | process_media.py:426-427 | a title `X, The` is displayed as `The X` |
| `Names.OtherTitlesUnchanged` | process_media.py:426-427 | a title not ending in `, The` is displayed unchanged |
| `Names.DisplayTitleExample` | process_media.py:425-427 | `Movie, The (2020)` is displayed as `The Movie` |
| `Names.Extension` | process_media.py:201 | the extension has no dot and is either the whole name or what follows its last dot |
| `Names.ExtensionRoundTrip` | process_media.py:201 | the extension of `stem.ext` is `ext` whatever dots the stem holds |
| `Names.AllowedIff` | process_media.py:201-203 | a name is kept exactly when it is an allowed extension itself or ends in a dot followed by one |
| `Paths.LastComponent` | process_media.py:274 | the folder name has no slash and is the whole directory path or the part after its last slash |
| `Paths.JoinedLastComponent` | process_media.py:272-274 | a slash-free name joined onto any directory is that path's last component again |
| `Effects.Effective` | process_media.py:527-531 | a real run performs every action; a dry run performs exactly the directly called ones |
| `Effects.EffectiveAppend` | process_media.py:527-531 | the actions that take effect keep the log's order: those of a log's first part, then those of the rest |
| `Effects.DryRunOnlyPreparesDirectories` | process_media.py:527-531 | when the only direct calls prepare directories, a dry run does nothing else |
| `Ladder.Relocate` | process_media.py:453-461 | the pre-encode file is placed at the kept path exactly when it was processed, and vacated exactly on delete; a processed file ends with a chmod of the kept path; nothing happens but moving or copying the pre-encode file to the kept path, setting that path's mode, or removing the pre-encode file, in two actions for a processed file, one for an unprocessed one on delete, and none otherwise |
| `Ladder.EncodeStep` | process_media.py:442-461 | the encoding branch lands on the target height holding a name that starts with the base name and is marked for that height; its first action encodes the working file into that name at the target height, and every action after the directory preparation is part of the relocation |
| `Ladder.EncodeStepShape` | process_media.py:442-461 | the encoding branch encodes only at its target height and calls nothing directly but the preparation of a directory |
| `Ladder.ProcessResolution` | process_media.py:409-463 | with the relocated file keeping its own name (see Findings): a step crashes exactly on a base name without title; it always lands on the target height holding a file processed for it; a reusable file gives no action; otherwise encode to the output name built from the base name (not the display title), prepare the directory, relocate |
| `Ladder.ProcessResolutionAsWritten` | process_media.py:444-451 | as written, a processed pre-encode file is placed under the new output's name in the old height's directory |
| `Ladder.AsWrittenMislabelsRelocatedFile` | process_media.py:444-461 | as written, a processed file relocated in its own height's directory carries the lower height's marker and not its own |
| `Ladder.RelocationKeepsOwnResolution` | process_media.py:446-461 | the corrected step files a processed pre-encode file in its own height's directory under a name marked with that height |
| `Ladder.Rung` | process_media.py:409-463 | either variant of the step crashes exactly on a base name without title and otherwise lands on the target height holding a file processed for it |
| `Ladder.VariantsSameState` | process_media.py:444-463 | the step as written and the corrected step end in the same state and log equally many actions; on an encode both log the same encode and directory preparation first, and then relocate the same file under the same rules, differing only in the destination name (the new output's name as written, the file's own name corrected); with an unprocessed pre-encode file, or a reused rung, the logs are identical |
| `Ladder.RungIsReentrant` | process_media.py:439-440 | running a rung again on the state it produced does nothing |
| `Ladder.PlanSpec` | process_media.py:300-308 | the planned rungs are exactly the table heights at or below the source, without 480 above SD, strictly descending |
| `Ladder.PlanExamples` | process_media.py:300-308 | 2160 plans 2160, 1080, 720; 1080 plans 1080, 720; 720 plans 720; 480 plans 480 |
| `Ladder.StepShape` | process_media.py:439-461 | one rung encodes only at its target height and calls nothing directly but directory preparation |
| `Ladder.LadderFollowsPlan` | process_media.py:300-317 | the loop visits exactly the planned rungs, encodes only at them, and ends on the last one holding a file marked for it |
| `Ladder.LadderVariantsAgree` | process_media.py:300-317 | the loop as written and the corrected loop succeed on the same inputs and then visit the same rungs and end in the same state |
| `Ladder.LadderSucceedsIffTitled` | process_media.py:300-317 | over the table's heights the loop succeeds exactly when the base name has a title |
| `Ladder.LadderCrashesOnlyOnTitle` | process_media.py:300-317 | the loop crashes exactly when some rung is visited and the base name has no title |
| `Ladder.FileResult` | process_media.py:319-332 | the final filing prepares the height's directory, places the working file there under its name (moving it exactly on delete, copying it otherwise, always from the input directory), sets its mode, and then removes the input directory exactly on delete, with no other action |
| `Ladder.ProcessMovieFile` | process_media.py:271-332 | for either variant of the step: a probe of -1 (no video stream, or too narrow) gives no action; a name without base name crashes; otherwise the run succeeds exactly when the base name has a title |
| `Ladder.PlanHasSource` | process_media.py:300-308 | a probed height is itself planned, and the last planned rung is 720, or 480 for an SD source |
| `Ladder.FiledLog` | process_media.py:319-332 | after the final filing the log places the file in the final height's directory, keeps the ladder's guarantees, and ends with the input's removal exactly on delete |
| `Ladder.MovieFiledUnderLowestRung` | process_media.py:283-332 | for either variant of the step, a titled movie is filed, marked for the lowest planned height, in that height's directory; it encodes only at planned heights; a dry run still creates the directory |
| `Duplicates.Captured` | process_media.py:245-246 | the captured group is the longest run of digits starting at the match: all digits, and not followed by another digit |
| `Duplicates.FirstResAt` | process_media.py:245 | the search finds the leftmost position where `(\d+)p.mp4` matches, and none when it matches nowhere |
| `Duplicates.SearchResSpec` | process_media.py:245-246 | the search fails exactly when the pattern matches nowhere, and otherwise reads the leftmost match's digits |
| `Duplicates.FirstPlain` | process_media.py:241-244 | the first scan stops at the first name not ending in `p.mp4` |
| `Duplicates.ScanSucceedsIff` | process_media.py:241-246 | the first loop succeeds exactly when every name it searches matches |
| `Duplicates.ScanFindsMax` | process_media.py:240-248 | the first loop finds the largest resolution among the names before the first plain one |
| `Duplicates.ScanStopsAtPlain` | process_media.py:241-244 | the first loop records the first plain name as the master candidate |
| `Duplicates.ScanHighestSucceeds` | process_media.py:240-248 | the first loop's success, maximum and stopping name together |
| `Duplicates.ScanHighestFails` | process_media.py:245-246 | a failing first loop fails on the first searched name with no match |
| `Duplicates.ScanFailsAtMiss` | process_media.py:245-246 | a failing first loop fails inside the scanned names, at the first name the search finds nothing in, with that name in the error |
| `Duplicates.FirstEnding` | process_media.py:250-253 | the second loop picks the first name ending in the tag, and none only when no name does |
| `Duplicates.FindHighestRes` | process_media.py:239-257 | the master is one of the names, and a first name without `p.mp4` is the master |
| `Duplicates.FindHighestResCrashes` | process_media.py:241-246 | a searched name without a match crashes the search |
| `Duplicates.FindHighestResPicksTag` | process_media.py:249-253 | with a positive maximum carried by some name's ending, the master is the first name ending in `{max}p.mp4` |
| `Duplicates.FindHighestResFallsBack` | process_media.py:242-253 | otherwise the master is the first plain name, and without one `master_file` is unbound |
| `Duplicates.TagSuffixUnique` | process_media.py:251 | a name ending in ` - {n}p.mp4` ends in `{m}p.mp4` for no `m >= n` but `n` |
| `Duplicates.CanonicalHighestWins` | process_media.py:239-253 | among names in the script's own naming, the master has the highest resolution and is the first name of it |
| `Duplicates.DuplicateExample` | process_media.py:239-253 | of `Movie - 1080p.mp4` and `Movie - 720p.mp4` the 1080p file is the master |
| `Duplicates.RemoveFirst` | process_media.py:231 | removing a name drops exactly one occurrence of it |
| `Duplicates.IndexOf` | process_media.py:231 | the position found holds the name, and no earlier position does |
| `Duplicates.RemoveFirstKeepsOrder` | process_media.py:231 | removing a name drops its first occurrence and keeps every other name in order |
| `Duplicates.ResolveGroup` | process_media.py:224-237 | the master is one of the directory's files, and a lone file is the master with nothing removed |
| `Duplicates.ResolveGroupSpec` | process_media.py:225-231 | several files resolve exactly when the search does, the master is the search's choice, and the removed names are the rest, as a multiset |
| `Duplicates.RemoveAll` | process_media.py:232-234 | each removed name gets an `os.remove` of its path in its directory, in order |
| `Duplicates.FirstUnresolved` | process_media.py:223-231 | the directories before the one found resolve, and that one's master search crashes |
| `Duplicates.CheckMovies` | process_media.py:222-237 | the run crashes exactly when some directory's master search crashes, with the first such crash; the directories before it stay processed: one queued path per directory, its master's, in order (their removals, which stay in the log, are stated by `CheckMoviesRemovesSiblings` and `CheckMoviesRemovesEverySibling`) |
| `Duplicates.CheckMoviesAccountsForEveryFile` | process_media.py:222-237 | the queued paths and the removals together are as many as the files of the directories handled before the first crash |
| `Duplicates.CheckMoviesHandlesEveryFile` | process_media.py:222-237 | in a directory handled before the first crash every file is either its master, queued under the directory, or removed there |
| `Duplicates.CheckMoviesRemovesSiblings` | process_media.py:230-234 | every removal takes away a non-master sibling in its own directory, in a directory handled before the first crash |
| `Duplicates.CheckMoviesRemovesEverySibling` | process_media.py:230-234 | every non-master sibling in a directory handled before the first crash is removed, in its own directory |
| `Duplicates.KeepAllowedSpec` | process_media.py:200-206 | the kept names of a directory are exactly its names with an allowed extension |
| `Duplicates.EntryGroup` | process_media.py:199-206 | a walked directory contributes at most one non-empty group, under its own path |
| `Duplicates.CollectGroupsMembership` | process_media.py:199-206 | a name is listed under a directory exactly when the walk found it there with an allowed extension |
| `Duplicates.AllPaths` | process_media.py:213-216 | the queue holds one path per listed file, and a path is queued exactly when it is a listed file joined to its directory |
| `Duplicates.FindFiles` | process_media.py:194-216 | outside the movies mode the queue is every listed file joined to its directory, with no removal and no crash; in the movies mode the outcome is `CheckMovies` of the grouped walk, with at most one path per directory, and exactly one without a crash |
| `Duplicates.FindFilesQueuesEligible` | process_media.py:199-216 | outside the movies mode every file the walk found with an allowed extension is queued, joined to its directory |
| `Duplicates.FindFilesQueuesOnlyEligible` | process_media.py:199-216 | outside the movies mode every queued path is such a file joined to its directory |
| `Progress.ParseLine` | process_media.py:49-52 | the key is the text before the first `=` and never absent; the value is absent without `=` and otherwise the `=`-free text after the first `=` |
| `Progress.ParseLinesAt` | process_media.py:47-52 | the i-th complete line gives the i-th handler call |
| `Progress.Receive` | process_media.py:45-53 | the carried data after a chunk holds no newline |
| `Progress.WatchFrames` | process_media.py:41-53 | watching non-empty chunks dispatches the complete lines of the carried data and all the chunks in order, and keeps the unfinished line |
| `Progress.WatchDispatchesTerminatedLines` | process_media.py:41-53 | from the start, the handler gets exactly the newline-terminated lines of the received bytes in order; the tail after the last newline is never handled |
| `Progress.ChunkingIndependent` | process_media.py:41-53 | how `recv` cuts the stream into chunks does not change what the handler gets |
| `Progress.StopsAtEmptyChunk` | process_media.py:42-44 | an empty chunk ends the loop; nothing after it is handled |

## Left out

- `show_progress` and the pacbar gauge: its effect depends on
  `pacbar.update`, which is not part of this model. The code passes the raw
  `out_time - bar.pos` delta, so no non-negative-delta rule is modelled.
- Sockets, gevent greenlets, `gevent.kill` and the temporary directory. Only
  the framing fold over chunks is modelled. The `recv(16)` chunk size is
  arbitrary because the fold is chunking-independent. `line.decode()` is
  left out: keys and values stay byte strings. A line that is not valid
  UTF-8 makes `line.decode()` (line 48) raise `UnicodeDecodeError` inside
  the watching greenlet; the `finally` closes the connection and the
  greenlet ends, so no later progress line is handled. The model
  dispatches every terminated line.
- ffmpeg probing and encoding: the encoder options, the duration arithmetic
  (floating point) and the threads option. The encoder is the opaque
  `Encode` action, and the probe result is the input `streams`.
- Failures of ffmpeg: a failed encode prints the error and ends the program
  with `sys.exit(1)` (lines 522-525), and a failing `ffmpeg.probe` (lines
  387 and 486) raises. The model treats every `Encode` action and every
  probe as succeeding.
- Ladder.ProcessResolution: this step files a processed pre-encode file
  under its own name. Line 451 as written uses the new output's name (see
  Findings). `Ladder.ProcessResolutionAsWritten` models the lines as
  written. `Ladder.ProcessMovieFile` takes the variant as a parameter:
  `AsWritten` follows the code as written, `Corrected` the corrected step.
- The `eval` inside `_run`, the os/shutil operations and permission bits.
  They are actions in a log, not file-system effects.
- Paths are assumed free of `"` and `\`. Every `_run` statement pastes its
  paths between `"` in a Python f-string (lines 234, 327-332, 455-461), and
  `eval` (line 531) parses it. A path holding `"` raises `SyntaxError`, and
  one holding `\` is read with its escape sequences, so it can name another
  file (`\n` becomes a newline). The model records the operation on the
  path as given.
- The `os.walk` traversal: the walk is an input list of directories with
  distinct paths, as `os.walk` reports them. `os.path.basename`/`dirname` of
  the queued path are inputs of `Ladder.ProcessMovieFile`.
- Logging: the verbose output, the "Found unknown file" message and the
  counts.
- The click CLI, `main`, the singleton lock and the fake progress sleep loop.
- `_process_files` and `_process_music_file`: iteration over the queue, and
  the music path's ffmpeg call with its `flac`→`mp3` name replace. The
  television mode queues files but `process` never processes them.
- `\d` is read as ASCII digits. Python's `re` also accepts other Unicode
  decimal digits.
- The three `.group` crashes (lines 246, 293 and 425) and the unbound
  `master_file` end the model's run as `Crash` values. The exception text
  and traceback are left out.

## Findings

| source | as written | input that shows it | evidently intended | confidence | as-written member | corrected member |
|---|---|---|---|---|---|---|
| process_media.py:444-451 | `source_file` is reassigned to the new output's name before `source_to_path` is built. A processed file that is kept at its own height is therefore moved or copied under the lower height's name. | A source `Movie (2020) - 2160p.mp4` probed at 2160: the 1080 rung places it at `output/2160p/{folder}/Movie (2020) - 1080p.mp4`. | The relocated file keeps its own name, `Movie (2020) - 2160p.mp4`, in the directory of its own height. | high; not executed | `Ladder.AsWrittenMislabelsRelocatedFile` | `Ladder.RelocationKeepsOwnResolution` |
