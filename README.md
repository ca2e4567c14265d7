# cuda_vmaf_stuff, modelled in Dafny

This project models two scripts from cuda_vmaf_stuff and proves properties of them.

`find_crf.py` finds the x264/NVENC CRF whose VMAF score comes closest to a target. Its model covers:

- a binary search over CRF 18..51, limited to ten rounds;
- reading the score from ffmpeg's standard error with `VMAF score: (\d+\.\d+)`;
- reading the stream's `r_frame_rate`;
- where the test sample starts;
- the choice of encoder and the ffmpeg argument list.

`ab-av1-gui.py` is a Tk window that runs an encoding command template over a queue of files. Its model covers:

- the list of files the user edits;
- the FIFO queue the worker thread drains;
- the encoding flag and the cancellation token;
- the progress bar;
- the output path `<stem>_<timestamp><ext>` built next to each input;
- the shell command built by substituting `{filePath}` and `{outputFile}` into the template.

Modules:

- `Decimal`: the subsets of Python's `str(int)`, `int(str)` and `float(str)` that the scripts use.
- `PyString`: Python's `str.find`/`rfind`, `in`, `replace` and `strip`.
- `PosixPath`: `os.path.basename`, `dirname`, `splitext` and `join` on POSIX.
- `VmafScore`: the score search in ffmpeg's output.
- `VideoProbe`: the frame rate and the sample start.
- `EncodeArgs`: the encoder choice and the ffmpeg arguments.
- `CrfSearch`: `find_best_crf`. The loop is a method, proved against the function `Search`, which describes every round.
- `CommandText`: the output path, the command substitution and the quoting of the default template.
- `EncodingQueue`: the class `AbAv1Gui` with the window's state, and `RunWorker`, which is the worker loop. Both are proved against the function `Drain`, which runs the worker loop to its end.

What the outside world does is given as inputs:

- The encode-and-measure pipeline is an oracle from a CRF to an optional score.
- ffmpeg's encoder listing and standard error are strings.
- For each file the worker takes, a `FileEvent` says:
  - whether Stop was pressed, before the run or during it;
  - whether building the output path raised;
  - the timestamp;
  - how the command ended.

## Model

| member | source | states |
|---|---|---|
| CrfSearch.FindBestCrf | find_crf.py:209-259 | Returns the final best CRF of `Search`, which runs at most ten rounds from [18, 51] with best 51. The result always lies in [18, 51]. |
| CrfSearch.ProbeRound | find_crf.py:225-256 | One pass of the loop body gives exactly `Round`'s next bounds, best CRF, best distance and whether the loop breaks. |
| CrfSearch.Round | find_crf.py:226-256 | The loop body after the midpoint's measurement. It is characterised by `RoundFacts` and `RoundRecords`, and `ProbeRound` is proved equal to it. |
| CrfSearch.Run | find_crf.py:225-256 | Up to n rounds, recording each probe. It is characterised by `RunFacts` and `RunTracksClosest`. |
| CrfSearch.Search | find_crf.py:220-256 | The whole search from [18, 51] with best 51 and no distance yet. It is characterised by `SearchBounded`, `SearchPicksClosest` and `SearchStopsWithinPrecision`, and `FindBestCrf` is proved to return its result. |
| CrfSearch.RoundFacts | find_crf.py:226-256 | From a live state: the tested CRF `(low+high)//2` lies in [18, 51]. A failed measurement sets low to mid+1 and never breaks. A score within 0.5 breaks with mid as best. Any other score moves low to mid+1 (score above target) or high to mid-1, and breaks exactly when low > high. The best changes only to mid, on a strictly smaller distance. |
| CrfSearch.RunFacts | find_crf.py:225-256 | Any number of rounds performs between one and that many probes. Every probe tests an in-range CRF and carries the oracle's score. The bounds only move inward and the best stays in range. A score within the precision can only come from the last probe, whose CRF is then the result. |
| CrfSearch.RunTracksClosest | find_crf.py:238-241 | Either the rounds leave the best CRF and its distance unchanged, and no probe beats the starting best distance; or the result is the earliest probe closest to the target, and that probe beats the starting best distance. |
| CrfSearch.RoundRecords | find_crf.py:238-241 | A round's best update records the midpoint exactly when its distance beats the best so far. |
| CrfSearch.SearchBounded | find_crf.py:220-226 | A search makes between 1 and MAX_ITERATIONS (10) probes. Every probe tests a CRF in [18, 51], and the result lies in [18, 51]. |
| CrfSearch.SearchPicksClosest | find_crf.py:220-245 | The result is the CRF of the earliest probe whose score is closest to the target, or 51 when no probe produced a score. |
| CrfSearch.SearchStopsWithinPrecision | find_crf.py:243-245 | A score within 0.5 of the target ends the search: that probe is the last one, and its CRF is the result. |
| CrfSearch.Advance | find_crf.py:225-256 | One round keeps the loop invariant. A breaking round yields the search's final state; any other round yields a live state from which one round fewer reaches it. |
| VmafScore.ExtractScore | find_crf.py:190-198 | None exactly when no position matches `VMAF score: \d+\.\d+`. Otherwise it is the value of the leftmost match's digits, which is never negative. |
| VmafScore.MatchAt | find_crf.py:190 | The groups a match at one position yields; both are non-empty digit runs. It is characterised by `MatchAtPattern` and `MatchAtText`. |
| VmafScore.FindMatch | find_crf.py:190-191 | `re.search`: the match at the leftmost matching position. It is characterised by `FindMatchLeftmost` and `FindMatchReaches`. |
| VmafScore.MatchAtPattern | find_crf.py:190 | A match at q exists exactly when the label sits at q, followed by a maximal digit run, '.' and another digit run. |
| VmafScore.MatchAtText | find_crf.py:190 | The groups of a match are the digit texts that sit in the string after the label. |
| VmafScore.FindMatchLeftmost | find_crf.py:190-191 | `re.search` finds nothing exactly when no position matches, and otherwise returns the leftmost match. |
| VmafScore.FindMatchReaches | find_crf.py:190-191 | With no match before p and a match at p, the search returns the match at p. |
| VmafScore.MatchesWrittenScore | find_crf.py:190 | Digits written after the label and followed by a non-digit are what the match at that position reads. |
| VmafScore.ScoreLineFound | find_crf.py:190-194 | After a prefix without 'V', the line `VMAF score: w.f` yields the value w.f. |
| VideoProbe.FrameRate | find_crf.py:73-78 | The fps read from the field, or from `24000/1001` when the field is absent. It is characterised by `FrameRateMissing` and the `RateText` lemmas. |
| VideoProbe.RateText | find_crf.py:74-78 | The rate text read as `num/den` when it has a '/', and as a decimal otherwise. It is characterised by `FrameRateOfRatio`, `FrameRateWhole`, `FrameRateDecimal` and `FrameRateTwoSlashes`. |
| VideoProbe.FrameRateOfRatio | find_crf.py:73-76 | The text `n/d` gives n/d, and 24.0 when d is 0. |
| VideoProbe.FrameRateMissing | find_crf.py:73-76 | A stream without `r_frame_rate` runs at 24000/1001 fps. |
| VideoProbe.FrameRateWhole | find_crf.py:77-78 | A rate without '/' written as an integer reads as that integer. |
| VideoProbe.FrameRateDecimal | find_crf.py:77-78 | A rate written as `w.f` without '/' reads as that decimal. |
| VideoProbe.FrameRateTwoSlashes | find_crf.py:74-75 | A rate with two '/' is a ValueError (None), whatever surrounds them. |
| VideoProbe.SampleStart | find_crf.py:213 | The start is never negative. For a video of at least 10 s the sample ends inside it and is centred (start equals the time left after the sample). For a video of at most 10 s the start is 0. |
| EncodeArgs.ChooseEncoder | find_crf.py:115-125 | NVENC is chosen exactly when the probe succeeded and its output contains `h264_nvenc`; otherwise libx264. |
| EncodeArgs.EncodeCommand | find_crf.py:127-148 | The ffmpeg argument list for one encode. It is characterised by `EncodeCommandRoundTrip` (read back by an independent parser) and `EncodeCommandInjective`. |
| EncodeArgs.EncodeCommandRoundTrip | find_crf.py:127-148 | Reading the argument list back gives the reference, the CRF, the output and the encoder. Each encoder gets its own quality flag (-qp/-crf) and preset (hq/medium). |
| EncodeArgs.EncodeCommandInjective | find_crf.py:127-148 | Two jobs with the same argument list are the same job. |
| Decimal.IntText | find_crf.py:133 | `str(i)`. It is characterised by `NatText`, `NatTextValue` and `ParseIntText`. |
| Decimal.ParseInt | find_crf.py:75 | `int(s)` on an optional sign and ASCII digits, None (ValueError) otherwise. It is characterised by `ParseIntText`. |
| Decimal.ParseDecimal | find_crf.py:78 | `float(s)` on an optional sign, digits and an optional point. It is characterised by `ParseDecimalIntText` and `ParseFixedPoint`. |
| Decimal.NatText | find_crf.py:133 | `str(n)` is a non-empty run of digits with no leading zero. |
| Decimal.ParseIntText | find_crf.py:75 | `int(str(i)) == i` for every integer. |
| Decimal.ParseDecimalIntText | find_crf.py:78 | `float(str(i)) == i` for every integer. |
| Decimal.ParseFixedPoint | find_crf.py:192 | `float("w.f")` is the fixed-point value of the digits w and f. |
| Decimal.NatTextValue | find_crf.py:133 | The digits of `str(n)` have the value n. |
| PyString.Find | find_crf.py:74-75 | The first index of the character, or -1 exactly when it is absent. |
| PyString.RFind | ab-av1-gui.py:208-209 | The last index of the character, or -1 exactly when it is absent. |
| PyString.Contains | find_crf.py:119 | `pat in s` exactly when pat occurs at some index of s. |
| PyString.Strip | ab-av1-gui.py:217 | The result is a slice of s with only whitespace cut from both ends, and it neither starts nor ends with whitespace. |
| PyString.StripUnpadded | ab-av1-gui.py:217 | A string that neither starts nor ends with whitespace is unchanged by strip. |
| PyString.Replace | ab-av1-gui.py:218-219 | `str.replace`, scanning left to right without overlap. It is characterised by `ReplaceAfterLiteral`, `ReplaceAtFront` and `ReplaceLiteral`, and through them by `SubstituteFills`. |
| PyString.ReplaceAfterLiteral | ab-av1-gui.py:218-219 | Text where the pattern cannot start is copied unchanged, and replacement continues after it. |
| PyString.ReplaceAtFront | ab-av1-gui.py:218-219 | An occurrence at the front is replaced, and scanning resumes after it. |
| PyString.ReplaceLiteral | ab-av1-gui.py:218-219 | Text where the pattern cannot start is unchanged by replace. |
| PyString.ReplaceAroundBarrier | ab-av1-gui.py:218-219 | A character that is not in the pattern splits replace: the text before it and the text after it are replaced independently. |
| PosixPath.Basename | ab-av1-gui.py:209 | The basename is the suffix of the path after its last '/', and it contains no '/'. |
| PosixPath.Dirname | ab-av1-gui.py:208 | Everything up to the last '/', with trailing '/' dropped unless only '/' is left. Its own ensures gives the shape of the result; `DirnameJoin` shows that it undoes `join` for any directory it can return. |
| PosixPath.SplitExt | ab-av1-gui.py:209 | The two parts concatenate back to the name. The extension is empty or one '.' followed by no '.' or '/'. |
| PosixPath.Join | ab-av1-gui.py:211 | The second part always ends the result, and an absolute second part is the whole result. Otherwise the first part begins the result and at most one '/' lies between the parts. That '/' is added exactly when the first part is non-empty and does not already end in '/', so a non-empty first part is always followed by '/'. |
| PosixPath.BasenameJoin | ab-av1-gui.py:208-211 | The basename of `join(d, name)` is name when name has no '/'. |
| PosixPath.DirnameJoin | ab-av1-gui.py:208-211 | The dirname of `join(d, name)` is d for a directory as `dirname` returns it and a name without '/'. |
| PosixPath.SplitExtFindsExt | ab-av1-gui.py:209 | A name `x.e` without '/', with no '.' in e and some character other than '.' in x, splits into `(x, ".e")`. |
| PosixPath.SplitExtLeadingDots | ab-av1-gui.py:209 | A name whose last '.' has only dots before it (`.cshrc`, `..rc`) has an empty extension. |
| PosixPath.SplitExtInsert | ab-av1-gui.py:209-211 | Inserting a tag without '.' or '/' between stem and extension keeps the extension and extends the stem. |
| CommandText.OutputPath | ab-av1-gui.py:208-211 | The output path `join(dirname, stem + "_" + timestamp + ext)`. It is characterised by `OutputPathParts` and `OutputPathOfNamed`. |
| CommandText.BuildCommand | ab-av1-gui.py:217-219 | The stripped template with `{filePath}` replaced by the quoted input, then `{outputFile}` by the quoted output, the second replace reaching into the inserted input path too. It is characterised by `SubstituteFills` and `CommandOfTwoFields`, and its quoting by `QuotedFieldsUnquote` and `BareFieldsQuote`. |
| CommandText.OutputPathParts | ab-av1-gui.py:207-211 | The output file lies in the input's directory. Its name is the input's stem, `_<timestamp>`, then the input's extension, and splitext splits it back there. |
| CommandText.OutputPathOfNamed | ab-av1-gui.py:207-211 | The input `d/x.e`, where the name has a real extension, gets the output `d/x_<timestamp>.e`. |
| CommandText.TagPlain | ab-av1-gui.py:210-211 | A `%Y%m%d-%H%M%S` tag contains neither '/' nor '.'. |
| CommandText.SubstituteFills | ab-av1-gui.py:217-219 | For a template of literal parts free of '{' and placeholders, every `{filePath}` becomes the quoted input and every `{outputFile}` the quoted output. The second replace also rewrites any `{outputFile}` inside the input path to the quoted output; an input path free of '{' is inserted unchanged. |
| CommandText.NestedPlaceholder | ab-av1-gui.py:218-219 | The template `{filePath}` with the input path `{outputFile}` and output `o` gives `""o""`: the path's own placeholder is filled in by the second replace. |
| CommandText.ReplaceFilePathField | ab-av1-gui.py:218 | The first replace turns every `{filePath}` into the input text and leaves text and `{outputFile}` alone. |
| CommandText.ReplaceOutputFileField | ab-av1-gui.py:219 | The second replace turns every `{outputFile}` piece into the output text, and inside the quoted input path it replaces every `{outputFile}` as well. |
| CommandText.ReplaceQuoted | ab-av1-gui.py:219 | Replacing in a quoted path followed by more text replaces within the quotes and after them separately, because no occurrence can span the closing quote. |
| CommandText.CommandOfTwoFields | ab-av1-gui.py:217-219 | The command for `a{filePath}b{outputFile}c` with unpadded plain parts is `a"input"b"output"c`. |
| CommandText.QuotedFieldsUnquote | ab-av1-gui.py:218-219 | A template that quotes its placeholders ends up with the input path after an even number of double quotes. |
| CommandText.BareFieldsQuote | ab-av1-gui.py:218-219 | A template with bare placeholders ends up with both paths after an odd number of double quotes. |
| CommandText.DefaultTemplateUnquotesInput | ab-av1-gui.py:60 | With the default template as written, every character of the input path follows an even number of double quotes, so it lies outside them. |
| CommandText.DefaultTemplateQuotesPaths | ab-av1-gui.py:60 | With the corrected default template, every character of both paths follows an odd number of double quotes, so it lies inside them. |
| EncodingQueue.Step | ab-av1-gui.py:197-262 | One pass of the worker loop. It is characterised through `Drain` by `DrainStopsOnToken`, `DrainInOrder`, `DrainCounts` and `DrainCompletes`. |
| EncodingQueue.Drain | ab-av1-gui.py:196-262 | The worker loop run to its end. It is characterised by `DrainInOrder`, `DrainCounts`, `DrainStopsOnToken` and `DrainCompletes`, and `RunWorker` is proved equal to it. |
| EncodingQueue.RunWorker | ab-av1-gui.py:194-262 | The loop ends in the state `Drain` describes. Files processed plus files left never exceed the files queued at the start. |
| EncodingQueue.DrainInOrder | ab-av1-gui.py:197-256 | The worker takes the queue's first t files in order and leaves the rest. It issues one command per file taken whose output path could be built, in order. It leaves files only when the token is set or the last file hit a missing command. |
| EncodingQueue.DrainCounts | ab-av1-gui.py:196-260 | `files_processed` never decreases. It counts at most one per file taken and at most one per command issued. A set token stays set. |
| EncodingQueue.DrainStopsOnToken | ab-av1-gui.py:198-200 | A token set before a file is taken ends the loop with the queue untouched. |
| EncodingQueue.DrainEndsOnMissingCommand | ab-av1-gui.py:254-256 | A file whose command is not found still gets its command issued, and then the queue stops: the files after it stay queued. |
| EncodingQueue.DrainEndsAfterStoppedRun | ab-av1-gui.py:245-247 | Stop pressed while a file's process runs ends the loop after that file: the token is set and the files after it stay queued. |
| EncodingQueue.DrainCompletes | ab-av1-gui.py:197-260 | Without Stop and with the command found, the queue empties, every command is issued in order, and every issued command is counted. |
| EncodingQueue.CommandFor | ab-av1-gui.py:207-219 | The command for one file, built from the output path next to it. It is characterised by `OutputPathParts`, `OutputPathOfNamed` and `SubstituteFills`. |
| EncodingQueue.Kept | ab-av1-gui.py:139-142 | The list with the selected rows removed. It is characterised by `KeptByIndex` with `UnselectedExact`, and by `DeleteBelow`; `RemoveSelected` is proved to leave it. |
| EncodingQueue.UnselectedExact | ab-av1-gui.py:139-142 | The unselected indices are increasing, and are exactly the in-range indices not selected. |
| EncodingQueue.KeptByIndex | ab-av1-gui.py:139-142 | The m-th remaining entry is the original entry at the m-th unselected index. |
| EncodingQueue.DeleteBelow | ab-av1-gui.py:141-142 | Deleting row p, below every row already deleted, removes exactly entry p from what remains. |
| EncodingQueue.KeptAgree | ab-av1-gui.py:141-142 | Only selected indices within the list's range matter for what remains. |
| EncodingQueue.AbAv1Gui.constructor | ab-av1-gui.py:13-29 | The window starts idle, with an empty list, a clear token and the (corrected) default template. |
| EncodingQueue.AbAv1Gui.EditTemplate | ab-av1-gui.py:58-61 | Typing in the command box sets the template and changes nothing else. |
| EncodingQueue.AbAv1Gui.AddFiles | ab-av1-gui.py:122-131 | While encoding nothing changes. Otherwise the chosen files are appended in order and nothing else changes. |
| EncodingQueue.AbAv1Gui.RemoveSelected | ab-av1-gui.py:133-142 | While encoding nothing changes. Otherwise deleting the selected rows from the highest down leaves exactly the unselected rows, in order. |
| EncodingQueue.AbAv1Gui.StartEncoding | ab-av1-gui.py:144-176 | Refused while encoding or with an empty list. Otherwise the queue is the list in order, the token is clear, progress runs from 0 to the list's length, and the invariant holds. |
| EncodingQueue.AbAv1Gui.StopEncoding | ab-av1-gui.py:178-192 | While idle nothing changes. While encoding the token is set, and a kill is asked for exactly when a process is recorded. |
| EncodingQueue.AbAv1Gui.EncodingWorker | ab-av1-gui.py:194-264 | The new queue, token, process flag, count and commands are those of `Drain` from the current state with the template's command builder. Progress shows the count once a file was counted, and the invariant holds. |
| EncodingQueue.AbAv1Gui.OnEncodingFinished | ab-av1-gui.py:266-290 | Reports whether the run was cancelled, then returns to idle: the token is clear, no process is recorded, the queue is empty and progress is 0. The list and the template are kept. |

## Left out

- Process execution is not modelled: subprocess, ffprobe/ffmpeg, the Tk widgets and dialogs, logging, message boxes and temporary files. What they return is a parameter: the encoder listing, ffmpeg's standard error, the measurement oracle, the chosen files, the selected rows and the per-file events.
- Threads are not modelled. The worker and the UI handlers are separate methods called in sequence, and Stop pressed during the worker loop is an event of the file being handled.
- `datetime.now()` is not called: the timestamp is part of each file's event.
- Whether building the output path raises is an input flag. On POSIX the path functions do not raise for strings.
- `FileNotFoundError` from `Popen(shell=True)` is an outcome the caller chooses, although the shell itself normally reports a missing command as exit status 127.
- Paths follow `posixpath` only; Windows `ntpath` rules are not modelled.
- `int()` and `float()` accept only an optional sign and ASCII digits, with an optional point for `float()`. Surrounding whitespace, underscores, exponents, `inf`/`nan` and non-ASCII digits are not modelled. Floating point is exact `real` arithmetic.
- `VmafScore.ExtractScore` matches `\d` with ASCII digits only. Python's `re` also matches every other Unicode decimal digit with `\d`, so a score written in such digits is not found by the model.
- `get_video_properties` is modelled only for its frame-rate parse. The JSON handling, the duration fallback and the `sys.exit` on errors are left out. The duration is a `real` input to `SampleStart`.
- `check_dependencies`, `create_video_sample`, `run_vmaf`'s filter graph, argparse and `main`, and all of `vmaf-test.py`, are not modelled.
- `CrfSearch.FindBestCrf` treats the measurement as deterministic per CRF. Encoding and scoring are one oracle call.
- `CrfSearch.FindBestCrf` does not model the end of the program inside the loop. A failed sample encode (find_crf.py:230, then 152-154) calls `sys.exit(1)` and the search never returns. The oracle's `None` stands only for `run_vmaf` finding no score or failing (find_crf.py:195-204).
- `EncodingQueue.AbAv1Gui.EncodingWorker` reads the template once per run, while the source reads the text box once per file; edits made during a run are not modelled.
- `EncodingQueue.AbAv1Gui.EncodingWorker` sets the progress value once, at the end of the run, to the final count. The source schedules one update per file through a lambda that reads the count late, so the bar ends at the same value.
- `EncodingQueue.AbAv1Gui.EncodingWorker` runs its loop on a `Worker` value and writes the fields back afterwards, instead of updating the object's fields inside the loop.
- `EncodingQueue.AbAv1Gui.constructor` sets the progress maximum to 100, Tk's default before the first run.
- `EncodingQueue.AbAv1Gui.constructor` starts the window with the corrected `DefaultTemplate`, not the quoted template of ab-av1-gui.py:60 (`DefaultTemplateAsWritten`); see "## Findings". A window holding the template as written is reached with `EditTemplate(DefaultTemplateAsWritten)`, and `DefaultTemplateUnquotesInput` states what that template does.
- `CommandText.QuotedFieldsUnquote` counts only double quotes. A path holding a backslash, a single quote, `$` or a backquote is read differently by the shell, and this lemma does not describe that reading.
- `CommandText.BareFieldsQuote` counts only double quotes, so for paths holding a backslash, `$` or a backquote, which the shell still interprets inside double quotes, "inside quotes" is not the shell's whole reading.
- `CommandText.DefaultTemplateUnquotesInput` counts only double quotes, as `QuotedFieldsUnquote` does; backslashes, single quotes, `$` and backquotes in the path are not modelled.
- `CommandText.DefaultTemplateQuotesPaths` counts only double quotes, as `BareFieldsQuote` does; backslashes, `$` and backquotes in the paths are not modelled.
- The log text and `current_process.pid` are not modelled. Only whether a process is recorded is kept.

## Findings

| source | as written | input that shows it | evidently intended | confidence | as-written member | corrected member |
|---|---|---|---|---|---|---|
| ab-av1-gui.py:60 | The default template already puts quotes around `{filePath}` and `{outputFile}`, and lines 218-219 quote each path again, so the command contains `--input ""<path>""`. | input `/videos/my clip.mp4`: the command holds `""/videos/my clip.mp4""`; each `""` is an empty quoted string that joins the unquoted text next to it, so sh passes the two words `/videos/my` and `clip.mp4`, and the path is split at the space | each path reaches the command as one shell word, inside one pair of quotes | not executed | CommandText.DefaultTemplateUnquotesInput | CommandText.DefaultTemplateQuotesPaths |
