# voice-record scripts, modelled in Dafny

This project models the three scripts that form the logic of the
voice-record repository and proves properties about them:

- **scripts/transcribe.py** chooses the audio files to work on. It uses the
  `changed_files.txt` list when that file exists, and otherwise scans
  `voice-record` for five audio extensions. It transcribes each file with
  Whisper, writes a `.txt` transcript next to the audio, and counts the
  successes. The modules are `Timestamps` (`format_timestamp`),
  `Transcripts` (`transcribe_audio_file` and the transcript layout),
  `Discovery` (the changed-files list, the existence filter and the scan)
  and `TranscribeMain` (`main`).
- **scripts/prepare_colab_execution.py** builds the automated copy of the
  transcription notebook:
  - markdown cells are kept;
  - the upload cell becomes a cell that loads the changed files;
  - the download cell becomes a notice;
  - other code cells are kept;
  - all other cells are dropped.

  The modules are `Notebook` (`prepare_notebook`, with the notebook being
  built as a class whose cell list grows in place) and `PyRepr`. `PyRepr`
  is how an f-string prints the list of files into the generated code, and
  a reader showing that the printed list reads back as the same list.
- **scripts/md_to_pdf.py** converts one Markdown file, or every Markdown
  file under a directory, to PDF. The module is `MdToPdf`: the suffix
  check, the HTML template, the default and mirrored output paths, and the
  batch loop with its two counters.

Shared modules:

- `Optional` holds `Option`.
- `Text` holds the Python string operations used:
  - `strip`, with Python's whitespace set;
  - cutting a string at one separator character and gluing pieces back
    with it (`Split`, `Join`): this models iterating over the lines of a
    file and rendering a `pathlib` path, as the scripts call neither
    `str.split` nor `str.join`;
  - `lower`;
  - `'=' * 60`;
  - `:02d`.
- `Paths` is the part of `pathlib` used: `Path(s)`, `.name`, `.parent`,
  `.suffix`, `.stem`, `.with_suffix`, `/` and `.relative_to`.

The outside world is passed in as values:

- Whisper is a function from path and language to an optional result.
  `None` stands for an exception.
- Existence and writability are sets of paths.
- A file's text is a string.
- A directory walk is the sequence of paths it yields.
- `markdown()` and WeasyPrint's `write_pdf` are functions that may fail.

An exception that the script catches becomes a returned `False`. An
exception that escapes `md_to_pdf` or `batch_convert` becomes an explicit
outcome (`Raised`, `Aborted`). The exceptions that escape the other two
scripts are not modelled. They are listed under "## Left out": loading the
Whisper model, reading an unreadable `changed_files.txt`, and reading or
writing the notebook files.

## Behaviour worth knowing

- An empty `changed_files.txt` does not fall back to scanning
  `voice-record`. `main` returns with nothing transcribed
  (`TranscribeMain.Run`, `NothingToTranscribe`). An absent list does fall
  back to the scan.
- The scan is not sorted. It lists the files extension by extension, in
  the order the walk yields them (`Discovery.ScanAll`).
- A failed transcription writes no failure record and records no reason.
  `transcribe_audio_file` returns `False` and `main` counts only the
  successes (`Transcripts.TranscribeAudioFile`, `TranscribeMain.Successes`).
- The language code passed to Whisper is always `zh`. The header always
  says `Cantonese/Chinese`.
- In `md_to_pdf`, only the PDF write is inside a `try`. A read, `markdown()`
  or `mkdir` failure raises out of `md_to_pdf` and out of `batch_convert`,
  and this ends the batch (`MdToPdf.Conversion.Raised`,
  `MdToPdf.BatchOutcome.Aborted`).

Two behaviours are proved rather than assumed:

- Audio files that differ only in extension share one transcript path, so
  the later transcript overwrites the earlier
  (`Transcripts.SharedTranscriptPath`).
- `notes.md` and `notes.markdown` side by side are both converted to
  `notes.pdf` (`MdToPdf.MarkdownTwinsCollide`).

## Model

| member | source | states |
|---|---|---|
| Timestamps.ClockOf | scripts/transcribe.py:63-65 | `3600*hours + 60*minutes + secs` is the whole number of seconds. Minutes and seconds lie in 0..59. Hours are the whole seconds divided by 3600, with no upper bound. |
| Timestamps.ClockFields | scripts/transcribe.py:63-65 | `int(seconds // 3600)`, `int((seconds % 3600) // 60)` and `int(seconds % 60)`, with Python's floor division and modulo on floats, are exactly the fields of `ClockOf`. |
| Timestamps.FormatTimestamp | scripts/transcribe.py:66 | The result has colons three and six places from the end. It has only digits, colons and a minus sign. It is exactly 8 characters for times from 0 up to 100 hours. |
| Timestamps.FormatTimestampReadsBack | scripts/transcribe.py:61-66 | For a non-negative time, reading `HH:MM:SS` back gives the whole number of seconds. |
| Timestamps.TimestampHoursField | scripts/transcribe.py:63-66 | For a non-negative time, the hours field is the whole number of hours in plain decimal: two digits below 100 hours, and no leading zero from 100 hours on. |
| Timestamps.SameTimestampSameSecond | scripts/transcribe.py:61-66 | Two non-negative times print alike exactly when they fall in the same whole second. |
| Timestamps.TimestampOneLine | scripts/transcribe.py:61-66 | A printed timestamp never holds a newline. |
| Text.Strip | scripts/transcribe.py:41 | `str.strip()` never lengthens its input. It leaves no whitespace at either end. It is empty exactly when the input is all whitespace. |
| Text.StripInfix | scripts/transcribe.py:50 | The stripped text is a contiguous piece of the original. |
| Text.StripExact | scripts/transcribe.py:50 | Whitespace around text that has none at its ends is exactly what strip removes. |
| Text.StripIdempotent | scripts/transcribe.py:50 | Stripping twice is stripping once. |
| Text.Repeat | scripts/transcribe.py:40 | `c * n` has length `n` and holds only `c`. |
| Text.PadTwo | scripts/transcribe.py:66 | `:02d` gives at least two characters, and exactly two for 0 to 99. For non-negative values they are digits that read back as the value, with no leading zero from 10 on. A negative value starts with `-`. |
| Text.Lower | scripts/md_to_pdf.py:35 | `lower()` keeps the length and lowers each character. |
| Text.TerminatedLines | scripts/transcribe.py:37-51 | Lines written with a newline after each, when none holds a newline, split back into those lines and a final empty piece. |
| Paths.Parse | scripts/transcribe.py:102 | `Path(f)` gives a normalised path: no empty or `.` components. |
| Paths.ParseRender | scripts/transcribe.py:102 | Printing a normalised path and parsing it again gives the same path. |
| Paths.Suffix | scripts/md_to_pdf.py:35 | `.suffix` is empty, or it is a dot followed by at least one non-dot character, ends the name and is shorter than it. |
| Paths.WithSuffix | scripts/transcribe.py:34 | `.with_suffix` fails exactly for an invalid suffix or a path without a name. Otherwise it keeps the anchor and the number of components. |
| Paths.WithSuffixReplaces | scripts/md_to_pdf.py:140 | With an extension, `.with_suffix` keeps the parent and the stem and gives a name whose suffix is the new one. |
| Paths.RelativeTo | scripts/md_to_pdf.py:189 | `.relative_to(d)` succeeds exactly when `d` is a leading part of the path. Joining the result back onto `d` gives the path. |
| Paths.RelativeToJoin | scripts/md_to_pdf.py:189-190 | `(d / r).relative_to(d)` is `r` for a relative `r`. |
| Transcripts.LinesOf | scripts/transcribe.py:47-51 | There is one line per segment, in Whisper's order. |
| Transcripts.HeaderTerminated | scripts/transcribe.py:38-44 | The header writes are the nine header lines, each followed by a newline. |
| Transcripts.WriteTranscript | scripts/transcribe.py:37-51 | The text written, write by write and segment by segment, is the transcript: its lines, each followed by a newline. |
| Transcripts.TranscriptPathBeside | scripts/transcribe.py:34 | The transcript of a named audio file is in the same directory, with the same stem and the suffix `.txt`. |
| Transcripts.TranscribeAudioFile | scripts/transcribe.py:11-59 | Returns `True` exactly when Whisper returned a result, the `.txt` path exists and the file opens. It then writes the transcript to that path. On `False` nothing is written. |
| Transcripts.SegmentLineSingle | scripts/transcribe.py:51 | A segment whose stripped text has no newline prints as a single line. |
| Transcripts.ArtifactLinesSingle | scripts/transcribe.py:38-51 | No transcript line holds a newline when neither the file name nor any stripped text does. |
| Transcripts.ArtifactLayout | scripts/transcribe.py:38-51 | Split at newlines, the transcript gives back exactly its lines, followed by one empty piece after the final newline. |
| Transcripts.ArtifactLinesShape | scripts/transcribe.py:37-51 | The transcript has nine header lines and then one line per segment. The header lines are the `Transcript of:` line, the language line, a 60-`=` separator, a blank line, the stripped full text, a blank line, a second separator, the `Detailed segments:` heading and a blank line. Line `9 + i` is the `[start -> end] text` line of segment `i`. |
| Transcripts.SharedTranscriptPath | scripts/transcribe.py:34 | Audio files in one directory with the same stem share one transcript path. |
| Transcripts.FormatUnderAMinute | scripts/transcribe.py:61-66 | A time under a minute prints as `00:00:` and its two-digit second. |
| Transcripts.TimestampExamples | scripts/transcribe.py:61-66 | 0.0, 1.5 and 3.0 seconds print as `00:00:00`, `00:00:01` and `00:00:03`. |
| Transcripts.StripExample | scripts/transcribe.py:50 | `" b ".strip()` is `"b"`. |
| Transcripts.SegmentLineExample | scripts/transcribe.py:48-51 | The segment from 1.5 to 3.0 seconds with text `" b "` prints as `[00:00:01 -> 00:00:03] b`. |
| Discovery.TranslateNewlines | scripts/transcribe.py:95-96 | Text-mode reading leaves no carriage return. |
| Discovery.TranslateNewlinesPlain | scripts/transcribe.py:95-96 | Text without carriage returns reads unchanged. |
| Discovery.TranslateNewlinesEndings | scripts/transcribe.py:95-96 | Text mode reads `\n`, `\r\n` and a lone `\r` all as `\n`: text without carriage returns, written with any one of these line endings, reads back as itself. |
| Discovery.StrippedNonBlank | scripts/transcribe.py:96 | The comprehension keeps only non-empty stripped lines, and no more entries than lines. |
| Discovery.StrippedNonBlankMembers | scripts/transcribe.py:96 | An entry is kept exactly when it is non-empty and some line strips to it. |
| Discovery.StrippedNonBlankAppend | scripts/transcribe.py:96 | The comprehension works line by line: the entries for two runs of lines are concatenated. |
| Discovery.StrippedNonBlankKeeps | scripts/transcribe.py:96 | Lines that are already stripped and non-blank are all kept, in order. |
| Discovery.ChangedFiles | scripts/transcribe.py:95-96 | Every entry is non-empty, stripped and a single line. |
| Discovery.ChangedFilesReadsBack | scripts/transcribe.py:95-96 | A list written one entry per line reads back as exactly those entries, in order. |
| Discovery.ChangedFilesAnyEnding | scripts/transcribe.py:95-96 | The changed-files list reads the same whichever of the three line endings the file uses. |
| Discovery.ChangedFilesOf | scripts/prepare_colab_execution.py:24-27 | Without `changed_files.txt` the list is empty. Otherwise it is the parsed file. |
| Discovery.ExistingPaths | scripts/transcribe.py:102 | Every kept path exists. Every listed path that exists is kept. The result is no longer than the list. |
| Discovery.ExistingPathsListed | scripts/transcribe.py:102 | Nothing is added: every kept path is the parsed form of a listed file. |
| Discovery.ExistingPathsAppend | scripts/transcribe.py:102 | The filter works file by file and keeps the listed order: two runs of files give the kept paths of the first, then those of the second. |
| Discovery.ExistingPathsSingle | scripts/transcribe.py:102 | A single listed file is kept, as its parsed path, exactly when it exists. |
| Discovery.ExistingPathsEmpty | scripts/transcribe.py:102 | The filtered list is empty exactly when no listed path exists. |
| Discovery.RGlob | scripts/transcribe.py:88 | `rglob('*ext')` yields only entries whose name ends with the extension, and no more than the walk. |
| Discovery.RGlobCount | scripts/transcribe.py:88 | The glob keeps each matching entry as often as the walk yields it, and drops the others. |
| Discovery.ScanAllCount | scripts/transcribe.py:82-88 | With extensions that end differently, the scan lists each file with one of the extensions exactly as often as the walk yields it, and no other file. |
| Discovery.AudioExtensionsDistinct | scripts/transcribe.py:82 | The five audio extensions end in different characters. |
| Discovery.ScanVoiceRecord | scripts/transcribe.py:82-88 | The extend loop yields the scan: empty when `voice-record` is missing, otherwise one glob per extension, in order. |
| Discovery.ScanCount | scripts/transcribe.py:82-88 | No audio file is scanned twice or missed. |
| TranscribeMain.CountBound | scripts/transcribe.py:109-112 | A count never exceeds the number of files, and equals the number of items collected. |
| TranscribeMain.CountAll | scripts/transcribe.py:109-112 | The count equals the number of files exactly when every file counts. |
| TranscribeMain.CollectBelongs | scripts/transcribe.py:109-112 | Each collected item comes from a file that counts. |
| TranscribeMain.SuccessesBound | scripts/transcribe.py:109-112 | `success_count` is at most the number of files and equals the number of transcripts written. It equals the number of files exactly when every file is transcribed. |
| TranscribeMain.WritesBelong | scripts/transcribe.py:109-112 | Every transcript written belongs to an input that succeeded, at that input's transcript path. |
| TranscribeMain.Run | scripts/transcribe.py:68-117 | Ends with "no audio" exactly when there is no list and the scan is empty. Ends with "nothing to transcribe" exactly when the list exists and is empty. Otherwise it transcribes exactly the selected files, counts the successes, and writes their transcripts in order. |
| PyRepr.ParseHexOf | scripts/prepare_colab_execution.py:42 | Hex escapes read back as their value. |
| PyRepr.Escape | scripts/prepare_colab_execution.py:42 | A character in `repr` is itself or starts with a backslash. |
| PyRepr.QuoteFor | scripts/prepare_colab_execution.py:42 | `repr` quotes with `"` exactly when the string has a `'` and no `"`, and with `'` otherwise. |
| PyRepr.StrRepr | scripts/prepare_colab_execution.py:42 | `repr(s)` opens and closes with the chosen quote. |
| PyRepr.ListRepr | scripts/prepare_colab_execution.py:42 | A list displays between `[` and `]`. |
| PyRepr.EscapeReads | scripts/prepare_colab_execution.py:42 | Each escaped character reads back as the character. |
| PyRepr.HexEscapeReads | scripts/prepare_colab_execution.py:42 | `\x`, `\u` and `\U` escapes read back as the character. |
| PyRepr.EscapedReads | scripts/prepare_colab_execution.py:42 | An escaped string body reads back up to its closing quote. |
| PyRepr.StrReprReads | scripts/prepare_colab_execution.py:42 | `repr(s)` reads back as `s`, leaving what follows. |
| PyRepr.ItemsReads | scripts/prepare_colab_execution.py:42 | The comma-separated items read back as the list. |
| PyRepr.ListReprReads | scripts/prepare_colab_execution.py:42 | The printed list reads back as exactly the list, leaving what follows. |
| PyRepr.ListReprOneLine | scripts/prepare_colab_execution.py:42 | The printed list is a single line. |
| Notebook.NotebookNode.constructor | scripts/prepare_colab_execution.py:20 | `new_notebook()` has no metadata and no cells. |
| Notebook.NotebookNode.AppendCell | scripts/prepare_colab_execution.py:32 | `cells.append(cell)` adds the cell at the end and changes nothing else. |
| Notebook.Rewritten | scripts/prepare_colab_execution.py:30-64 | Markdown cells are kept unchanged. A code cell holding `files.upload()` becomes a new code cell with the loader's source. Otherwise a code cell holding `files.download` becomes a new code cell with the notice. Any other code cell is kept unchanged. Cells of every other type are dropped. |
| Notebook.PrepareNotebook | scripts/prepare_colab_execution.py:11-64 | The new notebook copies the metadata. Its cells are the rewritten cells of the original, in order. |
| Notebook.RewriteCellsAppend | scripts/prepare_colab_execution.py:30-64 | The rewrite works cell by cell: two runs of cells rewrite to the concatenation. |
| Notebook.KeptIndices | scripts/prepare_colab_execution.py:30-33 | The positions of the markdown and code cells: increasing, all of them, and only them. |
| Notebook.RewriteCellsOrder | scripts/prepare_colab_execution.py:30-64 | There is one output cell per markdown or code cell of the original, in the original order. The `j`th is what the `j`th such cell becomes. |
| Notebook.RewriteCellsMarkdown | scripts/prepare_colab_execution.py:31-32 | The markdown cells of the output are the original markdown cells, unchanged and in order. |
| Notebook.EmbeddedListReads | scripts/prepare_colab_execution.py:42 | A list printed between two pieces of text reads back as the list. |
| Notebook.LoaderTemplate | scripts/prepare_colab_execution.py:38-53 | The list is assigned to `audio_files` on a line of its own, and the template goes on on a new line. |
| Notebook.LoaderReadsBack | scripts/prepare_colab_execution.py:36-53 | The loader cell assigns to `audio_files`, on one line, a list display that reads back as exactly the changed files. |
| MdToPdf.LowerMatches | scripts/md_to_pdf.py:35 | A string without capitals is the `lower()` of exactly its spellings up to case. |
| MdToPdf.MarkdownSuffixCaseless | scripts/md_to_pdf.py:35-37 | The suffix check accepts exactly `.md` and `.markdown` in any mix of case, KELVIN SIGN included. |
| MdToPdf.DocumentBody | scripts/md_to_pdf.py:47-136 | The converted content sits between the `<body>` line and the `</body>` line, and reads back unchanged. |
| MdToPdf.DocumentInjective | scripts/md_to_pdf.py:47-136 | Different contents give different documents. |
| MdToPdf.Convert | scripts/md_to_pdf.py:18-154 | Returns `False` for a missing input and for a non-Markdown suffix. Raises when the file cannot be read or converted or the output directory cannot be made. Otherwise it writes the document to the output path and returns `True` exactly when `write_pdf` raised nothing. |
| MdToPdf.OutputPath | scripts/md_to_pdf.py:139-142 | The given output, or else a file in the input's directory with the input's stem and `.pdf`. |
| MdToPdf.DefaultOutput | scripts/md_to_pdf.py:139-140 | With no output given, a Markdown file converts next to itself, to a path with the same stem and the suffix `.pdf`. |
| MdToPdf.Entries | scripts/md_to_pdf.py:177 | There is one path per walked entry, each under the directory. |
| MdToPdf.GlobbedEntry | scripts/md_to_pdf.py:177 | What a glob finds is a walked entry whose name ends with the pattern's extension. |
| MdToPdf.OutputFor | scripts/md_to_pdf.py:189-190 | The output lies under the output directory, at the input's relative path with `.pdf` in place of its suffix. |
| MdToPdf.EntryOutput | scripts/md_to_pdf.py:189-190 | Every named entry under the directory has an output path. |
| MdToPdf.MarkdownFilesMap | scripts/md_to_pdf.py:177-190 | Every Markdown file the globs find has an output path, so `relative_to` and `with_suffix` never raise in the loop. |
| MdToPdf.EntryPdf | scripts/md_to_pdf.py:189-190 | The entry `sub/name` under the input directory converts to `sub/stem.pdf` under the output directory. |
| MdToPdf.SameStemSamePdf | scripts/md_to_pdf.py:189-190 | Two files with the same stem in the same directory map to the same PDF. |
| MdToPdf.ExtensionTwinsCollide | scripts/md_to_pdf.py:189-190 | Two files side by side made of one stem and two different extensions convert to the same PDF, named after the stem. |
| MdToPdf.MarkdownTwinsCollide | scripts/md_to_pdf.py:177-190 | For any non-empty stem, dotted ones such as `a.b` included, `stem.md` and `stem.markdown` side by side both become `stem.pdf`. |
| MdToPdf.ConversionsShape | scripts/md_to_pdf.py:187-195 | The loop converts the files in order. Only the last conversion may raise, and it stops early only at one that raised. |
| MdToPdf.CountsAddUp | scripts/md_to_pdf.py:184-195 | When nothing raised, every conversion counts once, as a success or as a failure. |
| MdToPdf.CompletedConversions | scripts/md_to_pdf.py:184-197 | A loop that did not raise converted every file in order, and its counters add up to the number of files. |
| MdToPdf.AbortedConversions | scripts/md_to_pdf.py:187-195 | A loop that raised stopped there, and the files before it were all counted. |
| MdToPdf.Batch | scripts/md_to_pdf.py:157-197 | Returns early exactly for a missing or non-directory input, converting nothing. "No Markdown files" means the globs found nothing. |
| MdToPdf.BatchCompleted | scripts/md_to_pdf.py:184-197 | After a completed batch, `successful + failed` equals the number of Markdown files. Each file was converted once, in glob order, to its mirrored output path. |
| MdToPdf.TallySnoc | scripts/md_to_pdf.py:187-195 | While nothing has raised, a conversion that raises aborts with the counts so far. Any other conversion adds one success or one failure. |
| MdToPdf.TallyAborted | scripts/md_to_pdf.py:187-195 | When the conversions tally to an abort, the last one raised and none before it did. Each earlier one counts once, as a success or a failure. |
| MdToPdf.BatchAborted | scripts/md_to_pdf.py:187-195 | An aborted batch stopped at the first conversion that raised, having counted all the ones before it. |
| MdToPdf.ConvertEach | scripts/md_to_pdf.py:184-195 | The loop with its two counters performs exactly the specified conversions and ends as they determine. |
| MdToPdf.BatchConvert | scripts/md_to_pdf.py:157-197 | `batch_convert` ends and converts exactly as `Batch` specifies. |

## Left out

- Console output. Every `print` in the three scripts is left out, including
  the progress lines and the `Found N` and summary messages.
- Loading the Whisper model (scripts/transcribe.py:71-75) and Whisper's
  own work. Whisper is a function from path and language to an optional
  result.
- Floating point. Segment times are real numbers, so float rounding is not
  modelled. Infinite and NaN times, for which `int()` raises inside the
  `try`, are not modelled either.
- Transcripts.TranscribeAudioFile: a write that fails part-way is not
  modelled. A transcript path is either writable as a whole or not at all,
  so a partly written file after an exception is not captured.
- TranscribeMain.Run: a `changed_files.txt` that exists but cannot be
  opened or decoded (scripts/transcribe.py:95-96) makes `main` raise. The
  list is modelled as present text or absent, so this crash is not an
  outcome of the model.
- Notebook.PrepareNotebook: likewise, an unreadable `changed_files.txt`
  (scripts/prepare_colab_execution.py:25-27) makes `prepare_notebook`
  raise, and this is not modelled.
- Reading and writing the notebook files and nbformat's cell ids
  (scripts/prepare_colab_execution.py:14-17, 66-72). The notebook is given
  as a value, and the result is the in-memory notebook.
- Notebook.Cell: nbformat cells are shared objects, so appending a kept
  cell aliases the original. The model copies cell values, so aliasing is
  not captured.
- PyRepr.Escape: which characters above U+007F are printable comes from the
  Unicode database, so it is the parameter `printable`.
- Text.Lower: only ASCII capitals and KELVIN SIGN are lowered. These are
  the only characters whose lower case is ASCII, so comparing with `.md`
  and `.markdown` is exact. Other characters are kept as they are.
- The stylesheet text of the HTML template (scripts/md_to_pdf.py:53-128).
  It is the parameter `css`.
- `markdown()` and WeasyPrint's rendering. They are functions that may
  fail.
- The command line of md_to_pdf.py (`main`, scripts/md_to_pdf.py:200-223):
  argument parsing and the exit status.
- File-system effects:
  - the directories `mkdir` creates are not added to the existence sets;
  - glob and rglob order is given as the order of the walk;
  - encodings are not modelled: a file that cannot be read or decoded is
    simply absent from the map of readable files.
- The other scripts of the repository: colab_transcribe_automation.py,
  convert_to_mp3.py and execute_on_colab.py. They are browser automation
  and subprocess calls.
