# tattle diagnostic rendering, modelled in Dafny

tattle is a small Rust library for reporting diagnostics against a source
text. A `Reporter` collects messages (errors with an error code, an optional
byte span `Loc` and a text; informational lines) into a log shared by all of
its clones, and remembers whether `error` was ever called. A `SourceInfo`
indexes the newlines of a text so that a span can be turned into line
numbers, and renders the lines a span covers: in `String` mode each line is
followed by a caret row marking the span, in `Terminal` mode the span is
painted in place. The display variant also writes a locator line
`--> name:line:column`.

This project models:

- `Loc::new` and `Loc::slice` (module `Spans`, `loc.dfy`);
- the error code record (module `Codes`) and the log entries (module `Messages`);
- `SourceInfo`: `new`, `name`, `line_idx`, `line_start`, `line_end` and
  `show_source` (module `SourceIndex`). `src/display.rs` and
  `src/reporter.rs` each hold a copy; they differ only in the `name` field and
  the locator line, so one model serves both: `ShowLines` is the per-line loop
  the two copies share, `ShowSource` is the display variant (locator, then
  the loop);
- the display functions `write_fmt`, `extract_report_to`,
  `extract_report_to_io` and `extract_report_to_string` (module `Display`);
- the `Reporter` with its shared log and flag, `new`, `clone`, `errored`,
  `error`, `error_unknown_loc`, `error_option_loc`, `info`, the private
  `write_fmt` and `report` (module `Reporting`);
- worked instances on small texts (module `Scenarios`).

Text is UTF-8, so it is modelled as a sequence of bytes (`Text.Bytes`), and
every offset is a byte offset. The locator column counts code points (bytes
that are not UTF-8 continuation bytes), while the caret row counts bytes; on a
line with multi-byte characters before the span the two differ
(`Scenarios.EuroColumn`, `Scenarios.EuroHighlight`).

Rust panics are modelled as preconditions: `Loc::new` asserts `start <= end`
(modelled as an `Option` result, `None` where the assertion fails); slicing
needs in-range offsets on character boundaries; `line_start` computes
`len - 1` in `usize`, which underflows on an empty text; `show_source`
computes `he - hs` on every line it visits, which underflows exactly when
the span starts past the end of the text, or starts past its own end on
the line where it ends (`hs - s` cannot underflow, as `hs` is
`max(s, start)`). `show_source` therefore requires `start <= len` and the
`Loc` invariant `start <= end` that `Loc::new` asserts
(`SourceIndex.SpanFits`); the display variant also needs the
span's start on a character boundary, and in `Terminal` mode its end too when
it lies inside the text (`SourceIndex.Showable`). A span ending past the text
does not panic and is allowed.

Three behaviours of the code are easy to misread:

- The line number is written with `{:4>}`. This looks like a width of 4 but
  is fill character `4`, right alignment and no width, so line numbers are
  written unpadded (`1| abc`, `Scenarios.FirstLinePrefix`).
- Only `error` raises the `errored` flag. `error_unknown_loc` and
  `error_option_loc` also log an error but leave the flag as it was, so
  `errored` can be false while the log holds errors
  (`Reporting.Reporter.ErrorUnknownLoc`, `Reporting.Reporter.ErrorOptionLoc`,
  `Reporting.SharedHandles`).
- `line_start` clamps to `len - 1`. For a text that ends with a newline, the
  last line (after that newline) therefore starts on the newline itself, and
  its text row shows that newline: the block for that line spans three
  output lines instead of two in String mode, two instead of one in
  Terminal mode (`SourceIndex.LineText`, `SourceIndex.StringLinesCount`,
  `SourceIndex.TerminalLinesCount`, `Scenarios.ClampedLastLine`). The
  locator counts that newline too: a span starting at the very end of
  `"abc\n"` is located at `:2:2`, not `:2:1` (`Scenarios.ClampedColumn`).

The `report` string is the log rendered entry by entry, with the final
character popped. The model proves that a non-empty rendering ends in a
newline, so dropping one byte is exactly what `pop` does there.

## Model

| member | source | states |
|---|---|---|
| Text.Repeat | src/display.rs:18-27 | `Repeated(n, c)` writes exactly `n` characters |
| Text.RepeatContents | src/display.rs:18-27 | every character `Repeated(n, c)` writes is `c` |
| Text.Decimal | src/display.rs:100 | a line number is written as at least one character |
| Text.DecimalDigits | src/display.rs:100 | a line number is written as decimal digits only, with no leading zero |
| Text.DecimalRoundTrip | src/display.rs:89-92 | reading the written digits back gives the number: line and column numbers are written without loss |
| Text.CodePointsAscii | src/display.rs:84-86 | on ASCII text `chars().count()` equals the byte length |
| Spans.NewLoc | src/loc.rs:9-12 | a span is built exactly when `start <= end`, with the given start, end and file |
| Spans.Slice | src/loc.rs:14-16 | `slice` has length `end - start` and holds the source bytes from `start` on |
| SourceIndex.NewlineOffsetsIndex | src/display.rs:31-36 | the recorded offsets are strictly increasing, each is a newline, and every newline of the text is recorded |
| SourceIndex.NewlineIndexUnique | src/display.rs:31-36 | a newline index with those three properties is unique |
| SourceIndex.NewSourceInfo | src/display.rs:30-42 | `new` keeps name and text and its loop records exactly the newline offsets of the text |
| SourceIndex.PartitionPoint | src/display.rs:52 | the binary search returns a point inside the range it searches |
| SourceIndex.PartitionPointSplits | src/display.rs:52 | on the increasing newline index, the point found splits it into offsets below `b` and offsets at or above it |
| SourceIndex.LineIdx | src/display.rs:51-53 | `line_idx(b)` is at most the number of newlines |
| SourceIndex.LineIdxPartition | src/display.rs:51-53 | every newline before line `line_idx(b)` is below `b`, every one from it on is at or above `b` |
| SourceIndex.LineIdxCounts | src/display.rs:51-53 | `line_idx(b)` is the number of newlines strictly before `b` |
| SourceIndex.LineIdxMonotone | src/display.rs:51-53 | `line_idx` is monotone in the byte position |
| SourceIndex.LineBounds | src/display.rs:55-75 | for every line number up to the newline count, `line_start <= line_end <= len`, and `len - 1` does not underflow |
| SourceIndex.LineOfContains | src/display.rs:51-75 | the line `line_idx(b)` names contains `b`, and ends after `b` unless `b` is a newline |
| SourceIndex.LineText | src/display.rs:55-75 | a line before the last ends at a newline and holds none; the last line holds none unless the text ends in a newline, when it is that newline alone |
| SourceIndex.HighlightInLine | src/display.rs:95-97 | on every line the loop visits `s <= hs <= he <= e <= len`, and the highlight lies inside the span |
| SourceIndex.SpanBytesHighlighted | src/display.rs:95-97 | every non-newline byte of the span lies in the highlight of its own line, and that line is visited |
| SourceIndex.CaretRowMarksSpan | src/display.rs:101-107 | the caret row is `he - s` long with a caret exactly under the bytes of the span and a space under every other byte |
| SourceIndex.WriteLine | src/display.rs:96-118 | one loop turn writes the line's text row and caret row (String) or the line with the highlight painted (Terminal) |
| SourceIndex.WriteRows | src/display.rs:99-107 | String mode writes the prefixed text row `s..e`, then the prefixed caret row for `hs..he` |
| SourceIndex.WritePainted | src/display.rs:109-118 | Terminal mode writes the prefixed line with the bytes `hs..he` painted and the rest unchanged |
| SourceIndex.ShowLines | src/display.rs:95-120 | the loop writes the blocks of all lines from `line_idx(start)` to `line_idx(end)`, in order |
| SourceIndex.LinesTextEndsWithNewline | src/display.rs:95-120 | the lines written for a span are never empty and end with a newline |
| SourceIndex.TextRowCount | src/display.rs:100 | a text row holds a newline only for the clamped last line of a text ending in a newline |
| SourceIndex.StringBlockCount | src/display.rs:99-107 | a String-mode block is two output lines, three for the clamped last line |
| SourceIndex.StringLinesCount | src/display.rs:95-120 | String mode writes two output lines per covered line, plus one for the clamped last line |
| SourceIndex.LinePrefixCount | src/display.rs:100 | the `line| ` prefix holds no newline |
| SourceIndex.CaretRowCount | src/display.rs:101-107 | a caret row holds only spaces and carets, so no newline |
| SourceIndex.TerminalBlockCount | src/display.rs:109-118 | with a `paint` that adds no newline, a Terminal-mode block is one output line, two for the clamped last line |
| SourceIndex.TerminalLinesCount | src/display.rs:95-120 | Terminal mode writes one output line per covered line, plus one for the clamped last line |
| SourceIndex.LocatorPosition | src/display.rs:83-93 | the locator's line is the number of newlines before the start; its column is at most the byte distance from the line start, equal to it on ASCII |
| SourceIndex.ShowSource | src/display.rs:77-122 | `show_source` writes exactly `ShowSourceText`: the locator line, then the blocks of the covered lines |
| Display.WriteFmtShape | src/display.rs:124-142 | a rendered message ends with a newline and starts with `error[` or `info: ` by its kind |
| Display.WriteMessage | src/display.rs:124-142 | `write_fmt` writes the header, then `show_source` for an error with a span; `info: m` for an info message |
| Display.RenderAllAppend | src/display.rs:144-154 | rendering a batch of messages is rendering its two parts one after the other |
| Display.RenderAllNonEmpty | src/display.rs:144-154 | a non-empty batch renders to non-empty text |
| Display.RenderAllSnoc | src/display.rs:150-152 | one message more extends the rendering by that message's block |
| Display.ExtractReportTo | src/display.rs:144-154 | every message is written once, in order |
| Display.ExtractReportToString | src/display.rs:172-177 | the string holds the String-mode rendering of every message, in order |
| Display.ExtractReportToIoAsWritten | src/display.rs:156-170 | as written, after each message the whole accumulated buffer is written |
| Display.BufferedWritesRepeat | src/display.rs:156-170 | that output equals the rendered messages for at most one message and is strictly longer from two messages on |
| Display.ExtractReportToIo | src/display.rs:156-170 | with the buffer cleared after each write, every message is written once, in order |
| Reporting.EntryEndsWithNewline | src/reporter.rs:208-215 | each entry of the report (error header and lines, or an info line) ends with a newline |
| Reporting.RenderLogAppend | src/reporter.rs:230-239 | rendering the log distributes over appending to it: earlier output is never rewritten |
| Reporting.RenderLogSnoc | src/reporter.rs:232-239 | logging one message more appends exactly that message's rendering |
| Reporting.RenderLogEndsWithNewline | src/reporter.rs:240-241 | the rendering of a non-empty log ends with the newline that `report` pops |
| Reporting.RenderInfos | src/reporter.rs:223-241 | a log of info messages renders as the messages joined by newlines plus one final newline |
| Reporting.ReporterOutput.constructor | src/reporter.rs:52-57 | a new output starts with an empty log |
| Reporting.Flag.constructor | src/reporter.rs:167 | a new flag is down |
| Reporting.Reporter.constructor | src/reporter.rs:164-170 | a new reporter has a fresh empty log, a fresh lowered flag, and the indexed text |
| Reporting.Reporter.Share | src/reporter.rs:156-161 | a handle built from an existing log, flag and source holds exactly those |
| Reporting.Reporter.Clone | src/reporter.rs:156-161 | a clone shares the log, the flag and the source |
| Reporting.Reporter.Errored | src/reporter.rs:182-184 | `errored` returns the shared flag |
| Reporting.Reporter.Error | src/reporter.rs:186-189 | `error` raises the flag and appends the error with its span to the log |
| Reporting.Reporter.ErrorUnknownLoc | src/reporter.rs:191-193 | `error_unknown_loc` appends an error without a span and leaves the flag alone |
| Reporting.Reporter.ErrorOptionLoc | src/reporter.rs:217-221 | `error_option_loc` appends the error and leaves the flag alone |
| Reporting.Reporter.Info | src/reporter.rs:223-228 | `info` appends the message and leaves the flag alone |
| Reporting.Reporter.WriteError | src/reporter.rs:208-215 | the private `write_fmt` writes the header, then the String-mode lines of the span when there is one |
| Reporting.Reporter.WriteEntry | src/reporter.rs:232-238 | one turn of the report loop renders the entry |
| Reporting.Reporter.RenderEntries | src/reporter.rs:231-239 | the report loop renders every logged entry, oldest first |
| Reporting.Reporter.Report | src/reporter.rs:230-243 | `report` is empty for an empty log, and otherwise is the rendered log without its final newline |
| Reporting.SharedHandles | src/reporter.rs:182-228 | through clones: an error without a span leaves the flag down, an error with one raises it for all handles, an info does not lower it, and the shared log holds all three in order |
| Scenarios.OffsetsFromIndex | src/display.rs:30-42 | any correct newline index is the one `new` builds |
| Scenarios.TwoLinesValid | src/display.rs:30-42 | the index of `"abc\ndef\n"` is `[3, 7]` |
| Scenarios.TwoLinesSpanLines | src/display.rs:51-53 | the span `[1, 6)` of that text covers lines 0 and 1 |
| Scenarios.TwoLinesHighlight | src/display.rs:96-97 | its highlights are `[1, 3)` on line `[0, 3)` and `[4, 6)` on line `[4, 7)` |
| Scenarios.TwoLinesFirstRows | src/display.rs:100-107 | line 0 shows `abc` over one space and two carets |
| Scenarios.TwoLinesSecondRows | src/display.rs:100-107 | line 1 shows `def` over two carets |
| Scenarios.FirstLinePrefix | src/display.rs:100 | line 0 is prefixed `1| `, unpadded |
| Scenarios.LetValid | src/display.rs:30-42 | the index of `"let x = ;\n"` is `[9]` |
| Scenarios.LocatorNames | src/display.rs:44-49 | a named source shows its name; an unnamed one shows `<none>` |
| Scenarios.LetLocator | src/display.rs:83-93 | the span `[8, 9)` of `"let x = ;\n"` is located at line 1, column 9 |
| Scenarios.LetHighlight | src/display.rs:96-97 | its caret row indents eight bytes and marks one |
| Scenarios.EuroValid | src/display.rs:30-42 | the index of `"€x\n"` is `[4]` |
| Scenarios.EuroColumn | src/display.rs:84-86 | the span over `x` is at column 2: the three-byte euro sign is one code point |
| Scenarios.EuroHighlight | src/display.rs:96-97 | the caret row for the same span indents three bytes |
| Scenarios.ClampedValid | src/display.rs:30-42 | the index of `"abc\n"` is `[3]` |
| Scenarios.ClampedLastLine | src/display.rs:56-64 | an empty span at the end of `"abc\n"` lies on line 1, clamped to start at the final newline |
| Scenarios.ClampedColumn | src/display.rs:83-93 | a span starting at the end of `"abc\n"` is located at line 2, column 2: the column counts the final newline |
| Scenarios.InfoReport | src/reporter.rs:230-239 | a log of the info messages `a` and `b` renders as `a\nb\n` |
| Scenarios.InfoThenReport | src/reporter.rs:223-243 | a fresh reporter, `info("a")`, `info("b")`, then `report` returns `a\nb` |

## Findings

| source | as written | input that shows it | evidently intended | confidence | as-written member | corrected member |
|---|---|---|---|---|---|---|
| src/display.rs:162-167 | the buffer `buf` is never cleared, so after each message the writer receives every message rendered so far | any log of two messages, e.g. two info messages: the first is written twice | each message written once, in order, as `extract_report_to` does | high (not executed) | Display.ExtractReportToIoAsWritten, Display.BufferedWritesRepeat | Display.ExtractReportToIo |

## Left out

- Console output: `Console::sink`, `write_io`, the echo of `info` to the
  console, `enable_stdout` and `enable_stderr` write to stdout or stderr;
  the model keeps only the log and the strings built from it.
- `extract_report_to_io`: `io::Write::write` may accept only part of a
  buffer, and `flush` and the `expect` on a format failure are I/O; the model
  treats each `write` as writing the whole buffer.
- ANSI styling: `Style::paint` is a parameter of `Terminal` mode (`paint`),
  not the escape sequences `ansi_term` produces. The Terminal-mode line
  counts (`SourceIndex.TerminalBlockCount`, `SourceIndex.TerminalLinesCount`)
  require of `paint` only that it adds no newline, which holds for escape
  sequences.
- `Reporter::poll`, which the display functions call for their messages
  (src/display.rs:150,163), is not part of this model; `extract_report_to`
  takes the messages as a sequence.
- `Rc`, `RefCell` and `Cell`: sharing is modelled by two heap objects
  (`ReporterOutput`, `Flag`) that clones point to; borrow failures cannot
  arise in the single-threaded code and are not modelled.
- Formatting errors: `show_source`, `write_fmt` and `extract_report_to` are
  generic over any `fmt::Write`, and with a failing writer they stop after
  partial output and return `Err`. The model fixes the writer to a growing
  byte string, which never fails, and so drops that early exit and
  `fmt::Result`.
- Error codes are compared by value; the identity of the source's
  `&'static ErrorDesc` references and `ErrorDesc::new` are not modelled. The error-code
  table and the macros of `src/lib.rs` are not part of this model.
- Spans built by hand (the fields of `Loc` are public) with `start > end`
  that end on an earlier line than they start are not modelled: the source
  visits no line for them (`start_line..=end_line` is empty) and writes at
  most the locator, while `SourceIndex.SpanFits` demands `start <= end`.
- `usize` width: offsets are unbounded naturals; the underflows the code can
  hit are excluded by preconditions instead of wrapping.
- UTF-8 validity of the text is not modelled: any byte sequence is accepted,
  and code points are counted as bytes that are not continuation bytes.
- Text equality of whole rendered blocks is stated through their parts (line
  spans, text rows, caret rows, locator numbers) rather than as full byte
  strings in `Scenarios`.
