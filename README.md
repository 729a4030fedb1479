# Robot GUI log replay — a Dafny model

`robot_gui_v5.py` is a PyQt window that sends hex-encoded SBUS command frames
to a robot over a serial port and replays capture logs. Apart from widget
construction, it holds three pieces of logic, and this project models them:

- **The log loader** (`load_log`). It strips each line of a capture log and
  drops blank lines. A line whose upper-cased form contains `SBUS:` becomes a
  command row carrying the label before the marker and the upper-cased hex
  text after it. Every other line becomes a block header. The loader also
  counts the command rows (`total_cmds`) and zeroes `sent_cmds`.
- **The frame decoder** (`_write_serial`). It splits the hex text on
  whitespace and turns each token into one byte of base 16. A bad token is an
  encoding error, and then nothing is written.
- **The replay engine.** `run_selected_block` queues the rows after a chosen
  header, up to the next row without data, and leaves out rows whose text
  carries `(A)`–`(D)`. `_run_next` is one timer tick. `stop_run` stops the
  timer. `send_from_list` and `send_selected_item` send a row, mark it green
  and count it. `reset_colors` clears the marks and the sent count.

Files:

- `wrappers.dfy` — `Option` and `Result`.
- `seqs.dfy` — small generic sequence facts.
- `text.dfy` — Python's `strip`, `upper`, `in`, `split(sep)` and `split()`,
  on ASCII text.
- `hex.dfy` — the frame decoder, and an encoder that it inverts.
- `log_parser.dfy` — the per-line logic of `load_log` and the whole load.
- `robot_gui.dfy` — the class `RobotGui`, with the rows, marks, counters,
  run queue, run index and timer flag that the source keeps in the window.
  Its methods are `Load`, `SelectBlock`, `Tick`, `Stop`, `ManualSend` and
  `ResetMarks`.

Modelling choices:

- A row's stored data (`UserRole`) is the command's hex text. A command line
  with nothing after `SBUS:` stores `""`, which Python treats as false. Such
  a row counts toward `total_cmds`, but everywhere else it behaves like a
  header (`HasData`).
- A line whose marker is spelt in any case other than exactly `SBUS:` (such
  as `sbus:` or `Sbus:`) passes the case-insensitive test at line 182. Its
  case-sensitive split at line 183 then gives one part, and `parts[1]` raises
  `IndexError`. The model keeps the rows added before that
  line and reports the line (`Raised`). The exception escapes a Qt slot. The
  model describes the state at the moment of the raise. What the Qt runtime
  then does with the process is not modelled.
- `log_list.clear()` deletes the list's items, but `run_queue` still holds
  references to them. The model marks the queue `stale` after a load. A tick
  that reaches a stale row raises (`Fault`) and changes nothing. A load does
  not stop a running timer, and neither does the model.
- `run_selected_block` empties `run_queue` before it finds that the block is
  empty. So `EmptyBlock` leaves an empty queue but does not touch the timer
  or the index.
- `sent_cmds` goes up on every send, whether the frame was written, the port
  was closed, or the hex text failed to decode.
- Whitespace means the ASCII characters for which `str.isspace` holds.
  `upper` is ASCII-only. A hex token is a non-empty string of hex digits.
- The hex text is decoded only when a row is sent, never at load time. A
  second start of a run while one is active simply restarts it.

## Model

| member | source | states |
|---|---|---|
| `Text.Trim` | robot_gui_v5.py:177-178 | the stripped line has no whitespace at either end, is empty exactly when the line is all whitespace, and leaves already-stripped text as it is |
| `Text.TrimSlice` | robot_gui_v5.py:177-178 | the stripped line is one slice of the line, and everything cut off before and after it is whitespace |
| `Text.Upper` | robot_gui_v5.py:182 | upper-casing keeps the length, upper-cases each ASCII letter and leaves no lower-case letter |
| `Text.SplitFirstTwoSpec` | robot_gui_v5.py:183-185 | `split("SBUS:")` has a second part exactly when the marker occurs; the first part is the text before the first marker, the second the text up to the next marker or the end, and neither part contains the marker |
| `Text.TokensEmpty` | robot_gui_v5.py:148 | `split()` gives no token exactly when the text is all whitespace |
| `Text.TokensFirstWord` | robot_gui_v5.py:148 | on any text that is not all whitespace, `split()` skips the leading whitespace, takes the maximal run of non-whitespace after it as the first token, and splits the rest after that run; with `Text.TokensEmpty` this fixes the tokens of every text |
| `Text.TokensOfJoined` | robot_gui_v5.py:148 | `split()` on words joined by single spaces gives the words back |
| `HexCodec.DecodeTokens` | robot_gui_v5.py:148 | the decoding succeeds exactly when every token is a hex numeral below 256, then gives one byte per token equal to its base-16 value; otherwise the error names the first bad token |
| `HexCodec.Decode` | robot_gui_v5.py:148 | the same, for the whitespace-separated tokens of a command's hex text: success exactly when every token is a byte, then one byte per token with its value; otherwise the error names the first bad token |
| `HexCodec.DecodeEncodeHex` | robot_gui_v5.py:148 | decoding a frame written as space-separated two-digit hex gives the frame's bytes back |
| `HexCodec.DecodeExample` | robot_gui_v5.py:148 | `"AA BB CC"` decodes to `[0xAA, 0xBB, 0xCC]` |
| `HexCodec.DecodeNotHexExample` | robot_gui_v5.py:148 | a token that is not hex stops the decoding with an error naming it |
| `HexCodec.DecodeOutOfRangeExample` | robot_gui_v5.py:148 | a token above `FF` stops the decoding with an out-of-range error naming it |
| `LogParser.ParseLineKind` | robot_gui_v5.py:177-194 | a line is dropped exactly when it is all whitespace; it is a header exactly when its upper-cased stripped form lacks `SBUS:`; it is a command exactly when the stripped line has `SBUS:`; otherwise the split raises |
| `LogParser.ParseLineHeader` | robot_gui_v5.py:192-201 | a header holds the stripped, non-empty line |
| `LogParser.ParseLineCommand` | robot_gui_v5.py:182-185 | a command's label is the stripped text before the first marker; its hex text is the stripped, upper-cased text between the first marker and the next one or the end |
| `LogParser.ParseLogFails` | robot_gui_v5.py:176-185 | a load fails exactly when some line's split raises |
| `LogParser.ParseLogOrder` | robot_gui_v5.py:176-201 | up to the line whose split raises, blank lines are dropped and every other line yields exactly one row, in line order |
| `LogParser.CollectFailure` | robot_gui_v5.py:176-185 | the load stops at the first line whose split raises, and only then |
| `LogParser.AppendEntry` | robot_gui_v5.py:189-191 | appending a row adds one to the command count, and its hex text to `log_commands`, exactly when the row is a command |
| `LogParser.CommandsCountMarkerLines` | robot_gui_v5.py:182-191 | `total_cmds` after a load is the number of lines before the failing one (if any) whose upper-cased stripped form has `SBUS:` |
| `LogParser.CommandLineRoundTrip` | robot_gui_v5.py:182-188 | a line `<tag> SBUS: <frame>` parses to a command with that tag and frame, and its hex text decodes to the frame's bytes |
| `LogParser.HeaderLineParses` | robot_gui_v5.py:192-194 | a stripped line without the marker parses to a header holding it |
| `LogParser.LoadAllRows` | robot_gui_v5.py:176-201 | a log whose lines all parse to rows loads as exactly those rows, in order |
| `LogParser.TwoBlockLog` | robot_gui_v5.py:176-201 | a log of two headers, each followed by one command line, loads as its four rows in order |
| `Replay.SkippedCommand` | robot_gui_v5.py:186 | a command row's displayed text holds a skip marker exactly when its label or its hex text does |
| `Replay.WriteSerialOutcome` | robot_gui_v5.py:146-156 | a frame is written exactly when the port is open and every whitespace-separated token of the hex text is a base-16 numeral below 256; otherwise the encoding error names the first bad token, whether or not the port is open |
| `Replay.WrittenFrame` | robot_gui_v5.py:148-150 | a written frame has one byte per token, each the token's base-16 value |
| `Replay.WriteSerialExamples` | robot_gui_v5.py:148-156 | `"AA BB CC"` is written as three bytes to an open port, is refused by a closed one, and bad tokens give encoding errors |
| `Replay.GatherRows` | robot_gui_v5.py:215-221 | the queued rows lie after the start, carry data, carry no skip marker, and are in increasing order |
| `Replay.GatherMembers` | robot_gui_v5.py:215-221 | a row is queued exactly when it lies after the start, has no skip marker, and every row from the start up to it has data |
| `Replay.SkipMarkedNeverQueued` | robot_gui_v5.py:219-220 | a command whose label carries `(A)`–`(D)` is never queued |
| `Replay.ScanBlock` | robot_gui_v5.py:213-221 | the scan loop builds exactly the queue that `Gather` describes |
| `Replay.LoadLine` | robot_gui_v5.py:177-191 | one pass of the load loop extends the rows as the whole-file load does, keeping `log_commands` and `total_cmds` in step |
| `Replay.ReadLines` | robot_gui_v5.py:175-201 | the load loop gives the rows and the failing line of `ParseLog`, with `log_commands` the commands' hex texts and `total_cmds` their number |
| `Replay.RobotGui.constructor` | robot_gui_v5.py:102-114 | a new window has no rows, zero counters, an empty queue and an idle timer |
| `Replay.RobotGui.Load` | robot_gui_v5.py:166-204 | a cancelled dialog changes nothing; otherwise the rows become the parsed log, unmarked, with `sent_cmds` 0 and `total_cmds` the command count, while the queue, index and timer stay |
| `Replay.RobotGui.Install` | robot_gui_v5.py:169-172 | the new rows replace the old ones, unmarked, with the counters reset |
| `Replay.RobotGui.SelectBlock` | robot_gui_v5.py:206-229 | no selection or a row with data is refused with nothing changed; otherwise the queue becomes the block's rows; an empty block leaves the timer as it was; a non-empty one restarts the run at index 0; rows, marks and counters never change |
| `Replay.RobotGui.SendFromList` | robot_gui_v5.py:247-251 | the row's hex text is handed to the transmit, the row is marked, and `sent_cmds` rises by one whatever the transmit did |
| `Replay.RobotGui.Tick` | robot_gui_v5.py:231-241 | past the end of the queue the timer stops and nothing is sent; otherwise exactly the row at the index is sent and marked, `sent_cmds` and the index rise by one |
| `Replay.RobotGui.Stop` | robot_gui_v5.py:243-245 | the timer stops; the queue, index, marks and counters stay as they are |
| `Replay.RobotGui.ManualSend` | robot_gui_v5.py:253-259 | a row with data is sent, marked and counted as a tick sends it; any other row changes nothing |
| `Replay.RobotGui.ResetMarks` | robot_gui_v5.py:261-268 | every mark is cleared and `sent_cmds` becomes 0; rows and `total_cmds` stay |
| `Replay.RunToEnd` | robot_gui_v5.py:231-241 | ticking until the run stops sends the remaining queued rows in order, one per tick, and takes one more tick to end the run |
| `Replay.ReplayBlock` | robot_gui_v5.py:206-241 | a block started from a header and run to the end sends exactly its queued rows, with `sent_cmds` up by their number and one tick more than rows |
| `Replay.RunThenStop` | robot_gui_v5.py:231-245 | k ticks then stop send exactly the next k queued rows, raise `sent_cmds` by k, and leave the run inactive |
| `Replay.SelectTwice` | robot_gui_v5.py:206-221 | selecting the same row twice gives the same outcome and the same queue |

## Left out

- Widget construction, styling, layout, the terminal text of `log()`, the
  progress label and the TX indicator with its 300 ms timer (lines 9-114,
  117-119, 158-163): presentation only.
- Serial port enumeration, opening, closing and writing (lines 121-144,
  149-150): foreign I/O. The port is the flag `portOpen`, and a write is the
  outcome `Written`. A failure inside the serial library is not modelled.
- The file dialog and reading the file (lines 167, 175): the load takes the
  file's lines, or `None` for a cancelled dialog. An unreadable file is not
  modelled.
- `QTimer` scheduling: the run timer is the flag `running`, and each firing
  is a call of `Tick`. The 500 ms interval carries no logic.
- The `sbus_reference` import (line 5): `sbus_reference` is not part of this
  model.
- `HexCodec.Decode`: does not accept the `0x` prefix, underscores, signs or
  surrounding whitespace that Python's `int(x, 16)` allows in a token.
- `Text.Trim`: treats only ASCII characters as whitespace, while Python's
  `strip` and `split` also use Unicode whitespace.
- `Text.Upper`: upper-cases only ASCII letters, while Python's `upper` also
  maps other Unicode letters.
- What happens to the process after an uncaught exception in a Qt slot (the
  `IndexError` of line 185, or a deleted item reached at line 238): the model
  stops at the raise and keeps the state as it was then.
