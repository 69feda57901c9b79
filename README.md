# MicroPython serial protocol client

This project models the serial client of MicroPython Firmware Studio. The client
talks to a MicroPython board over a serial port and asks it two things:

- the interpreter version;
- the file tree.

It does this through the board's friendly REPL and its raw REPL.

There are two generations of this client:

- `serial_plugin/` is the current one;
- `lib/` is an older copy of the base class, the version probe and the runner.

Modules:

- `FakeSerial` stands for the pyserial port. It records what the client writes and holds
  the input buffer the board has filled and the client has not read yet.
- `SerialPluginBase.SerialBase` models the link class. Its `_ser` field is `null` until
  a connect succeeds. The model covers connect and disconnect, the `with` protocol, the
  friendly-REPL exchange and the raw-REPL control sequences. `lib/serial_base.py` and the
  command exchange of `lib/get_micropython_version.py` hold the same code, so the same
  class models both copies.
- `VersionText` and `SerialPluginVersion` model the version probe. It sends
  `import sys; print(sys.version)`, scans the answer for the first line that mentions
  `MicroPython`, and returns the second `;`-separated field of that line, stripped.
- `LibVersion` models the older probe's wake-up exchange.
- `TreeReply` and `SerialPluginFileStructure` model the file-structure probe. It enters
  the raw REPL and sends a small `tree` program. It then reads the reply one byte at a
  time until the `\x04>` prompt arrives, the input runs dry, or 10 seconds pass. Last, it
  strips the raw-REPL envelope.
- `TreeProgram` models what that program prints for a given file system.
- `Dispatch`, `SerialPluginRunner` and `LibRunner` model the command runners. Each
  request opens a fresh link inside a `with` block and runs one probe. The version and
  file-structure requests pass exactly one string to the callback. The debug request
  calls back only if its monitor stops, which happens only by raising. An exception
  reaches the callback as `[ERROR] <message>`.

Support modules:

- `Outcomes` models a Python exception as the `Raised` case of `Outcome`.
- `Utf8` models `str.encode()` and `bytes.decode(errors='ignore')`.
- `PyText` models the `str` methods the client uses: `strip`, `split`, `splitlines`,
  `replace`, `in`, `rsplit`, and `print`'s line ending.

The environment is a set of parameters:

- whether the operating system opens the port;
- what the board sends while the link settles (`banner`);
- what it sends in reply;
- the elapsed time at each pass of the read loop;
- the read that raises, if any.

Behaviour of the code that the model keeps:

- When no line mentions `MicroPython`, the version probe returns the sentinel
  `No MicroPython version found`.
- Decoding uses `errors='ignore'`: ill-formed bytes are dropped, not replaced.
- `get_tree` has no `try`/`finally`. A read that raises therefore skips
  `exit_raw_repl` and leaves the board in the raw REPL.
- The monitor never returns on its own.
- The version command is ASCII text, and `VERSION_BYTES` is its `.encode()`.

## Model

| member | source | states |
|---|---|---|
| SerialPluginBase.SerialBase.constructor | serial_plugin/serial_base.py:17-31 | The defaults are baud rate `SERIAL_RATE` (115200, config/application_configuration.py:22) and a timeout of 2. There is no port object before a connect. The lib copy (lib/serial_base.py:16-30) has the same defaults. |
| SerialPluginBase.SerialBase.Connect | serial_plugin/serial_base.py:39-45 | Returns true exactly when the port opens, and then holds a fresh open port whose input is what the board sent while settling. A failure returns false, raises nothing and leaves `_ser` as it was. The same holds for lib/serial_base.py:38-44. |
| SerialPluginBase.SerialBase.Disconnect | serial_plugin/serial_base.py:53-54 | Closes the port only when one exists and is open. A second call, or a call before any connect, closes nothing, so the port is closed at most once. The same holds for lib/serial_base.py:52-53. |
| SerialPluginBase.SerialBase.SendReplCommand | serial_plugin/serial_base.py:68-77 | With no port or a closed port, raises `REPL not connected` and writes nothing. Otherwise it writes the encoded command and CRLF, drains the input buffer, and returns all unread input, decoded and stripped. The lib copy `_send_command` (lib/get_micropython_version.py:58-66) behaves the same. |
| SerialPluginBase.SerialBase.EnterRawRepl | serial_plugin/serial_base.py:85-91 | With no port, raises the `NoneType` attribute error for `write`. On a closed port it raises the port-not-open error and changes nothing. On an open port it writes `\r\x03\x03` and then `\r\x01`, and empties the input. |
| SerialPluginBase.SerialBase.ExitRawRepl | serial_plugin/serial_base.py:99-100 | Writes exactly `\r\x02` on an open port and leaves the input alone. It raises on a missing port or a closed one. |
| SerialPluginBase.SerialBase.Enter | serial_plugin/serial_base.py:110-111 | Tries to connect and returns the link itself, whether or not the connect worked. The same holds for lib/serial_base.py:63-64. |
| SerialPluginBase.SerialBase.Exit | serial_plugin/serial_base.py:129 | Always disconnects: the port ends closed, with one more close only if it was open. The same holds for lib/serial_base.py:82. |
| FakeSerial.Serial.Write | serial_plugin/serial_base.py:71 | `write()` appends exactly the given bytes on an open port. On a closed port it raises and writes nothing. |
| FakeSerial.Serial.Close | serial_plugin/serial_base.py:54 | `close()` leaves the port closed and counts one more close. |
| FakeSerial.Serial.ReadAll | serial_plugin/serial_base.py:74 | `read_all()` returns every unread byte and leaves the input empty. On a closed port it raises. No caller reaches that case. |
| FakeSerial.Serial.Read | serial_plugin/serial_get_file_structure.py:56 | `read(1)` returns the next unread byte, or no bytes once the input is empty. It raises on a closed port or when the device reports an error. |
| FakeSerial.Serial.ResetInputBuffer | serial_plugin/serial_base.py:91 | Discards all unread input on an open port, and raises on a closed one. |
| Utf8.Encode | serial_plugin/serial_get_file_structure.py:47 | `.encode('utf-8')` gives at least one byte per character. EncodeAppend, EncodeAscii and DecodeEncode pin its value. |
| Utf8.Decode | serial_plugin/serial_base.py:74 | `.decode(errors='ignore')` gives at most one character per byte. DecodeEncode, DecodeEncodeAppend and DecodeAscii pin its value on well-formed UTF-8. DecodeDropsStrayByte, DecodeDropsTruncatedLead, DecodeDropsTruncatedPair and DecodeDropsTruncatedTriple pin it on ill-formed bytes. |
| Utf8.EncodeAscii | serial_plugin/serial_base.py:71 | `.encode()` of ASCII text is its code points as bytes. |
| Utf8.DecodeEncode | serial_plugin/serial_get_file_structure.py:64 | Decoding the UTF-8 encoding of any text gives the text back. |
| Utf8.DecodeEncodeAppend | serial_plugin/serial_get_file_structure.py:64 | When text that was encoded is followed by other bytes, the decode returns the text followed by the decode of those bytes. |
| Utf8.EncodeAppend | serial_plugin/serial_get_file_structure.py:47 | The encoding of concatenated text is the concatenation of the encodings. |
| Utf8.DecodeAscii | serial_plugin/serial_base.py:74 | ASCII bytes decode one character per byte. |
| Utf8.DecodeDropsStrayByte | serial_plugin/serial_base.py:74 | A byte that cannot start a UTF-8 sequence is dropped. This covers a stray continuation byte, 0xC0, 0xC1, and every byte from 0xF5 up. Decoding goes on with the next byte. |
| Utf8.DecodeDropsTruncatedLead | serial_plugin/serial_get_file_structure.py:64 | A lead byte is dropped on its own when the input ends after it, or when the next byte cannot be its second byte. Decoding resumes at that next byte. |
| Utf8.DecodeDropsTruncatedPair | serial_plugin/serial_get_file_structure.py:64 | A three- or four-byte lead and a fitting second byte are dropped together when no continuation byte follows them. |
| Utf8.DecodeDropsTruncatedTriple | serial_plugin/serial_get_file_structure.py:64 | A four-byte lead and its two fitting bytes are dropped together when no continuation byte follows them. |
| PyText.RStrip | serial_plugin/serial_get_file_structure.py:71 | `rstrip()` gives the longest prefix that does not end in whitespace. Everything it drops is whitespace. |
| PyText.LStrip | serial_plugin/serial_get_file_structure.py:68 | The `lstrip` half of `strip()` gives the longest suffix that does not start in whitespace. Everything it drops is whitespace. |
| PyText.Strip | serial_plugin/serial_base.py:77 | The result of `strip()` neither starts nor ends in whitespace. |
| PyText.StripSlice | serial_plugin/serial_base.py:77 | `strip()` keeps one slice of the text, and everything before and after that slice is whitespace. |
| PyText.StripKeeps | serial_plugin/serial_get_version.py:28 | Stripping keeps a non-space character exactly when the text has it. |
| PyText.Split | serial_plugin/serial_get_version.py:28 | `split(";")` gives at least one part and no part contains `;`. It gives a single part exactly when the text has no `;`. |
| PyText.JoinSplit | serial_plugin/serial_get_version.py:28 | Joining the parts of `split(";")` with `;` gives the text back. |
| PyText.SplitLines | serial_plugin/serial_get_version.py:24 | No line of `splitlines()` holds a line break, and there are no lines exactly when the text is empty. |
| PyText.SplitLinesRebuild | serial_plugin/serial_get_version.py:24 | The lines of `splitlines()`, each followed by the terminator it dropped, give the text back. Every terminator is `\r\n` or one line-break character, and only the last one may be empty. A lone `\r` is never followed by a `\n`. The last line and its terminator are never both empty, so there is no trailing empty line. |
| PyText.SplitLinesPrinted | serial_plugin/serial_get_file_structure.py:26 | Lines that the board printed, one `print` each, split back into the same lines. |
| PyText.SplitLinesStripped | serial_plugin/serial_get_file_structure.py:71 | Printed lines still split back into the same lines once the trailing whitespace is trimmed, provided the last line ends in a visible character. |
| PyText.IndexOf | serial_plugin/serial_get_file_structure.py:67 | `'OK' in out` finds the first position where `OK` occurs, and `OK` occurs at no earlier position. |
| PyText.AfterFirst | serial_plugin/serial_get_file_structure.py:68 | `split('OK', 1)[1]` is the suffix that starts right after the first occurrence of `OK`: `OK` occurs just before it and at no earlier position. |
| PyText.BeforeLast | serial_plugin/serial_get_file_structure.py:68 | `rsplit('\x04', 1)[0]` is the prefix before the last `\x04`, or the whole text when there is none. |
| PyText.RemoveAll | serial_plugin/serial_get_file_structure.py:71 | `replace('\x04', '')` keeps every other character and leaves no `\x04`. |
| VersionText.SecondField | serial_plugin/serial_get_version.py:28 | Taking field 1 raises `IndexError` exactly when the line has no `;`. Otherwise the result holds no `;`. |
| VersionText.ScanLines | serial_plugin/serial_get_version.py:26-30 | The loop over the lines gives the sentinel when there are no lines. It can only raise the `IndexError` of a marked line without a second field, and a version it returns holds no `;`. |
| VersionText.ExtractVersion | lib/get_micropython_version.py:25-31 | `_extract_version` gives the sentinel for empty output. It can only raise the `IndexError`, and a version it returns holds no `;`. Its value is fixed by the lemmas below. The same code is at serial_plugin/serial_get_version.py:24-30. |
| VersionText.ScanLinesFirstMarked | serial_plugin/serial_get_version.py:26-28 | The scan returns field 1 of the first line that mentions `MicroPython`. |
| VersionText.ScanLinesUnmarked | serial_plugin/serial_get_version.py:26-30 | Without a line that mentions `MicroPython`, the scan returns the sentinel `No MicroPython version found`. |
| VersionText.ScanLinesIgnoresLater | lib/get_micropython_version.py:27-29 | Lines after the first marked one never change the result. |
| VersionText.ExtractVersionFirstMarked | serial_plugin/serial_get_version.py:24-28 | `_extract_version` returns field 1 of the first line of `splitlines()` that mentions `MicroPython`. |
| VersionText.ExtractVersionUnmarked | lib/get_micropython_version.py:25-31 | Output in which no line mentions `MicroPython` gives exactly the sentinel `No MicroPython version found`. |
| VersionText.SecondFieldOfMore | serial_plugin/serial_get_version.py:28 | For a line `a;b;c`, where `a` and `b` hold no `;`, the result is `b` stripped, whatever `c` is. |
| VersionText.SecondFieldOfTwo | serial_plugin/serial_get_version.py:28 | For a line `a;b`, where neither part holds a `;`, the result is `b` stripped. |
| VersionText.ExtractVersionOneLine | serial_plugin/serial_get_version.py:24-28 | A one-line answer `a;b;c` whose second field mentions `MicroPython` gives that field stripped. |
| VersionText.ExtractVersionSecondLine | serial_plugin/serial_get_version.py:24-28 | When the first line is unmarked and the second is marked, the second line decides the result. |
| VersionText.CommandUnmarked | serial_plugin/serial_get_version.py:40 | The command that the REPL echoes does not mention `MicroPython`, so the echo never hides the answer. |
| VersionText.ExtractVersionAfterEcho | serial_plugin/serial_get_version.py:24-30 | After the echoed command, the first marked line of the answer decides the result. |
| VersionText.ExtractVersionOfEchoReply | serial_plugin/serial_get_version.py:40-43 | A friendly-REPL answer (the echo, the version line, then the `>>> ` prompt) yields field 1 of the version line once stripped. |
| SerialPluginVersion.CommandAscii | serial_plugin/serial_base.py:71 | The version command's `.encode()` gives the ASCII bytes of `import sys; print(sys.version)`. |
| SerialPluginVersion.GetVersion | serial_plugin/serial_get_version.py:40-43 | Without an open port, the result is the `REPL not connected` error and nothing is written. Otherwise the command and CRLF are written once and the input is left empty. The result is the extraction from all unread input, decoded and stripped. The lib copy `get_version` (lib/get_micropython_version.py:76-77) behaves the same. |
| SerialPluginVersion.GetVersionOfEchoReply | serial_plugin/serial_get_version.py:40-43 | When the board's answer arrives on a freshly emptied input, `get_version` returns field 1 of the version line. |
| LibVersion.WakeRepl | lib/get_micropython_version.py:40-44 | Empties the input, writes exactly CRLF, and leaves the input empty again with the board's answer discarded. It raises on a missing port and, before writing, on a closed one. |
| TreeReply.Loop | serial_plugin/serial_get_file_structure.py:51-61 | The read loop never reads beyond the bytes the board sent. |
| TreeReply.PromptAtEndsWith | serial_plugin/serial_get_file_structure.py:60 | The slice-free prompt test agrees with `output.endswith(b'\x04>')` after `j` bytes. |
| TreeReply.LoopStep | serial_plugin/serial_get_file_structure.py:52-61 | While the deadline holds, the read succeeds, a byte arrives and no prompt has appeared, the loop takes one more byte. |
| TreeReply.LoopLast | serial_plugin/serial_get_file_structure.py:52-61 | A pass that does not continue reads at most one more byte, and it reads one exactly when that byte completes the prompt. |
| TreeReply.LoopEndsAsSaid | serial_plugin/serial_get_file_structure.py:51-61 | Each way the loop ends matches its cause: the deadline, a read error, a dry input or the prompt. |
| TreeReply.LoopEnds | serial_plugin/serial_get_file_structure.py:51-61 | Apart from a timeout, the output is exactly the bytes read. On a timeout the output is `b'[ERROR] Timeout'` and the deadline had passed. A dry input means that everything was read. A prompt ending means that the output ends in `\x04>`. A read error is the configured fault at that read. |
| TreeReply.LoopChecksPassed | serial_plugin/serial_get_file_structure.py:52-56 | Every byte the loop read was read before the deadline and without an error. |
| TreeReply.LoopPromptFirst | serial_plugin/serial_get_file_structure.py:60-61 | The loop stops at the first `\x04>`. No earlier prefix ended in it. |
| TreeReply.LoopStopsAtFirstExit | serial_plugin/serial_get_file_structure.py:51-61 | The loop stops at its first exit. Before it, every check passed and no prefix read so far ended in `\x04>`. |
| TreeReply.LoopReadsWholeReply | serial_plugin/serial_get_file_structure.py:56-61 | A reply whose only `\x04>` is at its end, read in time and without error, is read whole and ends at the prompt. |
| TreeReply.PromptOnlyAtEnd | serial_plugin/serial_get_file_structure.py:60 | A reply body without Ctrl-D, followed by `\x04\x04>`, shows the prompt only at its very end. |
| TreeReply.ReadLoopOfReply | serial_plugin/serial_get_file_structure.py:51-61 | A raw-REPL reply read in time is read whole and ends at the prompt. |
| TreeReply.StripEnvelope | serial_plugin/serial_get_file_structure.py:67-71 | The stripped text holds no `\x04` and ends in a visible character. Without `OK`, it is the whole reply with `\x04` removed and trailing whitespace trimmed. |
| TreeReply.RemoveAllAppend | serial_plugin/serial_get_file_structure.py:71 | Removing `\x04` from a concatenation removes it from each part. |
| TreeReply.StripEnvelopePlain | serial_plugin/serial_get_file_structure.py:69-71 | Text without `OK`, without `\x04` and without outer whitespace passes through unchanged. |
| TreeReply.AfterFirstAck | serial_plugin/serial_get_file_structure.py:68 | When the bytes before the acknowledgement hold no `O`, `split('OK', 1)[1]` is exactly what follows the acknowledgement. |
| TreeReply.BeforeLastEot | serial_plugin/serial_get_file_structure.py:68 | `rsplit('\x04', 1)[0]` of a body followed by `\x04\x04>` keeps the body and its first `\x04`. |
| TreeReply.StripBeforeEot | serial_plugin/serial_get_file_structure.py:68-71 | `strip()` keeps the remaining `\x04`, and `replace` then removes it. |
| TreeReply.StripEnvelopeOfReply | serial_plugin/serial_get_file_structure.py:67-71 | A reply of the form junk, `OK`, body, `\x04\x04>` strips to the body with its outer whitespace trimmed. |
| TreeReply.DecodeTimeoutBytes | serial_plugin/serial_get_file_structure.py:53 | The timeout bytes decode to `[ERROR] Timeout`. |
| TreeReply.TimeoutSurvivesStripping | serial_plugin/serial_get_file_structure.py:67-71 | The envelope stripping leaves the timeout text unchanged. |
| TreeReply.TimeoutReply | serial_plugin/serial_get_file_structure.py:52-54 | A read loop that times out yields exactly `[ERROR] Timeout` as the probe's result. |
| TreeReply.SilentReply | serial_plugin/serial_get_file_structure.py:57-58 | A board that sends nothing ends the loop at once with no data, and the result is empty. |
| SerialPluginFileStructure.ReadUntilPrompt | serial_plugin/serial_get_file_structure.py:48-61 | The imperative byte-at-a-time loop computes the read-loop function. It returns the output, or raises the read error, and leaves unread exactly the bytes after those consumed. |
| SerialPluginFileStructure.GetTree | serial_plugin/serial_get_file_structure.py:46-71 | With no port, raises the `write` attribute error. On a closed port, raises the port-not-open error and writes, reads and closes nothing. On an open port it writes Ctrl-C, Ctrl-A, the program and Ctrl-D, then reads the reply. It writes Ctrl-B unless a read raised, and returns the stripped reply. |
| SerialPluginFileStructure.TreeOutcome | serial_plugin/serial_get_file_structure.py:63-71 | How the read loop ended decides `get_tree`'s result. It raises exactly when a read raised, and any text it returns holds no `\x04` and ends in a visible character. |
| SerialPluginFileStructure.TreeReplyRead | serial_plugin/serial_get_file_structure.py:47-61 | The board's reply to the program is read whole when it arrives in time. |
| SerialPluginFileStructure.TreeReplyEnvelope | serial_plugin/serial_get_file_structure.py:67-71 | Stripping the reply leaves exactly the printed lines, with trailing whitespace trimmed. |
| SerialPluginFileStructure.TreeReplyStripped | serial_plugin/serial_get_file_structure.py:67-71 | The stripped reply splits back into exactly the lines the program printed. |
| SerialPluginFileStructure.TreeReplyRecovered | serial_plugin/serial_get_file_structure.py:46-71 | End to end, a reply read in time is read up to its prompt and decoded and stripped back into the lines the program printed. |
| SerialPluginFileStructure.EntryLinePrintable | serial_plugin/serial_get_file_structure.py:26 | An entry line, made of the prefix, the connector and a printable name, has no line break, no Ctrl-D and a visible last character. |
| SerialPluginFileStructure.MarginExtends | serial_plugin/serial_get_file_structure.py:30-31 | Extending the prefix for a subdirectory keeps it free of line breaks and Ctrl-D. |
| SerialPluginFileStructure.TreeLinesPrintable | serial_plugin/serial_get_file_structure.py:17-33 | When every name is printable, every line the program prints is printable. |
| SerialPluginFileStructure.EntriesLinesPrintable | serial_plugin/serial_get_file_structure.py:23-32 | The same holds for the lines printed from entry `idx` onwards. |
| SerialPluginFileStructure.TreeStartsWithConnector | serial_plugin/serial_get_file_structure.py:25-26 | A non-empty root listing prints a first line that starts with a visible connector. |
| SerialPluginFileStructure.BoardTreeRecovered | serial_plugin/serial_get_file_structure.py:16-71 | For any file system with printable names, the probe recovers exactly the lines that `tree('')` prints on the board. That includes an empty or unreadable root, where both are empty. |
| SerialPluginFileStructure.EmptyTreeReplyRecovered | serial_plugin/serial_get_file_structure.py:51-71 | When the program prints nothing, the reply is read up to the prompt and stripping leaves the empty text. |
| SerialPluginFileStructure.EmptyTree | serial_plugin/serial_get_file_structure.py:19-23 | An unreadable or empty directory prints no lines. |
| TreeProgram.LexLeTotal | serial_plugin/serial_get_file_structure.py:22 | Python's string order is total. |
| TreeProgram.LexLeTrans | serial_plugin/serial_get_file_structure.py:22 | Python's string order is transitive. |
| TreeProgram.Insert | serial_plugin/serial_get_file_structure.py:22 | Inserting into a sorted listing keeps it sorted and adds exactly that entry. |
| TreeProgram.SortByName | serial_plugin/serial_get_file_structure.py:22 | `files.sort()` gives a listing that is sorted by name and is a permutation of the input. |
| TreeProgram.Tree | serial_plugin/serial_get_file_structure.py:17-33 | Every line begins with the prefix and has at least four characters after it: a connector for the directory's own entries, or `│   ` or four blanks on the lines of a subdirectory. An unreadable directory prints nothing. |
| TreeProgram.Entries | serial_plugin/serial_get_file_structure.py:23-32 | Every line printed from entry `idx` onwards begins with the prefix and has at least four characters after it. |
| TreeProgram.NoHeadsBelow | serial_plugin/serial_get_file_structure.py:29-31 | Lines that a subdirectory prints never carry a connector at the parent's depth. |
| TreeProgram.EntriesHeads | serial_plugin/serial_get_file_structure.py:23-26 | At this depth, the entries from `idx` onwards print exactly their own connector lines, in order. |
| TreeProgram.TreeHeads | serial_plugin/serial_get_file_structure.py:22-26 | A directory's connector lines are its entries, sorted by name: `└── ` for the last one and `├── ` for the others. |
| Dispatch.Delivered | serial_plugin/serial_command_runner.py:31-34 | The callback string is the worker's result. For an exception, it starts with `[ERROR] ` and continues with the exception's message. |
| Dispatch.DeliveredError | serial_plugin/serial_command_runner.py:33-34 | Every exception reaches the callback as `[ERROR] ` followed by its message, and can be read back as that exception. |
| Dispatch.DeliveredReceived | lib/serial_command_runner.py:25-31 | The callback string tells what the worker did, except when the worker itself returned a string that starts with `[ERROR] `. |
| Dispatch.ReturnedLooksRaised | serial_plugin/serial_command_runner.py:31-36 | A returned string that starts with `[ERROR] ` reaches the callback exactly as the matching exception would. |
| Dispatch.CallbackLog.Task | serial_plugin/serial_command_runner.py:30-37 | The callback is called exactly once, with the result or the error line. The same holds for lib/serial_command_runner.py:25-31. |
| SerialPluginRunner.VersionOutcome | serial_plugin/serial_command_runner.py:65-66 | The version probe on a fresh link can only raise `REPL not connected` or the `IndexError`, and a version it returns holds no `;`. |
| SerialPluginRunner.StructureOutcome | serial_plugin/serial_command_runner.py:78-79 | The file-structure probe on a fresh link can only raise the `write` attribute error of a port that did not open, or the read error the device reported. Any text it returns holds no `\x04`. |
| SerialPluginRunner.MonitorOutcome | serial_plugin/serial_command_runner.py:52-53 | The monitor ends only by raising. |
| SerialPluginRunner.RunVersion | serial_plugin/serial_command_runner.py:65-66 | Opens a fresh link with the default settings and runs the version probe. The link ends closed, closed once when it opened. |
| SerialPluginRunner.RunStructure | serial_plugin/serial_command_runner.py:78-79 | Opens a fresh link and runs the file-structure probe. The link is closed afterwards, even after a read error. It wrote exactly the raw-REPL exchange. |
| SerialPluginRunner.RunMonitor | serial_plugin/serial_command_runner.py:52-53 | The monitor ends only by raising. In that case the link is closed. While the monitor runs, the link stays open. |
| SerialPluginRunner.RequestVersion | serial_plugin/serial_command_runner.py:105 | `get_version` hands the callback exactly one string: what the version probe gave on that port. |
| SerialPluginRunner.RequestStructure | serial_plugin/serial_command_runner.py:118 | `get_structure` hands the callback exactly one string: what the file-structure probe gave on that port. |
| SerialPluginRunner.RequestDebug | serial_plugin/serial_command_runner.py:92 | `get_debug` calls back once if the monitor stops, and never otherwise. |
| SerialPluginRunner.VersionWithoutPort | serial_plugin/serial_command_runner.py:65-66 | A port that does not open gives `[ERROR] REPL not connected`. |
| SerialPluginRunner.StructureWithoutPort | serial_plugin/serial_command_runner.py:78-79 | A port that does not open gives the `write` attribute error before anything is written. |
| SerialPluginRunner.TimeoutIsErrorLine | serial_plugin/serial_command_runner.py:33-34 | The timeout sentinel has the form of an error line. |
| SerialPluginRunner.TimeoutLooksRaised | serial_plugin/serial_command_runner.py:33-36 | A timed-out tree probe reaches the callback exactly as an exception `Timeout` would. |
| LibRunner.RunProbe | lib/serial_command_runner.py:47-48 | `_get_version` (and `_get_structure`, lines 60-61) open a fresh link and pass the probe's outcome on unchanged. The link ends closed, closed once when it opened. |
| LibRunner.RequestVersion | lib/serial_command_runner.py:74 | The callback receives exactly one string, built from the version probe's outcome. |
| LibRunner.RequestStructure | lib/serial_command_runner.py:87 | The callback receives exactly one string, built from the file-structure probe's outcome. |

## Left out

- Threads. Only the body of the `task` each runner starts is modelled, not `Thread(...).start()`.
- Sleeps, the clock and logging:
  - the `sleep` calls (including the lib `_connect`'s fixed `sleep(2)` in place of `sleep(self._timeout)`) are not modelled;
  - bytes the board sends during a sleep are a parameter;
  - `time()` is the `elapsed` parameter;
  - `debug`/`error` logging is dropped.
- The real pyserial port. Its effect on the buffers is modelled. Baud rates, timeouts that block `read(1)` and the operating system are not.
- The board itself, beyond the lines the `tree` program prints for an abstract file system. `Entry` carries an `os.stat` mode or an error. `os.listdir` answers a listing or an error.
- SerialPluginRunner.RunMonitor: the endless echo loop of `get_debug` (serial_plugin/serial_monitor.py) is reduced to whether and how it ends. The lines it logs are not modelled.
- LibRunner.RunProbe: lib/serial_command_runner.py imports `lib.serial_get_micropython_version` and `lib.serial_get_file_structure`, which are not part of this model. The probes' outcomes are parameters, and what they write on the port is not stated.
- The GUI callers (ui/, lib/firmware_studio.py) and the esptool runner.
- Boards that end printed lines other than with `\r\n`. The board is taken to print `\r\n` after every line, as MicroPython does on a serial REPL.
- PyText.Strip: its own contract states only that the result has no outer whitespace. That the result is the slice between the outer whitespace is the lemma StripSlice, because that existential fact, in the contract of a function called this often, makes its callers' proofs run out of resource.
- PyText.SplitLines: its own contract states only the shape of the lines. That they rebuild the text is the lemma SplitLinesRebuild.
