# quirc: the IRC line framer and message parser, modelled in Dafny

quirc is a small IRC client library. This project models its two central pieces and proves
properties of them:

- **The message parser** (`quirc/src/parser.rs`). It is a set of nom 4 combinators. They
  turn one CR LF terminated line into a `RawEvent`: an optional prefix (a server host, or a
  user's nick, optional user name and host), a command (a run of digits or of letters), and
  up to fourteen middle parameters plus an optional trailing parameter. `parse_input` then
  maps a `PING` with at least one parameter to a `Ping` event; every other line becomes
  `Unknown`. Each parser is a Dafny function over bytes (`parser.dfy`) that returns
  `Success(value, rest)` or `Failure`, with nom's complete-input behaviour. The token and
  prefix parsers state that their value followed by the rest is the input and that the run
  they took is the longest one. `ParamsParser` and `RawEventParser` state that what they
  consumed is their value written out, with a plain space or with ` :` before the last
  parameter (`ParamsWritten`, `EventWritten`), in a way that reads back (`ReadsBack`);
  `ParamsParserExact` and `RawEventParserExact` prove the converse, so the two pin the
  result down. `ParseInput` states the `PING` mapping for
  every input. `parser_properties.dfy` proves that every parser reads back what is written
  for it, and that a parsed line renders and re-parses to itself. `parser_examples.dfy`
  restates the unit tests of `parser.rs` as lemmas.
- **The line framer and line writer** (`quirc/src/stream.rs`). `StreamParser` keeps a
  buffer of received bytes across calls. `read_line` resizes the buffer to 512 bytes and
  reads after the bytes it holds. After each read it searches the bytes that read brought
  for CR LF. Once one is found it hands out everything up to and including the CR LF and
  keeps the rest. `StreamWriter::write_line` writes a payload and then CR LF. Both are
  Dafny classes whose methods are proved equal to specification functions (`ReadLineSpec`,
  `WriteLineSpec`) that follow the code as written. The properties of the framer and the
  writer are lemmas about those functions.

Bytes are `byte`, a subset of `char` below 256, so byte strings can be written as string
literals (`wire.dfy`). `std::str::from_utf8`, which every parser applies to what it
consumed, is modelled by a UTF-8 well-formedness predicate (`utf8.dfy`).

The socket is abstract. A `Source` replays a script of read results, each a chunk of bytes
or a fault. A read takes the next chunk, cut to the room left in the buffer. A `Sink`
records the bytes written and fails the calls its script marks.

Two places where the code does something other than what it evidently means to do; the
model follows the code in both:

- The end-of-stream arm (`stream.rs:35`) is meant to end the call cleanly when a read
  returns no bytes. It tests the buffer after it has been resized to 512 bytes, so it is
  never taken. A zero-length read then adds nothing, and the loop reads again forever. The
  model calls this outcome `Hangs` (see Left out).
- The search after each read (`stream.rs:38`) covers only the bytes just read, so a CR LF
  split across two reads is not found (see Findings). `ReadLineSpec`, and with it
  `StreamParser.ReadLine`, searches as the code does. `ReadLineCorrected` searches from
  the last byte held before each read, and the lemmas about it show what the fix gives.

The command match at `parser.rs:116` compares the command with the text of `Event::Ping`,
which the model takes to be `PING`.

## Model

| member | source | states |
|---|---|---|
| Parser.IsSpecialAlphanum | quirc/src/parser.rs:12-14 | `c` is in the special set or is an ASCII letter or digit. A byte it accepts outside the special set is ASCII. |
| Parser.HostParser | quirc/src/parser.rs:16-21 | Never fails. The value followed by the rest is the input. The value is the longest leading run of letters, digits and `.`, possibly empty. |
| Parser.NickParser | quirc/src/parser.rs:23-28 | Never fails. The value followed by the rest is the input. The value is the longest leading run of letters, digits and ``[]\`_^{\|}-``. |
| Parser.ServerPrefixParser | quirc/src/parser.rs:30-32 | Always yields a valid `Server` prefix. Its text followed by the rest is the input, and the rest does not start with a host byte, so the host is the longest run. |
| Parser.UsernameParser | quirc/src/parser.rs:37-42 | Never fails. It yields `Some` exactly when the input starts with `!` and a letter or digit. `None` leaves the input untouched. `Some(name)` means the input is `!`, a non-empty maximal run of letters and digits, then the rest. |
| Parser.UsernameSplit | quirc/src/parser.rs:37-42 | Whatever the username parser consumes is the `!username` part as written: `!` and the name, or nothing when it yields `None`. |
| Parser.BangRun | quirc/src/parser.rs:38-41 | After a leading `!`, the run of letters and digits exists exactly when the next byte is one. It is then non-empty and maximal, and `!`, the run and the rest make up the input. |
| Parser.UserPrefixParser | quirc/src/parser.rs:34-47 | On success, a valid `User` prefix. Its text (`nick[!name]@host`) followed by the rest is the input. The host is maximal. |
| Parser.PrefixParser | quirc/src/parser.rs:49-55 | On success, the input is `:`, the text of a valid prefix, a space, then the rest. |
| Parser.MiddleParam | quirc/src/parser.rs:59-62 | Succeeds exactly when the input is a space followed by a run of bytes other than NUL, CR, LF, space and colon whose longest stretch is valid UTF-8. Then the input is the space, that maximal run, and the rest. |
| Parser.BareTrailingIsMiddle | quirc/src/parser.rs:57-73 | A trailing parameter that starts with neither space nor colon, after one space, would already have been read as a middle parameter: its longest middle run is cut before an ASCII byte, so it is valid UTF-8. |
| Parser.Many | quirc/src/parser.rs:58 | `many_m_n!(0, max, …)` never fails and yields at most `max` items. It stops before `max` only where the item parser fails. |
| Parser.ManyStops | quirc/src/parser.rs:58 | When every success of the item parser leaves a rest with some property, a repetition that read nothing leaves the input untouched, and one that read something leaves a rest with that property. |
| Parser.ManyKeeps | quirc/src/parser.rs:57-64 | Every item satisfies what the item parser promises, and the rest is a suffix of the input. |
| Parser.ManyConsumes | quirc/src/parser.rs:57-64 | When each item is read after one space, the repetition consumes exactly its items written one after another, each after a space. |
| Parser.MiddleParamsParser | quirc/src/parser.rs:57-64 | Never fails. Yields at most fourteen middle parameters and consumes exactly their text, each after a space. The last one is the longest run: the rest is empty or does not start with a middle byte. With fewer than fourteen, no further middle parameter can be read from the rest. |
| Parser.TrailingParamParser | quirc/src/parser.rs:66-73 | Never fails. It yields `Some` exactly when the input starts with ` :` (else ` `) and then a run without NUL, CR or LF whose longest stretch is valid UTF-8. `None` leaves the input untouched. `Some(p)` means the input is the introducer, `p` (that maximal run), then the rest. |
| Parser.ParamsParser | quirc/src/parser.rs:75-88 | Never fails. Yields a well-formed list of at most fifteen parameters. What it consumed is that list written out, each parameter after a space, the last after ` :` or after a space, and only in a way that reads back (`ReadsBack`): after a plain space the last one is middle-shaped, starts with a space, or is the fifteenth. The last parameter is the longest run its class allows (`LastStops`). No trailing parameter, and with fewer than fourteen middle ones no further middle one, can follow. |
| Parser.RawCommandParser | quirc/src/parser.rs:90-95 | Succeeds exactly when the input starts with a letter or digit. The command is a maximal run of digits, or else a maximal run of letters, followed by the rest. |
| Parser.RawEventParser | quirc/src/parser.rs:97-105 | On success, the event is well formed, and what was consumed is that event written out in a way that reads back: the prefix part, the command, the parameters (the last after ` :`, or after a space where `ReadsBack` allows it) and CR LF. |
| Parser.ParseInput | quirc/src/parser.rs:107-133 | The result is `Ping` exactly when the line parses with command `PING` and at least one parameter. Then its server is the first parameter and its second server is the second parameter, if any. Every other input gives `Unknown`. |
| Utf8.AsciiIsUtf8 | quirc/src/parser.rs:16-21 | ASCII bytes are valid UTF-8, so `from_utf8` never rejects a host, nick, user name or command. |
| Utf8.CutBeforeAscii | quirc/src/parser.rs:59-72 | Valid UTF-8 cut right before an ASCII byte, or at its end, is still valid UTF-8. |
| Utf8.StrayContinuationRejected | quirc/src/parser.rs:61 | The single byte 0x80, a continuation byte with no lead byte, is not valid UTF-8. |
| ParserProperties.NonUtf8ParamRejected | quirc/src/parser.rs:57-73 | A run of middle bytes that is not valid UTF-8, followed by the end of the input or a byte no parameter holds, is no middle parameter. After ` :` it is no trailing parameter either: the option is empty and nothing is consumed. |
| ParserProperties.NonUtf8MiddleRejected | quirc/src/parser.rs:59-62 | A run of middle bytes that is not valid UTF-8 and is not followed by another middle byte is no middle parameter. |
| ParserProperties.NonUtf8TrailingRejected | quirc/src/parser.rs:65-72 | After ` :`, a run of trailing bytes that is not valid UTF-8 and is not followed by another trailing byte gives no trailing parameter: the option is empty and nothing is consumed. |
| ParserProperties.NonUtf8RunCompleted | quirc/src/parser.rs:59-62 | The condition on the following byte is needed: 0xC3 alone is not UTF-8, yet after one space 0xC3 0xA9 is a middle parameter, because the run takes in both bytes. |
| ParserProperties.StrayContinuationParam | quirc/src/parser.rs:61 | A parameter made of the lone byte 0x80 fails as a middle parameter, and after ` :` gives no trailing parameter. |
| ParserProperties.HostOf | quirc/src/parser.rs:16-21 | A host followed by a byte outside the host set parses to exactly that host. |
| ParserProperties.NickOf | quirc/src/parser.rs:23-28 | A nick followed by a byte outside the nick set parses to exactly that nick. |
| ParserProperties.UsernameOf | quirc/src/parser.rs:37-42 | `!name` followed by `@` parses to `Some(name)`, and a bare `@` to `None`. |
| ParserProperties.ServerPrefixOf | quirc/src/parser.rs:52 | A bare host followed by a space is not a user prefix (there is no `@`), and the server prefix parser reads it back. |
| ParserProperties.UserPrefixOf | quirc/src/parser.rs:34-47 | The text of every valid user prefix, followed by a space, parses back to that prefix. |
| ParserProperties.PrefixRoundTrip | quirc/src/parser.rs:49-55 | For every valid prefix `p`, parsing `:` + text(p) + space + rest gives back `p` and the rest. |
| ParserProperties.UserPrefixNeedsAt | quirc/src/parser.rs:43 | A user prefix parses only from input holding an `@`. |
| ParserProperties.UsernameFollowsBang | quirc/src/parser.rs:37-42 | A parsed user prefix has a user name exactly when a `!` follows the nick. |
| ParserProperties.MiddleParamOf | quirc/src/parser.rs:59-62 | A space and a middle parameter, followed by a byte that cannot continue it, parse back to that parameter. |
| ParserProperties.ManyRoundTrip | quirc/src/parser.rs:58 | When the item parser reads back each item of a written list, and fails after the last item or the list is full, repetition reads back the whole list. |
| ParserProperties.ManyMiddleRoundTrip | quirc/src/parser.rs:57-64 | Written middle parameters parse back to the same list. |
| ParserProperties.TrailingOf | quirc/src/parser.rs:66-73 | A trailing parameter after ` :`, or one not starting with `:` after ` `, parses back. |
| ParserProperties.ParamsWrittenRoundTrip | quirc/src/parser.rs:75-88 | A well-formed list written with ` :` before its last parameter parses back to itself. So does one written with a plain space, when the last parameter is middle-shaped, starts with a space, or comes after fourteen middle ones. |
| ParserProperties.ParamsParserExact | quirc/src/parser.rs:75-88 | Conversely, every well-formed list written in a way that reads back, followed by a rest that stops it, parses to exactly that list and that rest. |
| ParserProperties.SpaceLedLastReads | quirc/src/parser.rs:65-88 | A last parameter that starts with a space, written after a plain space, parses back whole, its leading space included. |
| ParserProperties.FifteenthTakesRest | quirc/src/parser.rs:57-88 | After fourteen middle parameters no more are tried: the text after the next space, spaces included, is the fifteenth and trailing parameter, unless it starts with `:`. |
| ParserProperties.ParamsRoundTrip | quirc/src/parser.rs:75-88 | Every well-formed parameter list, written the canonical way, parses back to itself. |
| ParserProperties.CommandRoundTrip | quirc/src/parser.rs:90-95 | A command followed by a byte that is not a letter or digit parses back. |
| ParserProperties.EventWrittenRoundTrip | quirc/src/parser.rs:97-105 | Every well-formed event written with ` :` before its last parameter, or with a space where that parameter reads back, parses back to itself and stops right after its CR LF. |
| ParserProperties.RawEventParserExact | quirc/src/parser.rs:97-105 | The event parser succeeds exactly when the input starts with a well-formed event written in a way that reads back, and then it returns that event and the bytes after its CR LF. |
| ParserProperties.RawEventRoundTrip | quirc/src/parser.rs:97-105 | Every well-formed event, written the canonical way with its CR LF, parses back to itself and leaves the bytes after it. |
| ParserProperties.ParseRenderParse | quirc/src/parser.rs:97-105 | A parsed event, written again in front of the same rest, parses to the same result. |
| ParserProperties.LineNeedsCrlf | quirc/src/parser.rs:102 | An event parses only from input holding CR LF. Without one, `parse_input` gives `Unknown`. |
| ParserProperties.ParseInputOfWritten | quirc/src/parser.rs:107-133 | For a written well-formed event, `parse_input` gives `Ping(first, second?)` exactly when the command is `PING` with at least one parameter, and `Unknown` otherwise. |
| ParserProperties.ParseInputOfRendered | quirc/src/parser.rs:107-133 | The same for the canonical writing. |
| ParserProperties.ServerPingOf | quirc/src/parser.rs:107-133 | `PING :server` and CR LF, for any valid trailing parameter `server`, gives `Ping(server, None)`. |
| ParserExamples.ServerPrefixExample | quirc/src/parser.rs:141-149 | `:irc.example.com ` parses to the server prefix `irc.example.com`. |
| ParserExamples.UserPrefixExample | quirc/src/parser.rs:150-160 | `:nick!on@example.com ` parses to the user prefix with user name `on`. |
| ParserExamples.UserPrefixWithoutNameExample | quirc/src/parser.rs:161-171 | `:nick@example.com ` parses to the user prefix without a user name. |
| ParserExamples.MiddleParamsExample | quirc/src/parser.rs:176-179 | ` first second third` parses to three middle parameters and leaves CR LF. |
| ParserExamples.TrailingWithSpacesExample | quirc/src/parser.rs:180-186 | A trailing parameter holding spaces comes out as the fourth parameter. |
| ParserExamples.TrailingWithColonsExample | quirc/src/parser.rs:187-190 | A trailing parameter holding colons comes out whole. |
| ParserExamples.PrivmsgExample | quirc/src/parser.rs:195-206 | The `PRIVMSG` line parses to its user prefix, command and two parameters. |
| ParserExamples.PingRawExample | quirc/src/parser.rs:207-214 | `PING` + CR LF parses to no prefix, the command `PING` and no parameters. |
| ParserExamples.WelcomeExample | quirc/src/parser.rs:215-224 | The `001` line parses to its server prefix, numeric command and two parameters. |
| ParserExamples.ServerPingExample | quirc/src/parser.rs:229-235 | The server's `PING` maps to `Ping("irc.example.com", None)`. |
| ParserExamples.ColonPingExample | quirc/src/parser.rs:107-133 | `PING :irc.example.com` and CR LF, the form servers usually send, maps to `Ping("irc.example.com", None)`. |
| ParserExamples.TwoWordsExample | quirc/src/parser.rs:57-88 | `CMD ab cd` and CR LF gives the two middle parameters `ab` and `cd`, not one parameter `ab cd`. |
| ParserExamples.SpaceLedExample | quirc/src/parser.rs:65-88 | `CMD`, two spaces, `x` and CR LF gives the one parameter ` x`, its leading space included. |
| ParserExamples.MadeUpExample | quirc/src/parser.rs:237-240 | `MADEUP command` maps to `Unknown`. |
| Stream.FindCrlfSpec | quirc/src/stream.rs:27 | The search returns the first CR LF, and returns none exactly when there is none. |
| Stream.ReceiveConserves | quirc/src/stream.rs:34 | A read hands out a prefix of the scripted bytes: nothing is lost or repeated. |
| Stream.Source.Read | quirc/src/stream.rs:34 | A read returns the next result of the script and consumes it. |
| Stream.StreamParser.constructor | quirc/src/stream.rs:18-24 | A new framer holds an empty buffer over the given stream. |
| Stream.StreamParser.ReadLine | quirc/src/stream.rs:26-50 | The frame and the new buffer are those of `ReadLineSpec`, which searches each read as the code does. On a read error the result is `None`, and the buffer stays resized to 512 bytes. |
| Stream.StreamParser.ReadStep | quirc/src/stream.rs:31-41 | One loop turn. After a read error the outcome is `Failed`. Otherwise the bytes read are appended, and progress is made. Only the bytes just read are searched. A CR LF found there fixes the frame, cut at the bytes held plus its index plus 2; if none is found, the remaining outcome is `Fill` of the new bytes. |
| Stream.StreamParser.ReadInto | quirc/src/stream.rs:34 | The read goes into the buffer right after the bytes held, and the zero padding follows. |
| Stream.StreamParser.SearchBuffer | quirc/src/stream.rs:38 | The search of the slice of the buffer holding the bytes just read finds the first CR LF of those bytes. |
| Stream.StreamParser.CutFrame | quirc/src/stream.rs:44-47 | The buffer is truncated to the bytes held. The frame is everything up to and including the CR LF, and the buffer keeps the rest. |
| Stream.FrameEndsWithCrlf | quirc/src/stream.rs:26-50 | Every frame handed out ends with CR LF. |
| Stream.ReadLineConserves | quirc/src/stream.rs:44-47 | The frame followed by the new buffer and the unread script equals the old buffer followed by the old script. |
| Stream.ReadLineBounded | quirc/src/stream.rs:29-30 | The buffer never outgrows 512 bytes. After a read error it holds exactly 512. |
| Stream.BufferedLine | quirc/src/stream.rs:27 | With a CR LF already buffered, no read is made. The buffer splits into a frame holding one line and the rest. |
| Stream.FaultFails | quirc/src/stream.rs:40 | A read error with no frame buffered gives `None`, and the buffer is padded to 512 bytes. |
| Stream.EndOfStreamHangs | quirc/src/stream.rs:34-36 | At the end of the stream with no frame buffered, the loop never ends. The end-of-stream arm is never taken. |
| Stream.FullBufferHangs | quirc/src/stream.rs:31-37 | A full buffer without CR LF leaves no room to read into, and the loop never ends. |
| Stream.LineRoundTrip | quirc/src/stream.rs:26-50 | A payload without CR LF, read with its terminator from an empty buffer, comes back as one frame. The bytes after it stay buffered. |
| Stream.BufferedRoundTrip | quirc/src/stream.rs:27 | The same payload, already buffered, comes back without a read. |
| Stream.ReadLineTest | quirc/src/stream.rs:101-113 | Over the test's reader, three calls hand out `line-one`, `line-two` and `line-three`, each with CR LF. |
| Stream.Sink.WriteAll | quirc/src/stream.rs:59 | A `write_all` either accepts every byte or fails and accepts none. |
| Stream.StreamWriter.constructor | quirc/src/stream.rs:54-56 | The writer borrows the given stream. |
| Stream.StreamWriter.WriteLine | quirc/src/stream.rs:58-60 | The result and the sink's new state are those of `WriteLineSpec`. |
| Stream.WriteLineSucceeds | quirc/src/stream.rs:58-60 | `write_line` is true exactly when neither write fails. Then the sink holds the payload followed by CR LF. |
| Stream.CleanWrite | quirc/src/stream.rs:58-60 | A sink with no failures takes every line whole. |
| Stream.PayloadFaultSkipsTerminator | quirc/src/stream.rs:59 | When the payload write fails, CR LF is not attempted and nothing is written. |
| Stream.TerminatorFaultLeavesPayload | quirc/src/stream.rs:59 | When only the CR LF write fails, the result is false and the payload stays written. |
| Stream.WrittenLineReadsBack | quirc/src/stream.rs:26-60 | A line written without CR LF in its payload is read back as one frame by the framer. |
| Stream.WriteLineTest | quirc/src/stream.rs:115-127 | Three writes succeed, and the sink holds the three lines, each with CR LF. |
| Stream.TwoReadsSplitMissed | quirc/src/stream.rs:38 | As written, two reads with no CR LF in the first and one at the end of the second give a single frame of both reads. |
| Stream.StraddleMissed | quirc/src/stream.rs:38 | As written, reads `ab\r` and `\ncd\r\n` give one 8-byte frame that holds a CR LF before its last one. |
| Stream.ByteReadsMissed | quirc/src/stream.rs:38 | As written, a line whose bytes `a`, CR and LF arrive one per read is never framed: the loop never ends. |
| Stream.TwoReadsSplitFound | quirc/src/stream.rs:38 | Searching from the last byte held, a CR ending one read and an LF starting the next end the frame. The rest of the second read stays buffered. |
| Stream.StraddleFound | quirc/src/stream.rs:38 | Searching from the last byte held, the same reads give the frame `ab\r\n` and leave `cd\r\n` buffered. |
| Stream.ByteReadsFound | quirc/src/stream.rs:38 | Searching from the last byte held, the one-byte reads give the frame `a` CR LF and leave nothing buffered. |
| Stream.CorrectedFrameHoldsOneLine | quirc/src/stream.rs:38 | Searching from the last byte held, every frame ends with CR LF and holds no earlier one. |
| Stream.SearchFromLastFinds | quirc/src/stream.rs:38 | Searching from the last byte held, when the bytes held have no CR LF, the first CR LF found ends a frame with no earlier one. |
| Stream.ReadLineCorrectedConserves | quirc/src/stream.rs:44-47 | Searching from the last byte held, too, nothing is lost or duplicated. |
| Stream.ReadLineCorrectedBounded | quirc/src/stream.rs:29-30 | Searching from the last byte held, too, the buffer never outgrows 512 bytes, and holds exactly 512 after a read error. |

## Left out

- `utils::find_subsequence` is not part of this model. `FindCrlf` stands for its search for CR LF, returning the first match.
- Incomplete input: the parsers use complete-input semantics. nom 4's byte-slice `take_while!`, `is_not!`, `alphanumeric`, `digit` and `alpha` return `Incomplete` when their run reaches the end of the input; here such a run stops there and succeeds (`HostParser("abc")` is `Success("abc", [])`). A `tag!` cut short by the end of the input, which nom also reports as `Incomplete`, is a `Failure` here. For `ParseInput` the two agree: an input on which a run or a tag reaches the end has no CR LF after it, which `raw_event_parser` requires, so both give `Unknown`.
- Error values: nom's error kinds and the messages built at `parser.rs:109` and `parser.rs:122` are not modelled. A failed parse is `Failure`, and a failed mapping is `Unknown`.
- Logging: the `error!` call at `parser.rs:129` is left out, because it does not change the result.
- Strings: a parsed `&str` is modelled as the byte sequence it borrows, and `from_utf8` as the check that it is valid UTF-8. Owned copies (`to_string`) are the same bytes.
- The `Event` type: only its `Ping` and `Unknown` variants, the ones `parse_input` produces, are modelled. The rest of the application's event type is not part of this model.
- The socket: reads and writes go to the scripted `Source` and `Sink`. Timing, blocking, interrupted reads and partial writes inside `write_all` are not modelled. A `write_all` accepts all its bytes or fails.
- The test stream of `stream.rs:68-99`: its `checked_sub` always succeeds, so each read delivers all the bytes not yet read. `ReadLineTest` models that as one chunk holding the whole script. Its writes of at most 5 bytes are absorbed by `write_all`, so `WriteLineTest` uses a sink without failures.
- The clean end of the stream that the arm at `stream.rs:35` is evidently meant to give (a read of zero bytes ending the call) is not modelled. Its guard tests the buffer after it has been resized to 512 bytes, so it never holds; the model states only that behaviour, as `EndOfStreamHangs`, and `ReadLineCorrected` keeps it too, because which condition was meant (no bytes held, or none read) cannot be told from the code.
- Stream.StreamParser.ReadLine: requires that the call ends (its outcome is not `Hangs`). The endless loop at the end of the stream or on a full buffer is stated by `EndOfStreamHangs` and `FullBufferHangs` instead of being run.
- A scripted chunk of zero bytes counts as progress for the read loop, because it uses up one entry of the script. A real end of stream is the empty script, which gives `Hangs`.
- Parser.Many: does not model `many_m_n!`'s stop on an item that succeeds without consuming anything, because the one item parser it is applied to, `MiddleParam`, always consumes a space and at least one more byte when it succeeds.
- Stream.Sink.WriteAll: modelled by its specification only (all or nothing per call), because the standard library's retry loop is not part of this model.

## Findings

| source | as written | input that shows it | evidently intended | confidence | as-written member | corrected member |
|---|---|---|---|---|---|---|
| quirc/src/stream.rs:38 | After each read, only the bytes just read (`buffer[read_count..buf_end]`) are searched for CR LF, so a CR at the end of one read and an LF at the start of the next are not found. | An empty buffer, then reads of `ab\r` and `\ncd\r\n`. As written, `read_line` hands out the 8-byte frame `ab\r\ncd\r\n`, which holds two lines, so the second line is never parsed on its own. | Start the search at `read_count - 1` (at 0 for the first read), giving the frame `ab\r\n` and leaving `cd\r\n` buffered; then every frame holds exactly one line (`CorrectedFrameHoldsOneLine`). | not executed | Stream.StraddleMissed | Stream.StraddleFound |
| quirc/src/stream.rs:38 | The same search never sees a CR LF whose two bytes arrive in different reads. | An empty buffer, then three one-byte reads `a`, CR, LF, then the end of the stream. As written no read holds CR LF, and the loop goes on reading zero bytes forever. | The search from `read_count - 1` frames `a` CR LF after the third read and leaves nothing buffered. | not executed | Stream.ByteReadsMissed | Stream.ByteReadsFound |
