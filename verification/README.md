# socket-chat in Dafny

A model of the even/odd number service of socket-chat. A client sends a
line of text; the server answers whether it is an even or an odd number,
or that it is not a number, and the word `stop` shuts the TCP server down.
The model covers:

- `process` of `src/utils/message.py` (module `Message`): the classifier,
  over a model of the Python operations it rests on. These are
  `str.lower` and `str.strip` (module `PyText`) and `int()` on a string,
  with its whitespace, sign, underscore and 4300-digit rules (module `PyInt`).
- The TCP server of `src/server/tcp_server.py` (module `TcpServer`). It is
  a state machine over abstract socket events: per connection, the
  outcome of each `recv`/`sendall`; across connections, the outcome of
  each `accept`. UTF-8 decoding and encoding follow section 3 and 4 of
  RFC 3629 and are a separate module, `Utf8`, with its round trip proved.
  `process_message` and `stop_server` come from `src/server/common.py`,
  which is not part of this model. They are parameters of every
  definition, and `TcpServer.ProcessMessage`/`TcpServer.StopServer`
  instantiate them with `Message.Process`. That instantiation is an
  assumption.
- The UDP server of `src/server/udp_server.py` (module `UdpServer`): the
  port prompt and the receive loop. It has its own classifier based on
  `str.isdigit`. It does not strip, has no stop command and catches no
  exception: a datagram that is not UTF-8 ends the program, and a
  datagram longer than 2048 bytes is cut to 2048 bytes by `recvfrom`, as
  POSIX systems do.
- `config_server` of `src/client/common.py` (module `ClientConfig`): the
  address prompt and the port prompt over the lines the user types.
  `ipaddress.IPv4Address` is a validity predicate and a normaliser, both
  passed as parameters.

Input that runs out (Python's `EOFError` from `input`) is `None` in every
prompt model.

## Model

| member | source | states |
|---|---|---|
| Message.Process | src/utils/message.py:3-13 | the reply is a shutdown exactly when the message lowers to "stop", exactly then the reply is the shutdown text, and the reply is always one of the four fixed texts |
| Message.IsStopChars | src/utils/message.py:5 | a message is the stop command iff it has four characters s/S, t/T, o/O, p/P in that order |
| Message.StopShutsDown | src/utils/message.py:5-6 | every case variant of "stop" gets the shutdown reply with the shutdown flag set |
| Message.ProcessParses | src/utils/message.py:8-11 | every message int() accepts gets the parity of its value (floor modulus) and never shuts down |
| Message.ProcessShowInt | src/utils/message.py:8-11 | the decimal form of any integer within the digit limit, negative ones included, gets that integer's parity |
| Message.NotNumberIff | src/utils/message.py:5-13 | the not-a-number reply is given exactly to messages that are neither the stop command nor accepted by int() |
| Message.SpacedFourIsEven | src/utils/message.py:8-11 | " 4 " is even: int() skips surrounding whitespace |
| Message.PlusFourIsEven | src/utils/message.py:8-11 | "+4" is even |
| Message.MinusFourIsEven | src/utils/message.py:8-11 | "-4" is even |
| Message.MinusThreeIsOdd | src/utils/message.py:8-11 | "-3" is odd under Python's floor modulus |
| Message.PaddedStopIsNotStop | src/utils/message.py:5-13 | " stop" and "stop\n" are not the stop command, since process does not strip, and are not numbers |
| Message.NotNumbers | src/utils/message.py:8-13 | "", "abc", "12a" and "1 2" get the not-a-number reply |
| Message.InnerSpaceRejected | src/utils/message.py:8-13 | int() rejects any two runs of digits with a space between them |
| Message.FourSevenStop | src/utils/message.py:3-13 | "4" is even, "7" is odd, "stop" shuts down |
| Message.DigitIsClassified | src/utils/message.py:8-11 | every single decimal digit gets its own parity |
| PyText.IntSpaceIsSpace | src/utils/message.py:8 | the whitespace int() skips is whitespace to str.strip, and the only strip-whitespace int() does not skip is U+001C..U+001F |
| PyText.TrimLeftSpec | src/server/tcp_server.py:40 | stripping the front leaves a suffix: everything removed is whitespace, and the first character left is not |
| PyText.TrimRightSpec | src/server/tcp_server.py:40 | stripping the back leaves a prefix: everything removed is whitespace, and the last character left is not |
| PyText.TrimIsSlice | src/server/tcp_server.py:40 | strip returns a contiguous slice with only whitespace cut on either side and non-whitespace at both ends |
| PyText.TrimIdempotent | src/server/tcp_server.py:40 | stripping twice is stripping once |
| PyText.TrimKeeps | src/server/tcp_server.py:40 | a string with non-whitespace at both ends is unchanged by strip |
| PyText.TrimSurrounded | src/server/tcp_server.py:40 | whitespace added around a string does not change its strip |
| PyText.Lower | src/utils/message.py:5 | `str.lower()` over ASCII letters: the result has the input's length and no upper-case ASCII letter left, each of A..Z becomes its own lower-case letter, and every other character is kept |
| PyText.LowerIdempotent | src/utils/message.py:5 | lowering an already lowered string changes nothing |
| PyText.TrimAlphabet | src/server/tcp_server.py:40 | every character of the input is either cut whitespace or belongs to the stripped result's alphabet |
| PyInt.ShowNat | src/utils/message.py:8 | the decimal form of a natural number is non-empty digits with no leading zero |
| PyInt.ShowInt | src/utils/message.py:8 | the decimal form of an integer starts with '-' exactly when it is negative |
| PyInt.ValueShowNat | src/utils/message.py:8 | reading back a natural number's decimal form gives the number |
| PyInt.ParseShow | src/utils/message.py:8 | int() of an integer's decimal form gives the integer back, within the 4300-digit limit |
| PyInt.PlainLiteral | src/utils/message.py:8 | an optional sign followed by at most 4300 ASCII digits is accepted, with its signed decimal value |
| PyInt.UnsignedLiteral | src/utils/message.py:8 | a run of at most 4300 ASCII digits is accepted with its decimal value |
| PyInt.SignedLiteral | src/utils/message.py:8 | a '+' or '-' before a run of digits gives the value or its negation |
| PyInt.ParseIgnoresSpace | src/utils/message.py:8 | whitespace int() skips may surround a literal without changing the result |
| PyInt.ParseInt | src/utils/message.py:8 | `int(s)` on a string, None where it raises ValueError; it has no contract of its own, and PlainLiteral, ParseShow, ParseAlphabet, StrayCharRejected, BlankRejected and the underscore lemmas state its meaning |
| PyInt.BlankRejected | src/utils/message.py:8-13 | an empty or all-whitespace string makes int() raise ValueError |
| PyInt.UnderscoreSeparates | src/utils/message.py:8 | a single underscore between digits is dropped: "1_000" is 1000 |
| PyInt.UnderscoreMisplaced | src/utils/message.py:8-13 | a doubled, leading or trailing underscore ("1__0", "_1", "1_") makes int() raise ValueError |
| PyInt.ParseUntrimmed | src/utils/message.py:8 | with no whitespace at the ends, int() reads the literal as it is |
| PyInt.ParseAlphabet | src/utils/message.py:8 | an accepted string consists only of digits, signs, underscores and skipped whitespace |
| PyInt.StrayCharRejected | src/utils/message.py:8-13 | any other character anywhere makes int() raise ValueError |
| PyInt.LiteralAlphabet | src/utils/message.py:8 | an accepted literal holds only digits, signs and underscores |
| PyInt.GroupedAlphabet | src/utils/message.py:8 | a digit group holds only digits and underscores |
| PyInt.DigitsOfPlain | src/utils/message.py:8 | a plain run of digits is a valid group and its digits are itself |
| Utf8.DecodeFirst | src/server/tcp_server.py:40 | a decoded character takes one to four bytes and never more than the input |
| Utf8.Decode | src/server/tcp_server.py:40 | decoding never yields more characters than there are bytes |
| Utf8.EncodeChar | src/server/tcp_server.py:48 | a character encodes to one to four bytes |
| Utf8.Encode | src/server/tcp_server.py:48 | a text encodes to at least one byte per character; DecodeEncode and DecodeIff tie it to the decoder |
| Utf8.DecodeFirstEncodeChar | src/server/tcp_server.py:40-48 | the decoder reads back exactly the character just encoded, whatever follows it |
| Utf8.EncodeCharDecodeFirst | src/server/tcp_server.py:40-48 | the bytes a decoded character came from are exactly that character's encoding |
| Utf8.DecodeEncode | src/server/tcp_server.py:40-56 | a response the server encodes decodes back to the same text |
| Utf8.EncodeDecode | src/server/tcp_server.py:40-56 | every byte string that decodes is the encoding of what it decodes to |
| Utf8.DecodeIff | src/server/tcp_server.py:40-56 | bytes decode to a text exactly when they are that text's encoding |
| PyText.Strip | src/server/tcp_server.py:40 | `str.strip()` with no argument; it has no contract of its own, and TrimIsSlice, TrimIdempotent and TrimSurrounded state its meaning |
| TcpServer.ReplyTo | src/server/tcp_server.py:39-56 | a chunk that is not UTF-8 is answered with the fixed format complaint |
| TcpServer.ReplyToEncoded | src/server/tcp_server.py:39-56 | a chunk that is the UTF-8 encoding of a text is answered with the reply to that text, stripped |
| TcpServer.Turn | src/server/tcp_server.py:27-66 | one connection only appends to what was sent; the loop goes back to accept exactly when its session ended by a disconnect or an exception; shutdown is set exactly when it was already set or the session ended in a stop request |
| TcpServer.RunSession | src/server/tcp_server.py:31-66 | a session sends at most one reply per event, all of them when still waiting, at least one when stopped, and fewer than its events when it closed or failed |
| TcpServer.SessionReplies | src/server/tcp_server.py:33-57 | reply i answers event i, which delivered data: the format complaint if it is not UTF-8, else the reply to its stripped text |
| TcpServer.SessionPrefixContinues | src/server/tcp_server.py:33-64 | every event before the one that ended the session delivered data that was not a stop command |
| TcpServer.SessionEndCause | src/server/tcp_server.py:33-66 | a stop ends on a delivered stop chunk whose reply was sent, a disconnect on an empty read, and an error on a recv or sendall exception |
| TcpServer.ClosingEvents | src/server/tcp_server.py:34-37 | an empty read ends the session as a disconnect, and a failing recv or sendall ends it as an error, with nothing sent |
| TcpServer.InvalidChunkContinues | src/server/tcp_server.py:39-49 | a chunk that is not UTF-8 gets the format complaint and the session goes on unchanged |
| TcpServer.StopAfterReply | src/server/tcp_server.py:55-64 | a stop chunk is answered before the session ends, and if that reply cannot be sent the session ends as an error |
| TcpServer.RepliesToStrippedText | src/server/tcp_server.py:40-55 | surrounding whitespace of the decoded text does not change the reply |
| TcpServer.Serve | src/server/tcp_server.py:25-70 | the accept loop never clears shutdown and only appends to what was sent |
| TcpServer.ServeSplit | src/server/tcp_server.py:25-70 | running the loop over two traces in turn is running it over their concatenation |
| TcpServer.ShutdownMonotone | src/server/tcp_server.py:26-63 | once a prefix of the run has set shutdown, the whole run has it set |
| TcpServer.ShutdownStops | src/server/tcp_server.py:27 | with shutdown set the loop has exited |
| TcpServer.NoAcceptAfterStop | src/server/tcp_server.py:27-28 | once the loop has stopped accepting, later connections change nothing |
| TcpServer.ShutdownIff | src/server/tcp_server.py:25-70 | the server shuts down exactly when some session ends in a stop command and every earlier one ended by a disconnect or an exception |
| TcpServer.UnpaddedChunk | src/server/tcp_server.py:40-59 | text without surrounding whitespace is answered and checked for the stop command as it is |
| TcpServer.ContinuingChunk | src/server/tcp_server.py:33-64 | a chunk that is not a stop command is answered and the session goes on |
| TcpServer.ScenarioChunks | src/server/tcp_server.py:40 | the bytes "4", "7" and "stop" decode to those texts |
| TcpServer.ThreeChunkSession | src/server/tcp_server.py:33-64 | a session receiving "4", "7", "stop" sends three replies in that order and ends in a stop request |
| TcpServer.FirstSessionStops | src/server/tcp_server.py:25-64 | when the first connection's session ends in a stop request, the server has sent exactly its replies to that client, is shut down and accepts nothing more |
| TcpServer.ThreeChunkRun | src/server/tcp_server.py:25-64 | one client sending "4", "7", "stop" gets three replies and shuts the server down before a second client is accepted |
| TcpServer.EvenOddStopScenario | src/server/tcp_server.py:25-64 | with the classifier of message.py, those replies are even, odd and the shutdown text |
| TcpServer.PaddedStopShutsDown | src/server/tcp_server.py:40-64 | a chunk carrying " stop\n" ends its session with the shutdown reply and a stop request, because the TCP server strips before classifying |
| TcpServer.PaddedStopReply | src/server/tcp_server.py:40-59 | the six bytes of " stop\n" form a stop command answered with the shutdown text |
| TcpServer.PaddedStopChunk | src/server/tcp_server.py:40 | the bytes of " stop\n" decode and strip to "stop" |
| TcpServer.PaddedStopBytes | src/server/tcp_server.py:40 | " stop\n" encodes to its six ASCII bytes |
| TcpServer.PaddedStopStrip | src/server/tcp_server.py:40 | strip removes the leading space and the trailing newline of " stop\n" |
| UdpServer.PromptPort | src/server/udp_server.py:3-8 | a chosen port is the value int() gives for one of the lines typed |
| UdpServer.PromptPortFirst | src/server/udp_server.py:3-8 | the prompt gives up only when no line is an integer, and otherwise takes the first integer line after rejecting every line before it |
| UdpServer.PortAboveRange | src/server/udp_server.py:3-8 | 70000 is accepted as a port: there is no range check |
| UdpServer.NegativePort | src/server/udp_server.py:3-8 | after a rejected line, -1 is accepted as a port |
| UdpServer.IsDigits | src/server/udp_server.py:21 | `message.isdigit()` over ASCII digits; it has no contract of its own, and RespondClassifies and NotDigits state what it selects |
| UdpServer.Respond | src/server/udp_server.py:21-25 | every reply ends with a newline |
| UdpServer.RespondClassifies | src/server/udp_server.py:21-25 | a message within the digit limit gets the not-a-number reply unless it is all ASCII digits, and then the parity of its value |
| UdpServer.RespondParsed | src/server/udp_server.py:21-23 | an all-digit message is answered by the parity of the value int() reads from it |
| UdpServer.RespondDigits | src/server/udp_server.py:21-23 | an all-digit message gets the parity of its value |
| UdpServer.NotDigits | src/server/udp_server.py:21-25 | "-3", " 4", "4\n", "stop" and "" get the not-a-number reply |
| UdpServer.Received | src/server/udp_server.py:16 | recvfrom hands over a prefix of the datagram: all of it when it has at most 2048 bytes, exactly its first 2048 bytes otherwise |
| UdpServer.Handle | src/server/udp_server.py:16-25 | a handled datagram is answered to its own sender with a newline-terminated reply, and one that is not UTF-8 after the 2048-byte read raises |
| UdpServer.Serve | src/server/udp_server.py:15-27 | the server answers at most one reply per datagram, and it has crashed exactly when it answered fewer than all of them |
| UdpServer.ServeWith | src/server/udp_server.py:15-27 | the loop answers every datagram unless it crashes, and then it answers fewer |
| UdpServer.RepliesInOrder | src/server/udp_server.py:15-27 | reply i is the handling of datagram i |
| UdpServer.StopsAtFirstFailure | src/server/udp_server.py:15-27 | the loop crashes exactly when some datagram's handling raises, and at the first such datagram |
| UdpServer.RepliesToSender | src/server/udp_server.py:16-27 | reply i goes to the sender of datagram i and answers that datagram's message |
| UdpServer.CrashesAtFirstFailure | src/server/udp_server.py:15-27 | the server ends exactly when a datagram cannot be handled, at the first such datagram |
| UdpServer.HandleFailsOnlyOnDecode | src/server/udp_server.py:16-25 | handling a datagram raises exactly when its first 2048 bytes are not UTF-8 (ASCII digits, see UdpServer.IsDigits) |
| UdpServer.NoStopCommand | src/server/udp_server.py:15-27 | when every datagram is UTF-8, every one is answered and the server keeps running (ASCII digits, see UdpServer.IsDigits) |
| UdpServer.RepliesEndWithNewline | src/server/udp_server.py:21-27 | every reply sent ends with a newline |
| UdpServer.TwoDatagramRun | src/server/udp_server.py:15-27 | two handled datagrams get their two replies in order |
| UdpServer.OddDatagram | src/server/udp_server.py:16-27 | the datagram "3" is answered as odd to its sender |
| UdpServer.TwoClientsScenario | src/server/udp_server.py:15-27 | two clients each sending "3" each get their own odd reply |
| Prompt.FirstAccepted | src/client/common.py:19-41 | the chosen line is one the prompt accepts, with the value it yields |
| Prompt.FirstAcceptedIsFirst | src/client/common.py:19-41 | a prompt gives up only when no line is acceptable, and otherwise every line before the chosen one was rejected |
| ClientConfig.IpAnswer | src/client/common.py:19-28 | an address answer is rejected exactly when it is non-blank and fails the IPv4 check after stripping, and a non-blank accepted answer is the normal form of the stripped text |
| ClientConfig.IpAnswerStripped | src/client/common.py:20 | whitespace around an address answer does not change the outcome |
| ClientConfig.PortAnswer | src/client/common.py:31-41 | an accepted port answer lies in 1024..65535 |
| ClientConfig.ConfigServer | src/client/common.py:17-41 | the configured port always lies in 1024..65535 |
| ClientConfig.DefaultPortInRange | src/client/common.py:8-33 | the default port 25535 is in range and is what an empty answer gives |
| ClientConfig.BlankIpIsDefault | src/client/common.py:7-23 | an empty or blank address answer gives 127.0.0.1, whatever the address check says |
| ClientConfig.BlankPortIsDefault | src/client/common.py:8-33 | an empty or blank port answer gives 25535 |
| ClientConfig.PortAnswerRange | src/client/common.py:34-39 | a numeric port answer is accepted exactly when it lies in 1024..65535, both ends included, and then as itself |
| ClientConfig.NonNumericPortRejected | src/client/common.py:34-41 | a non-blank answer int() rejects is rejected |
| ClientConfig.IpBeforePort | src/client/common.py:19-31 | the port prompt reads only the lines after the accepted address |
| ClientConfig.DigitAnswer | src/client/common.py:31-39 | a digit answer is taken as its decimal value exactly when it is in range |
| ClientConfig.AcceptsLowest | src/client/common.py:37-38 | "1024" is accepted |
| ClientConfig.RejectsBelowLowest | src/client/common.py:37-39 | "1023" is rejected |
| ClientConfig.AcceptsHighest | src/client/common.py:37-38 | "65535" is accepted |
| ClientConfig.RejectsAboveHighest | src/client/common.py:37-39 | "65536" is rejected |
| ClientConfig.PortRetries | src/client/common.py:30-41 | "80", "x" and "65536" are skipped and "65535" is taken from the fourth line |

## Left out

- Sockets are not modelled: binding, listening, `SO_REUSEADDR`, the
  listen backlog and connection setup. They are replaced by event
  traces. Logging, `print` output and the prompts' text are left out too.
- `KeyboardInterrupt` in both servers and in `config_server` is not
  modelled. It only ends the program and prints a message.
- src/server/common.py is not part of this model. `process_message` and
  `stop_server` are parameters, and the TCP server's `BUFFER_SIZE` only
  bounds chunk sizes, which the event traces leave free. `config_port`
  is not modelled.
- The TCP and UDP clients (`tcp_client.py`, `udp_client.py`) are left
  out; only their shared `config_server` is modelled.
- `ipaddress.IPv4Address` is a library call. ClientConfig.ConfigServer
  takes its validity test and its printed normal form as parameters.
- PyInt.ParseInt: Unicode decimal digits other than ASCII are rejected,
  where Python's `int()` accepts them, and the digit limit is CPython's
  default of 4300 rather than a configurable one.
- UdpServer.IsDigits: `str.isdigit` is restricted to ASCII digits. Python
  also accepts other Unicode digits. On some, such as superscripts, `int()`
  then raises, so the program crashes where the model answers
  not-a-number. On the other decimal digits, such as Arabic-Indic `٣`,
  `int()` reads the value, so the program answers even or odd where the
  model answers not-a-number.
- UdpServer.Received: `recvfrom(2048)` is modelled as on POSIX, which
  discards the bytes past 2048. On Windows an oversized datagram makes it
  raise instead, and since the call is not inside a `try`, the loop ends.
- PyText.Lower: only ASCII letters are lowered. This is exact for the one
  use, the comparison with "stop": no other character lowers to one of
  its letters.
- UdpServer.Serve: a failing `sendto` is not modelled. In the program it
  would also end the loop with an uncaught exception.
- UdpServer.PromptPort: a port that `bind` then refuses (negative or
  above 65535) is not modelled. The prompt accepts it and `bind` raises.
- TcpServer.RunSession: chunk boundaries are given, not derived. TCP may
  split or merge what the client sent, and a multi-byte character split
  across two chunks gets the format complaint twice. The model lets any
  chunking occur but does not derive one from the client's writes.
- TcpServer.ProcessMessage: using `Message.Process` for `process_message`
  and `stop_server` is an assumption, since their definitions are not
  part of this model.
