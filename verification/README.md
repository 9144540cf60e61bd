# A verified model of the litestomp client

litestomp is a C client for STOMP 1.2. This project models the part of it where bytes
become frames and API calls become a conversation, and proves what that part promises:

* `src/stomp_io.c`: `stomp_write` prints a frame through a loop over partial sends;
  `stomp_read` parses one through loops that receive a byte at a time into a linked list
  of 1024-byte blocks. The methods of `StompIo` are these loops over a socket that may
  send and receive as little as it likes and may fail at any point. They are proved
  against `Frames.Encode` and `Wire.ParseUnder`, and `RoundTrip`, `Restoration`, `Reading` and
  `Deliveries` prove what those two are to each other.
* `src/stomp_messenger.c`, `src/stomp_message.c`, `src/stomp_ex_properties.c`: the API
  calls are methods on a mutable `Messenger`. Each is proved to be one step of the
  relation `Protocol.Next`; `Runs`, `Broker`, `Lockstep` and `EndToEnd` prove what holds over whole
  runs of such steps.
* `WireFormat` and `Calls` spell the same out in literal bytes: every name, separator and
  terminator of a frame, and for each call its command, every header on the wire with the
  call's own values, what it waits for and what it reports.

`dafny verify dfyconfig.toml` checks everything.

## How to read the model

* A Dafny `char` is one C `char`; a `string` is a C string or the memory behind a
  pointer; a NULL pointer is `None`. `size_t` and `int` conversions are explicit
  (`AsInt`, `AsSize`), so that a length of -1 stored into a `size_t` is `SIZE_MAX` and
  comes back as -1 where the code converts it to `int`.
* `Socket` is the environment. A send takes any non-empty part of its data or fails
  after any part; a receive delivers any non-empty part of what arrived or fails. APR
  reports a receive of zero bytes as APR_EOF. A socket whose field `steady` is true does
  not fail sends and does not hold back bytes that arrived; contracts that need such a
  peer say `steady ==>`, all others hold for every socket.
  All bytes that arrive before a call ends are taken to arrive during its wait.
  A ghost field `log` records how often the socket was polled, how many of its receives
  and sends failed and what the latest reported. Contracts use it to say that an error is
  the one that the socket reported, and that nothing is tried again after an error.
* `Delivery` records how one read was served: where the single receive of a counted
  body was cut short, and, when the receive of the byte behind a NUL (whose result the
  code ignores) delivered nothing, which byte happened to be in the unset buffer.
* `Event` records one API call with everything that its environment decided; `Next(s, e,
  t)` says what the call makes of it. A run is any sequence of sessions linked by `Next`.
* A broker reads the client's bytes: what it owes is decided by the command and header
  block of each frame on the wire (`Broker.Dues`), and it answers in order, in any
  encoding, with messages before or after its answers. Where a frame ends on the wire is
  the broker's own business.
* Lemmas whose names end in `Happens` construct the steps that the theorems about calls, brokers
  and deliveries speak of, so that none of those theorems is about an empty case.
* The order in which a hash table is visited is any order (`Order`, `Enumerates`).

## Where the code differs from its documentation

* STOMP 1.2, section "Repeated Header Entries", lets the first of repeated headers win;
  the code lets the last one win, and the round trip of a frame with a stale
  content-length depends on it. The model follows the code.
* STOMP 1.2, section "Value Encoding", escapes LF, CR, colon and backslash in headers;
  the code escapes nothing, so the round trip needs plain text (`WellFormed`);
  `RoundTripRestores` proves that it does, and `UnescapedValueLeaks` shows a property
  value that puts a receipt header on the wire.
* `body_length` is unsigned, so the test for a non-negative length always holds and
  every frame with a header table gets a content-length, `-1` on frames without a body.
  Such frames cannot be read back by the library's own reader (`RoundTripExactly`).
* A message body is read with one receive that may come up short. `SilentTruncation`
  says for exactly which bodies this can go unnoticed.
* Receipt ids are never compared. `StaysInStep` says exactly when they match all the same:
  when the bytes written ask for what the call waits for. In a plain session that is
  every call but a SEND without receipt while "receipt" is an exchange property
  (`DuesWhenPlain`); `Lockstep` is about runs without one, `EveryLeakMisleads` and
  `DesyncHappens` about the others.
* `stomp_subscribe` strips the root of the destination and `stomp_unsubscribe` does not
  (`UnsubscribeDestination`).

## Model

| member | source | states |
|---|---|---|
| CValues.AsInt | src/stomp_io.c:336 | a length or id becomes the congruent 32-bit `int`, unchanged when it fits |
| CValues.SameInt | src/stomp_messenger.c:396-406 | two ids become the same `int` exactly when they agree modulo 2^32 |
| CValues.AsSize | src/stomp_io.c:470 | a parsed length becomes the congruent `size_t`, unchanged when it is not negative |
| CValues.CText | src/stomp_io.c:338 | a C string is the part of its memory before the first NUL |
| CValues.DecimalRoundTrip | src/stomp_io.c:339 | printing an integer and parsing it back gives the same integer, negative ones included |
| CValues.DigitCount | src/stomp_messenger.c:260-261 | a printed number has no leading zeros |
| CValues.DigitAtPlace | src/stomp_messenger.c:260-261 | the printed digit at every place is the decimal digit of the number there |
| CValues.AtoiReadsItoa | src/stomp_io.c:470 | parsing finds a printed integer between white space and the first byte that is no digit, and clamps it to 64 bits |
| CValues.AtoiOfNoDigits | src/stomp_io.c:470 | parsing a text without digits gives 0 |
| CValues.ItoaIsPlain | src/stomp_messenger.c:257-263 | printed ids cannot break a header line |
| Socket.Socket.Send | src/stomp_io.c:54 | a send appends any prefix of its data, a non-empty one on success, and its result is recorded |
| Socket.Socket.Recv | src/stomp_io.c:95 | a receive moves any prefix of the waiting bytes to the caller, a non-empty one on success, and its result is recorded |
| Socket.Socket.CanRead | src/stomp_io.c:518-534 | waiting only adds bytes to the input, and its answer is recorded |
| Frames.StoreKeepsLast | src/stomp_io.c:457-458 | storing headers one after the other keeps the last value of a repeated key |
| Frames.EntriesAreStored | src/stomp_io.c:303-304 | every visited entry of a table is in the table with that value |
| Frames.PrintedLengthIsBodySize | src/stomp_io.c:336-340 | the printed content-length, parsed as a decimal, is the number of body bytes then written, in 1..INT_MAX |
| Frames.BodyIsWhole | src/stomp_io.c:336-363 | the body that the caller means is written whole if and only if a specified length fits an `int` |
| Wire.TakeLineStops | src/stomp_io.c:107-118 | a line ends at the first LF, fails at a NUL before it, and needs one of the two |
| Wire.TakeLine | src/stomp_io.c:93-132 | a line and its LF are the front of the input, and the line holds no LF or NUL |
| Wire.FindColon | src/stomp_io.c:441-448 | the first colon of a line is found, or there is none |
| RoundTrip.HeaderLineSplits | src/stomp_io.c:441-455 | a printed header line is cut at its first colon, whatever colons its value holds |
| RoundTrip.ParsePrintedHeaders | src/stomp_io.c:421-459 | parsing printed header lines stores the entries in printed order |
| RoundTrip.ParseHeaderBytes | src/stomp_io.c:303-349 | every visiting order of a table, even of one with a stale content-length, is parsed to the same map |
| RoundTrip.HeaderBlock | src/stomp_io.c:421-459 | the header loop is a fold over lines cut at their first colon, and fails exactly when a line has no colon |
| RoundTrip.TakeTextStops | src/stomp_io.c:204-218 | a body without content-length ends at the first NUL and the one byte after it decides |
| RoundTrip.SurvivorComesBack | src/stomp_io.c:281-379 | a frame of the surviving kinds is read back from the front of any stream, under any table order, and nothing behind it is touched |
| RoundTrip.BodylessTableIsRefused | src/stomp_io.c:326-345 | a frame with headers and no body is refused by the reader when read alone |
| RoundTrip.InnerNulIsLost | src/stomp_io.c:359-368 | without headers a body that holds a NUL does not come back |
| RoundTrip.RoundTripExactly | src/stomp_io.c:281-515 | write then read restores the frame if and only if it has headers and a body, neither, or a counted NUL-free body alone |
| RoundTrip.StreamRoundTrip | src/stomp_io.c:281-515 | any sequence of such frames comes back frame by frame with no bytes left over |
| RoundTrip.EncodedHead | src/stomp_io.c:285-356 | command and headers at the front of an encoded frame are read back |
| WireFormat.LineOfEntry | src/stomp_io.c:303-324 | each entry of the table is printed as key, colon, value and LF between the lines before and after it |
| WireFormat.WrittenForm | src/stomp_io.c:285-371 | the bytes of a frame, written out: command and LF, the header lines and as the last of them `content-length:` with the number, LF, the body, NUL and LF |
| WireFormat.WrittenCount | src/stomp_io.c:336-363 | a length that is a positive `int` is printed and counts the body bytes |
| WireFormat.WrittenText | src/stomp_io.c:336-363 | with any other length the body is the text with its NUL, and that size is printed |
| WireFormat.WrittenMinusOne | src/stomp_io.c:326-345 | a frame without body and with length -1 says `-1` and has no body bytes |
| WireFormat.MessageIsRead | src/stomp_io.c:413-508 | the literal bytes of a MESSAGE with `content-length` are read as that body, whatever bytes it holds and whatever follows |
| WireFormat.CountedFrameIsRead | src/stomp_io.c:413-508 | the same for any command and one more header |
| WireFormat.TextFrameIsRead | src/stomp_io.c:493-508 | without `content-length` the body is the text up to its NUL, and the frame is refused unless LF follows |
| WireFormat.BrokenHeadIsRefused | src/stomp_io.c:107-118 | a NUL in the command or a header line without colon is refused there as a protocol error |
| WireFormat.BrokenBodyIsRefused | src/stomp_io.c:466-492 | behind a counted body exactly NUL and LF are accepted, and a `content-length` of 0 is refused |
| Restoration.PlainTextIsNecessary | src/stomp_io.c:286-324 | a frame whose command and headers come back has text that needs no escaping |
| Restoration.RoundTripReadsBack | src/stomp_io.c:281-515 | the written form comes back if and only if the text is plain and the frame of a surviving kind |
| Restoration.RoundTripRestores | src/stomp_io.c:281-515 | what the caller means comes back, with nothing left over, if and only if the text is plain, the kind survives and the length is not cut to an `int` |
| RoundTrip.HeadersArePlain | src/stomp_io.c:421-459 | parsed keys hold no LF, NUL or colon and parsed values no LF or NUL |
| Reading.HeadersAreLocal | src/stomp_io.c:421-460 | a parsed header block depends on its own bytes only |
| Reading.BodyIsLocal | src/stomp_io.c:462-508 | a parsed body depends on its own bytes only |
| Reading.ReadIsLocal | src/stomp_io.c:413-508 | a successful read is decided by the bytes it consumed, under any pattern of short receives |
| Reading.PrefixStable | src/stomp_io.c:413-508 | more input behind a frame changes neither the frame nor where reading stops |
| Reading.ExactlyConsumed | src/stomp_io.c:413-508 | the consumed bytes alone are exactly that frame |
| Reading.ReadShape | src/stomp_io.c:395-508 | an accepted frame has well-formed text, a header table and a non-empty body of the stated length |
| Reading.NormalForm | src/stomp_io.c:298-371 | rewriting an accepted frame makes only content-length canonical, if and only if its body length fits an `int` |
| Reading.NormalFormIsFixed | src/stomp_io.c:298-371 | a second write and read changes nothing |
| Deliveries.CountedUnderService | src/stomp_io.c:466-492 | under any service a counted frame differs at most in its body, which the cut decides |
| Deliveries.TextUnderService | src/stomp_io.c:204-218 | under any service an uncounted frame differs at most in whether its last LF was read |
| Deliveries.SuccessIsFull | src/stomp_io.c:462-508 | a read that succeeds is the full read, unless a severable body was cut or an unset byte was LF |
| Deliveries.SilentTruncation | src/stomp_io.c:466-492 | for any stream that starts with a counted frame, whoever wrote it, some short receive makes the reader accept something else if and only if the body holds NUL LF behind its first byte |
| Deliveries.PrefixParses | src/stomp_io.c:413-508 | a proper prefix of a frame is accepted under some service if and only if it reaches a terminator inside a counted body or lacks only the final LF of an uncounted one |
| Deliveries.NoPrefixParses | src/stomp_io.c:413-508 | over full receives no proper prefix of a frame's bytes is a frame |
| Deliveries.TextIsNotSeverable | src/stomp_message.c:49-53 | a NUL-terminated text is never such a body |
| BlockList.Block.constructor | src/stomp_io.h:46-49 | a block is 1024 zero bytes without successor |
| BlockList.BlockList.constructor | src/stomp_io.c:88 | the list starts as one block that holds nothing |
| BlockList.BlockList.Store | src/stomp_io.c:103-105 | a received byte is appended, all blocks but the last staying full |
| BlockList.BlockList.ReplaceLast | src/stomp_io.c:110 | the LF becomes a NUL in place and nothing else changes |
| BlockList.BlockList.Grow | src/stomp_io.c:121-130 | a new block is linked exactly when the last one is full, contents unchanged |
| BlockList.CopyInto | src/stomp_io.c:147 | copying a chunk extends the filled part of the buffer by it |
| BlockList.BlockList.Chunk | src/stomp_io.c:145-149 | every block holds its chunk of the contents, and the chunks end with the last block |
| BlockList.BlockList.Flatten | src/stomp_io.c:134-150 | the flattened array is the contents, all chunks together |
| StompIo.WriteBuffer | src/stomp_io.c:48-70 | whatever the socket takes at a time, success means all data was appended and an error exactly a prefix; the first failing send ends the loop and is the result |
| StompIo.HashEntries | src/stomp_io.c:303-304 | visiting a table yields each of its entries once |
| StompIo.WriteHeader | src/stomp_io.c:306-323 | one header line, or after an error a prefix of it |
| StompIo.WriteHeaders | src/stomp_io.c:298-352 | the table and content-length (spelled out in `WireFormat.WrittenForm`), or after an error a prefix |
| StompIo.WriteBody | src/stomp_io.c:358-367 | the body bytes, or after an error a prefix |
| StompIo.WriteHead | src/stomp_io.c:285-356 | command, headers and the empty line, or after an error a prefix |
| StompIo.Write | src/stomp_io.c:281-379 | success appends the encoded frame (spelled out in `WireFormat.WrittenForm`), an error exactly a prefix of it; the result is that of the last send, and only that one can have failed |
| StompIo.RecvInto | src/stomp_io.c:93-105 | one received byte is moved to the end of the block list, and the result is what the socket reported |
| StompIo.CollectLine | src/stomp_io.c:88-132 | the list holds the line and a NUL; a failure is the code of the first failing receive, or a general one exactly behind a NUL |
| StompIo.ReadLine | src/stomp_io.c:73-154 | the result is exactly the bytes before the first LF and a NUL, with their count; a failure is the code of the first failing receive, or a general one behind a NUL |
| StompIo.CollectText | src/stomp_io.c:190-233 | the list holds the bytes up to and including the first NUL; the result is that of the last receive |
| StompIo.ExpectNewline | src/stomp_io.c:205-217 | one byte behind the NUL is consumed and decides; if it does not come, the byte that was in the buffer decides |
| StompIo.ReadBuffer | src/stomp_io.c:156-273 | the result is exactly the bytes up to and including the first NUL, succeeding exactly when LF follows |
| StompIo.ReadHeaders | src/stomp_io.c:420-460 | the table is the fold of the header lines; a failure is the code of the first failing receive or a protocol error in the bytes |
| StompIo.ReadCounted | src/stomp_io.c:466-492 | a counted body under any cut, then exactly NUL LF; each of the two receives passes its failure on |
| StompIo.ReadBody | src/stomp_io.c:462-509 | the header `content-length` decides how the body is read; a failure is the code of the first failing receive or a protocol error in the bytes |
| StompIo.Read | src/stomp_io.c:381-515 | a read frame is what the reader function gives under the socket's service, and no byte is lost; no frame means the code of the first failing receive or, for bytes that break the protocol, a general one; a steady socket leaves no choice of frame, rest or error |
| Message.Strlen | src/stomp_message.c:53 | the number of bytes before the first NUL |
| Message.Strncpy | src/stomp_message.c:50-51 | the text up to a length or NUL, then zeros |
| Message.Message.constructor | src/stomp_message.c:8-33 | a new message has no body and size -1 |
| Message.Message.Format | src/stomp_message.c:44-54 | the message holds the text as a C string in a new buffer and its size counts the NUL |
| Message.FormattedBody | src/stomp_message.c:49-53 | a formatted message is written as its text and NUL, and cannot be cut unnoticed |
| ExProperties.ExchangeProperties.Add | src/stomp_ex_properties.c:19-24 | one property gets the value, NULL removing it, the others stay |
| ExProperties.ExchangeProperties.Get | src/stomp_ex_properties.c:26-31 | the value of the property, or nothing exactly when there is none |
| ExProperties.ExchangeProperties.Clear | src/stomp_ex_properties.c:33-37 | no property is left |
| Frames.Put | src/stomp_ex_properties.c:23 | after a hash set the key has the value, or is absent for NULL, and no other key changed |
| Protocol.CallsWriteWellFormedFrames | src/stomp_messenger.c:133-574 | no call can break the framing, whatever ids, receipts and options it is given |
| Protocol.NextKeepsPlain | src/stomp_messenger.c:593-601 | a plain session stays plain, whatever a peer sends |
| Protocol.ReceiptAccounting | src/stomp_messenger.c:223-574 | a frame carries its receipt exactly when the call waits, unless a SEND without receipt meets a "receipt" property |
| Protocol.IdsCollide | src/stomp_messenger.c:391-408 | two 64-bit ids are written as the same header if and only if they agree modulo 2^32 |
| Messenger.Messenger.constructor | src/stomp_messenger.c:18-72 | a messenger starts without properties, with success and with root stripping |
| Messenger.Messenger.AwaitFrame | src/stomp_messenger.c:227-244 | one poll; a negative answer takes no byte, a positive one is followed by one read, whose error is the socket's own or a protocol error |
| Messenger.Messenger.ProcessReply | src/stomp_messenger.c:223-255 | success means that one frame was read whose command starts as expected; otherwise the status is failure |
| Messenger.Messenger.Transmit | src/stomp_messenger.c:279-288 | the wire gets the frame, or after an error a prefix, and nothing else changes |
| Messenger.Messenger.Conclude | src/stomp_messenger.c:279-294 | after a write a call fails, succeeds at once, or succeeds with the reply that it awaits |
| Messenger.Messenger.Submit | src/stomp_messenger.c:279-294 | writing and then waiting if a reply is due is one step; a negative poll makes the call fail without taking a byte, and only a failure changes the status |
| Messenger.Messenger.Connect | src/stomp_messenger.c:155-221 | the call is one step, with the CONNECT frame of `Calls.ConnectIsWritten`; its wait is what poll and receives reported |
| Messenger.Messenger.Disconnect | src/stomp_messenger.c:265-295 | the call is one step, with the frame of `Calls.DisconnectIsWritten` |
| Messenger.Messenger.Subscribe | src/stomp_messenger.c:297-348 | the call is one step, with the frame of `Calls.SubscribeIsWritten`; without header it fails and does not touch the connection |
| Messenger.Messenger.Unsubscribe | src/stomp_messenger.c:350-389 | the call is one step, with the frame of `Calls.UnsubscribeIsWritten` |
| Messenger.Messenger.Ack | src/stomp_messenger.c:410-440 | the call is one step, with the ACK command (`Calls.CommandIsWritten`) and the headers of `Calls.AckIsWritten` |
| Messenger.Messenger.Nack | src/stomp_messenger.c:442-475 | the call is one step, with the NACK command (`Calls.CommandIsWritten`) and the headers of `Calls.AckIsWritten` |
| Messenger.Messenger.Transaction | src/stomp_messenger.c:477-510 | the call is one step, with the headers of `Calls.TransactionIsWritten` |
| Messenger.Messenger.Begin | src/stomp_messenger.c:512-516 | the call is one step of the state machine |
| Messenger.Messenger.Commit | src/stomp_messenger.c:518-522 | the call is one step of the state machine |
| Messenger.Messenger.Abort | src/stomp_messenger.c:524-528 | the call is one step of the state machine |
| Messenger.Messenger.Send | src/stomp_messenger.c:530-574 | the call is one step, with the headers of `Calls.SendIsWritten` and the body of `Calls.SendCountIsWritten` or `SendTextIsWritten` |
| Messenger.Messenger.Receive | src/stomp_messenger.c:576-619 | the call is one step; a negative poll gives no data and takes no byte; a frame read succeeds exactly when its command starts with MESSAGE, fills the message and overrides the properties; without a frame success means that the socket reported a timeout |
| Messenger.Messenger.TakeIn | src/stomp_messenger.c:594-616 | a frame fills the message and overrides the properties; without one only code and status change |
| Messenger.Messenger.ReceiveFrame | src/stomp_messenger.c:586-616 | poll, read and taking in a frame, with the code, the status, the properties and the message that follow from each outcome |
| Calls.CommandIsWritten | src/stomp_messenger.c:155-535 | in every session each completed call starts the wire with its own command line, and the calls without frame write nothing |
| Calls.CallHappens | src/stomp_messenger.c:133-574 | every writing call with plain values can be made from every plain session without input |
| Calls.NoBodyIsWritten | src/stomp_messenger.c:175-176 | a call without body writes content-length -1 and nothing in front of the terminator |
| Calls.ConnectIsWritten | src/stomp_messenger.c:155-173 | the headers of CONNECT: login is the username, passcode the password, accept-version 1.2, no others |
| Calls.DisconnectIsWritten | src/stomp_messenger.c:269-277 | the only header of DISCONNECT is the receipt, when one is asked for |
| Calls.SubscribeIsWritten | src/stomp_messenger.c:302-327 | the headers of SUBSCRIBE: the path without its root when that is stripped, id and receipt |
| Calls.UnsubscribeIsWritten | src/stomp_messenger.c:355-365 | the headers of UNSUBSCRIBE: the whole path, id and receipt |
| Calls.AckIsWritten | src/stomp_messenger.c:391-422 | the headers of ACK and NACK: ids that are not negative, through an `int`, and the receipt |
| Calls.TransactionIsWritten | src/stomp_messenger.c:483-489 | the headers of BEGIN, COMMIT and ABORT: a transaction id that is not negative and the receipt |
| Calls.SendIsWritten | src/stomp_messenger.c:535-556 | the headers of SEND: receipt, transaction and destination of the call, the exchange properties under every other name |
| Calls.SendCountIsWritten | src/stomp_io.c:336-363 | a SEND whose size is a positive `int` has that many body bytes and says so |
| Calls.SendTextIsWritten | src/stomp_io.c:336-363 | a SEND with any other size has the text with its NUL and says so |
| Calls.CallsThatWait | src/stomp_messenger.c:190-571 | connect and receive always wait once their writing is complete, the other calls exactly when a receipt is asked for |
| Calls.CodeIsReported | src/stomp_messenger.c:133-619 | what every call reports for every outcome: CONNECTED, RECEIPT or MESSAGE as the start of the command that came, no data, a timeout, an incomplete write |
| Calls.StatusIsKept | src/stomp_messenger.c:133-619 | the status field changes to a failure or to no data, and in no other case; a frame that is no MESSAGE leaves it |
| Calls.IdleTakesNothing | src/stomp_messenger.c:586-591 | a wait in vain takes no byte and changes no property |
| Runs.PropertiesAreNext | src/stomp_ex_properties.c:19-37 | adding and clearing properties are steps that leave the connection alone |
| Runs.WireTrace | src/stomp_messenger.c:178-574 | over any run the outbound bytes are what the calls wrote, in call order |
| Runs.WireHoldsWholeFrames | src/stomp_messenger.c:178-574 | the wire is one whole encoded frame per writing call, then a prefix of the one whose write failed |
| Runs.RunStaysPlain | src/stomp_messenger.c:593-601 | a run that starts plain and uses plain values stays plain |
| Runs.ReadableSendIsSendable | src/stomp_messenger.c:530-566 | a completed SEND of a body from a plain session is a frame that survives |
| Runs.WireReadsBack | src/stomp_io.c:281-515 | what a run of sends, receives and property changes adds to the wire is read back as exactly its frames, in call order |
| Runs.InputConservation | src/stomp_messenger.c:227-616 | over any run, errors included, received bytes and waiting bytes are the bytes that arrived, in order |
| Runs.ExchangeIsItsHistory | src/stomp_messenger.c:536-603 | a property's value comes from the latest add, clear or received frame that wrote it; no other call changes it |
| Runs.FramesConsumed | src/stomp_messenger.c:133-619 | a successful run consumes one frame per connect, per receipt asked for and per frame received |
| Broker.FirstTextIsRead | src/stomp_messenger.c:227-244 | a wait takes the first of the frames that arrive and leaves the others |
| Broker.AwaitingIsServed | src/stomp_messenger.c:223-255 | a waiting call is served if and only if no message comes early and the broker owes exactly what the call expects |
| Broker.StaysInStep | src/stomp_messenger.c:133-619 | for every session: a call gets what it waits for and leaves client and broker in step if and only if the bytes it wrote ask for exactly that and no message comes uncalled for |
| Broker.EarlyMessageIsLost | src/stomp_messenger.c:246-252 | a message that comes before an awaited answer is consumed and dropped, the call fails and the answer stays unread |
| Broker.TableDues | src/stomp_messenger.c:257-263 | the table of a call's frame asks for what the call awaits, a leaked receipt aside |
| Broker.WireDues | src/stomp_io.c:298-352 | the bytes of a well-formed frame ask a broker for what its table says, in every table order |
| Broker.DuesWhenPlain | src/stomp_messenger.c:530-574 | in a plain session the wire asks for what the call awaits, except for a SEND without receipt under a "receipt" property |
| Broker.PlainStaysInStep | src/stomp_messenger.c:133-619 | in a plain session a call is served and stays in step if and only if it does not leak and no message comes uncalled for |
| Lockstep.ReceiptStaysOut | src/stomp_messenger.c:593-601 | receiving messages without a receipt header brings no "receipt" property |
| Lockstep.Lockstep | src/stomp_messenger.c:133-574 | in every run against a FIFO broker that starts plain and without a "receipt" property, every call gets exactly its own answer and leaves no input unread |
| Lockstep.WireAccounting | src/stomp_messenger.c:133-619 | such a run, when successful, consumes one frame per written frame that asks for an answer and per frame received |
| Lockstep.LeakedReceiptIsConsumed | src/stomp_messenger.c:246-254 | with a leaked receipt owed, the next waiting call succeeds with the wrong RECEIPT and leaves its own unread |
| Lockstep.EveryLeakMisleads | src/stomp_messenger.c:536-574 | every SEND that leaks the property misleads the next call that asks for a receipt |
| Lockstep.ReceiptTextAnswers | src/stomp_io.c:493-508 | a RECEIPT without content-length, ended by NUL LF, is a valid answer for its id |
| Lockstep.OwnReceiptHappens | src/stomp_messenger.c:265-295 | from every session in sync a call can get its own receipt and stay in step |
| Lockstep.DesyncHappens | src/stomp_messenger.c:536-574 | from every plain session with the property, with any body, the desynchronisation does happen |
| Lockstep.UnescapedValueLeaks | src/stomp_io.c:306-320 | a property value that holds LF puts a receipt header on the wire although "receipt" is no property |
| EndToEnd.PropertiesAreSent | src/stomp_messenger.c:536-555 | every property that the library does not own is a header of the SEND frame |
| EndToEnd.SentMessageReadsBack | src/stomp_messenger.c:530-574 | a reader of the sender's wire gets the text with its NUL and the properties |
| EndToEnd.RelayCarries | src/stomp_messenger.c:593-601 | a MESSAGE with the same body carries the text and every property that the broker did not change |
| EndToEnd.CountedMessage | src/stomp_io.c:413-508 | a MESSAGE with its headers in any order and one `content-length` among them is read as those headers and that body, ended by NUL and LF |
| EndToEnd.CarriedIsReceived | src/stomp_io.c:462-508 | over any socket the receiver gets no frame or exactly the one in the bytes, whoever wrote them; over a steady one it gets it |
| EndToEnd.CarriedIsKept | src/stomp_messenger.c:596-597 | headers of a received frame become properties |
| EndToEnd.MessageEndToEnd | src/stomp_messenger.c:530-619 | text, size and all free properties go from sender to receiver through any broker that keeps the body, whatever headers it changes and however it writes them |
| EndToEnd.DeliveryHappens | src/stomp_messenger.c:593-601 | from every session with empty input any MESSAGE can be delivered |
| EndToEnd.FormatAndSend | example/messenger/client.c:78-107 | formatting and sending data puts its text and the properties on the wire, readably |
| EndToEnd.ReceiveText | example/messenger/server.c:94-107 | receiving leaves the peer's text in the message and its properties in the exchange |

## Left out

- `stomp_engine_connect`, `stomp_engine_disconnect`, timeouts, socket options and URI parsing are wrappers over APR; a messenger starts with a connection and a non-empty path.
- Memory pools, allocation failure and pool lifetimes; header strings are values, so a string shared between tables is not modelled as shared memory. The block list, the line buffer and the message body are on the heap.
- CValues.Itoa: does not model the overflow of `apr_itoa` on the most negative `int`, which an id of 2^31 modulo 2^32 would reach.
- StompIo.ReadCounted: does not model a failing allocation for a negative or huge content-length; the length is converted to `size_t` as in the code and the receive then comes up short.
- StompIo.Read: the zero bytes behind a short counted body are not part of the frame's body; after a failing receive over a socket that is not steady the contract gives the code and the conservation of the input, not how far the read got.
- StompIo.ReadLine: does not model the `int` in which the code keeps the line length, so a header line of a multiple of 2^32 bytes, which would end the headers, is an ordinary line here.
- Messenger.Messenger.Connect: keeps the socket that the messenger has, where the code replaces the connection; the streams of a run are those of one connection.
- Broker.Dues: where an unescaped value repeats a header, the last one counts, as in the library's own reader; a broker that follows STOMP 1.2 would take the first.
- Messenger.Messenger.Unsubscribe: does not accept a NULL header, which the code dereferences.
- Messenger.Messenger.Send: requires the message memory to be as long as its size says, or to hold a NUL when the size is not a positive `int`.
- Error messages, stderr output, STOMP_DEBUG output, `src/stomp_status.c` beyond the status code, and `stomp_exchange_util_ctime`.
- CRLF line ends, header value escaping, heartbeats and acknowledge modes are not implemented by the code.
- APR itself is not part of this model; its calls are described by the contracts of `Socket` and by `Itoa`, `Atoi64` and `HashEntries`.
