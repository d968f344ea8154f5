# The serial link between the microcontroller and its Zenoh proxy

A microcontroller publishes and subscribes through a proxy on the host. Between the two runs a serial line. This
project models the four layers of that link and proves what they promise, on all inputs and over all runs.

1. **Framing.** A message gets a 16-bit frame check sequence, is stuffed so that the flag octet never occurs in it,
   and goes between two flags. `FcsTable.dfy` and `FrameCheck.dfy` prove the table-driven check equal to the
   bit-serial register of RFC 1662, Appendix C; `ShiftRegister.dfy` has the algebra of that register (superposition,
   residue, bursts, parity); `PppFrame.dfy` has the sender's and the receiver's loops and how they undo each other.
2. **Reassembly.** `FrameExtractor.dfy` cuts frames out of a byte stream that arrives in arbitrary chunks, with a
   flush after a second without a flag that is only tested when a chunk ends.
3. **Messages.** `Cbor.dfy` is the part of RFC 8949 the messages use (sections 3.1, 3.2.2 and 4.1), `CborStreams.dfy`
   the serializer and deserializer objects, `BrokerProtocol.dfy` the five messages, the filter in front of each
   handler, and the 64-bit readings nested inside publishes.
4. **Protocol.** `BrokerZenoh.dfy` is the proxy's broker over opaque library handles, `ProxyPipeline.dfy` the proxy
   from serial bytes to broker calls and replies, `UcBroker.dfy` the microcontroller's resources and event handlers.
   `Link.dfy` joins both sides by two queues with loss, refusals, repeated connects and disconnects; `Watchdog.dfy`
   adds the clock on the microcontroller's side; `Recovery.dfy` puts both together and says which disconnects are made
   good, and how soon.

`ByteStrings.dfy`, `Octets.dfy`, `Queues.dfy` and `Wrappers.dfy` hold what the others share.

Objects the program updates in place are classes. Each method is proved against a function on values (`Run`,
`RunFrames`, `HandleFrom`, `OnFrameFrom`, ...), and the theorems are about those functions. The clock, the library's
answers and the contents of uninitialised variables (`_lastFrameFlag`, `_loopbackReceived`, `msgBase`, the messages of
the handlers) are parameters, and a theorem holds whatever they are unless it says for which. Integers have their C++
widths: clock differences wrap modulo 2^64, and a reading is converted to 32 bits where the program converts it.

## Where the code and its documentation part ways

The model follows the code.

- An empty payload frames to a body of two octets, and the receiver wants three (`Ppp.FramingRoundTrip`).
- Two escapes in a row count as one, as the escape test comes before the test of the flag variable.
- The receiver removes two octets from its result after the check, however many there are. `Ppp.PopsSafeIff` says for
  which inputs that is sound; the accepted ones are among them, three escapes are not. After a removal from too short a
  result its contents are left open. The theorems about arbitrary bytes (`FrameExtraction.BytesConserved`,
  `FrameExtraction.FlagResynchronises`, `FrameExtraction.SelfSynchronises`, `ProxyPipeline.EndToEndAfterGarbage`)
  presuppose that the bodies between flags are sound in this sense.
- `member(string&)` copies the text from a pointer that only a complete text sets; the assertion in between merely warns.
  A message whose text the 1024-octet buffer cuts short passes its filter, and its handler then reads from wherever
  that pointer leads (`BrokerProtocol.LongConnectReadsAstray`). `Cbor.TextReadSafe` is the condition. What the reader
  leaves behind otherwise, and all that a handler does after it, is left open: the contracts of the reader, the handlers
  and the pipeline hold as long as no such read occurs, and `BrokerProtocol.DecodeSafeIff`,
  `BrokerProtocol.DispatchExact` and `ProxyPipeline.EndToEnd` say exactly for which messages that is.
- The comment above `ppp_deframe` lists three return codes; the function returns true or false.
- `CborDeserializer::fromBytes` warns at inputs as long as the buffer, and still decodes them
  (`BrokerProtocol.DecodeExact`).
- Publishers of 64-bit readings write them through the 32-bit overload, because the reading is const. From 2^31 on a
  reading does not come back (`BrokerProtocol.ValueRoundTripIff`).
- `BrokerZenoh::publisher` keeps an entry the library refused, with a null handle that a disconnect then hands back
  (`ZenohBroker.BrokerZenoh.Disconnect` counts these).
- Nothing initialises `_loopbackReceived`. A value ahead of the clock passes for a loopback when the clock gets there,
  and keeps a microcontroller connected on a line that has been silent for 25 seconds
  (`Watchdog.SilentLineStaysConnected`, `Watchdog.AlwaysBoundedIff`).
- A disconnect in the middle of a series of declarations may never be made good: the subscriptions declared after it keep
  bringing samples, and any sample counts as a loopback (`Recovery.RecoversIff`, `Recovery.HandshakeCanTear`).

## Model

| member | source | states |
|---|---|---|
| FcsTable.TableIsShifts | common/ppp_frame.cpp:9-38 | each of the 256 table entries is its index after eight shifts with the polynomial 0x8408 |
| FrameCheck.TableStepIsBitwise | common/ppp_frame.cpp:46-49 | one table step moves any 16-bit state as eight bit-serial steps on the byte, lowest bit first, do |
| FrameCheck.FastFormRefines | common/ppp_frame.cpp:9-53 | for every byte string the table-driven state equals the bit-serial register started at all ones |
| FrameCheck.Fcs.constructor | common/ppp_frame.cpp:44 | a new accumulator has seen nothing and holds the register's initial state |
| FrameCheck.Fcs.Write | common/ppp_frame.cpp:46-49 | the accumulator stays equal to the register over all bytes written so far, the new one last |
| FrameCheck.TrailerOctets | common/ppp_frame.cpp:51-74 | the two octets sent are the complemented register, low octet first |
| FrameCheck.ResultIsResidue | common/ppp_frame.cpp:51-120 | the comparison with 0x0F47 succeeds exactly when the register holds the residue |
| FrameCheck.ResidueIffTrailer | common/ppp_frame.cpp:64-127 | a byte string leaves the residue exactly when it is some payload followed by that payload's check sequence; it then has at least two bytes |
| ShiftRegister.RegisterLinear | common/ppp_frame.cpp:46-49 | the register is linear: the exclusive or of two states and two inputs of equal length gives the exclusive or of the results |
| ShiftRegister.ComplementIffResidue | common/ppp_frame.cpp:73-120 | sixteen bits take the register to the residue exactly when they are its complement |
| ShiftRegister.RegisterInjective | common/ppp_frame.cpp:46-49 | different states never meet again on the same input |
| ShiftRegister.BurstChangesRegister | common/ppp_frame.cpp:46-51 | two inputs of any length that differ only within 16 consecutive bits, at any bit offset, end in different states |
| ShiftRegister.SeventeenBitsHideIff | common/ppp_frame.cpp:46-51 | sixteen is the limit: a change within 17 bits leaves the final state alone exactly when it is no change or the generator itself |
| ShiftRegister.RegisterParity | common/ppp_frame.cpp:46-49 | the parity of the state changes by the parity of the bits consumed |
| ShiftRegister.OddFlipsChangeRegister | common/ppp_frame.cpp:46-51 | an odd number of flipped bits, anywhere, changes the final state |
| Ppp.AddEscaped | common/ppp_frame.cpp:55-62 | appends the escaped form of a byte |
| Ppp.PppFrame | common/ppp_frame.cpp:64-77 | the sender's loop yields flag, the stuffing of payload and check sequence, flag |
| Ppp.PppDeframe | common/ppp_frame.cpp:89-127 | the receiver's loop accepts what the specification accepts and yields its payload; it tells when the removals come to too short a result, and otherwise leaves behind what the specification says, on a reject too |
| Ppp.DeframeExact | common/ppp_frame.cpp:89-127 | accepted with payload p exactly when at least 3 bytes, no flag, no pending escape, and unstuffing gives p and its check sequence |
| Ppp.UnstuffStuff | common/ppp_frame.cpp:55-118 | unstuffing undoes stuffing; stuffed text holds no flag and leaves no escape pending |
| Ppp.FramingRoundTrip | common/ppp_frame.cpp:64-127 | deframing the body of a framed payload gives the payload back exactly when it is not empty; the empty one is rejected |
| Ppp.FrameInjective | common/ppp_frame.cpp:64-77 | two payloads never share a frame |
| Ppp.FrameShape | common/ppp_frame.cpp:55-77 | flags only at the two ends, each escape before 0x5D or 0x5E, four octets longer than the payload plus one per special octet of payload and check sequence, hence at most twice the payload plus six |
| Ppp.StuffUnstuffIff | common/ppp_frame.cpp:55-118 | stuffing undoes unstuffing exactly on the bodies a sender could have produced |
| Ppp.PopsSafeIff | common/ppp_frame.cpp:93-126 | the function never removes from too short a result exactly for inputs below three bytes, inputs with a flag, and inputs with at least two bytes other than escapes; always so for accepted inputs, not for three escapes |
| Ppp.BurstRejected | common/ppp_frame.cpp:46-126 | change what an accepted body decodes to within 16 consecutive bits: rejected, for every length |
| Ppp.OddFlipsRejected | common/ppp_frame.cpp:46-126 | flip an odd number of bits of what an accepted body decodes to: rejected, for every length |
| FrameExtraction.FrameExtractor.constructor | common/Frame.cpp:6 | nothing is pending, and the time of the last flag may be anything |
| FrameExtraction.FrameExtractor.ToStdout | common/Frame.cpp:8-15 | shows the bytes unless there are none |
| FrameExtraction.FrameExtractor.HandleFrame | common/Frame.cpp:17-26 | emits the payload of an accepted body, shows any other non-empty body |
| FrameExtraction.FrameExtractor.HandleRxd | common/Frame.cpp:28-44 | one chunk with its clock readings moves the state and the outputs as the step function does, byte by byte, then the flush |
| FrameExtraction.RunAppend | common/Frame.cpp:28-44 | a run over two parts is the run over the second from the state the first left, its outputs behind the first's |
| FrameExtraction.FlagExact | common/Frame.cpp:17-33 | after every run, a flag clears what is pending and emits it with the payload it carries, or shows it if it carries none, or does nothing if nothing was pending |
| FrameExtraction.OtherByteExact | common/Frame.cpp:34-36 | after every run, any other byte is kept and nothing comes out |
| FrameExtraction.ChunkEndExact | common/Frame.cpp:38-43 | after every run, a chunk end more than 1000 ms after the last flag shows what is pending, if anything, and starts over; any other chunk end changes nothing |
| FrameExtraction.EmittedCarried | common/Frame.cpp:17-33 | over every run nothing comes out as a payload but what the received body carries with a valid check sequence |
| FrameExtraction.BurstOnlyPrinted | common/Frame.cpp:17-26 | over every run, a body whose decoded bits differ from a valid one's within 16 consecutive bits only ever shows on the terminal |
| FrameExtraction.OddFlipsOnlyPrinted | common/Frame.cpp:17-26 | so does a body with an odd number of flipped decoded bits |
| FrameExtraction.BytesConserved | common/Frame.cpp:8-44 | over any run, chunking and clock: the received bytes without flags are, in order, the raw bytes of accepted frames and of terminal output, then what is pending |
| FrameExtraction.TimelyRunParses | common/Frame.cpp:28-44 | for a stream of whole frames, from an empty pending buffer and without a late chunk end inside a frame, the outputs depend on the bytes alone, not on chunks or clock |
| FrameExtraction.FramesDelivered | common/Frame.cpp:28-44 | frames chunked in any way, with any timeouts between frames and none inside: every non-empty payload is emitted once, in order |
| FrameExtraction.FlagResynchronises | common/Frame.cpp:17-36 | from the first flag on, the extractor does what a clean one does, after at most one event about leftover bytes |
| FrameExtraction.SelfSynchronises | common/Frame.cpp:17-36 | from any state and after any garbage, a series of frames is delivered intact, after at most one event about what the garbage left |
| Cbor.HeadRoundTrip | common/CborSerializer.cpp:16-58 | the head written for a major type and argument reads back as both, with its own length |
| Cbor.HeadShortest | common/CborSerializer.cpp:16-58 | no sequence of octets that reads as a head of the same type and argument is shorter than the one written |
| Cbor.HeadLayout | common/CborSerializer.cpp:16-58 | every octet of a written head as a number: type and length code, then the argument, most significant octet first |
| Cbor.ElementLayout | common/CborSerializer.cpp:16-58 | integers have the major types 0 and 1, byte strings 2, texts 3 |
| Cbor.ReadInt | common/CborDeserializer.cpp:53-61 | a written 32-bit integer reads back, and the reader stands behind it |
| Cbor.ReadUInt64 | common/CborDeserializer.cpp:63-71 | a written 64-bit number reads back, and the reader stands behind it |
| Cbor.ReadIntUnsigned | common/CborDeserializer.cpp:63-71 | a 32-bit integer read by the unsigned overload comes back when not negative, and otherwise leaves the variable alone |
| Cbor.ReadBytes | common/CborDeserializer.cpp:23-37 | a written byte string reads back, and the reader stands behind it |
| Cbor.ReadText | common/CborDeserializer.cpp:39-51 | a written text reads back up to its first NUL, and the reader stands behind it |
| Cbor.CStringIff | common/CborDeserializer.cpp:42-46 | text survives being assigned from a C string exactly when it holds no NUL |
| Cbor.CStringStops | common/CborDeserializer.cpp:42-46 | a text with a NUL comes back up to the first one |
| Cbor.OtherTypeKept | common/CborDeserializer.cpp:23-71 | a read that finds an element of another type leaves its variable alone |
| Cbor.WideIntWraps | common/CborDeserializer.cpp:53-61 | an integer too wide for the 32-bit variable leaves its low 32 bits there |
| Cbor.ReadString | common/CborDeserializer.cpp:23-51 | a written string of either kind is found again whole, and the reader stands behind it |
| Cbor.StringPrefix | common/CborDeserializer.cpp:84-89 | no proper prefix of a written string reads as a complete element |
| Cbor.TextSafeIff | common/CborDeserializer.cpp:39-51 | with its head intact, a written text is safe to read exactly when all of it is there |
| CborStreams.CborSerializer.Begin | common/CborSerializer.cpp:60-66 | starts over with an array of indefinite length |
| CborStreams.CborSerializer.MemberInt | common/CborSerializer.cpp:16-27 | appends the integer; the error tells whether everything fitted |
| CborStreams.CborSerializer.MemberText | common/CborSerializer.cpp:40-44 | appends the text |
| CborStreams.CborSerializer.MemberBytes | common/CborSerializer.cpp:53-58 | appends the byte string |
| CborStreams.CborSerializer.End | common/CborSerializer.cpp:68-73 | closes the array and notes the size |
| CborStreams.CborSerializer.ToBytes | common/CborSerializer.cpp:75 | yields everything written, if it fitted |
| CborStreams.CborDeserializer.FromBytes | common/CborDeserializer.cpp:84-89 | keeps the input, cut at the capacity |
| CborStreams.CborDeserializer.Begin | common/CborDeserializer.cpp:12-19 | stands before the first element, or has an error |
| CborStreams.CborDeserializer.MemberInt | common/CborDeserializer.cpp:53-61 | sets the variable when the element is an integer, else leaves it; moves on; the error is that of moving on |
| CborStreams.CborDeserializer.MemberConstInt | common/CborDeserializer.cpp:73-82 | moves on, whatever the element is |
| CborStreams.CborDeserializer.MemberUInt64 | common/CborDeserializer.cpp:63-71 | sets the variable when the element is an unsigned integer, else leaves it; moves on |
| CborStreams.CborDeserializer.MemberBytes | common/CborDeserializer.cpp:23-37 | sets the variable when the element is a byte string, else leaves it; moves on |
| CborStreams.CborDeserializer.MemberText | common/CborDeserializer.cpp:39-51 | unless a text is incomplete: sets the variable, up to a NUL, when the element is text, else leaves it; moves on |
| BrokerProtocol.Serialize | common/broker_protocol.h:24-90 | a message becomes the array of its tag and fields in order; no error exactly when it fits the buffer |
| BrokerProtocol.PinnedPublisher | src/test.cpp:22-31 | a publisher message with id 2 and a topic of 13 octets, as in the test, is exactly 9F 03 02 6D, the topic, FF |
| BrokerProtocol.WireLayout | common/broker_protocol.h:5-90 | the octets of all five messages: 9F, the tag 00 to 04, the fields in the order of the declarations, FF |
| BrokerProtocol.Deserialize | common/broker_protocol.h:24-90 | unless a text field is incomplete: reading a message type from the buffer sets the fields and the success flag as the decoder on values does |
| BrokerProtocol.MsgFilter.On | src/proxy.cpp:51-61 | lets a frame through, unchanged, exactly when its tag decodes to the filter's type, and remembers the tag |
| BrokerProtocol.DecodeExact | common/CborDeserializer.cpp:84-90 | a message that fits the buffer is read safely and restored in all fields, text up to a NUL; one that does not fit is refused whenever reading it is safe |
| BrokerProtocol.DecodeSafeIff | common/CborDeserializer.cpp:39-89 | for all messages, in every buffer that keeps the heads: reading is safe exactly for disconnects, publishes, and messages at most one octet longer than the buffer |
| BrokerProtocol.LongConnectReadsAstray | common/CborDeserializer.cpp:39-51 | a connect with a client id of more than 1024 octets passes its filter, and its handler reads from a pointer nothing has set |
| BrokerProtocol.CutTextIff | common/CborDeserializer.cpp:39-51 | every field is restored exactly when no text field holds a NUL |
| BrokerProtocol.FieldsCut | common/CborDeserializer.cpp:84-89 | fields cut anywhere before the closing break never decode successfully, whenever reading them is safe |
| BrokerProtocol.UniqueFilter | src/proxy.cpp:44-66 | a message's bytes pass the filter of its own type and no other, whatever the filter's variable held |
| BrokerProtocol.TaggedPassesIff | src/proxy.cpp:51-61 | any tagged frame passes a filter exactly when the tag is the filter's and the array goes on after it |
| BrokerProtocol.StaleTagDecides | src/proxy.cpp:51-61 | a frame with a text in place of the tag passes a filter exactly when the filter's variable still holds its own type from before |
| BrokerProtocol.DispatchExact | src/proxy.cpp:98-141 | no handler reads from an unset pointer exactly when the message's text arrives whole; then of all five handlers exactly the one for the message's type acts, with the same fields, and none when the message is too long |
| BrokerProtocol.ValueRoundTripIff | zenoh-arduino/src/broker.h:40-110 | a 64-bit reading comes back from its nested encoding exactly when it is below 2^31 |
| BrokerProtocol.DecodeValueExact | zenoh-arduino/src/broker.h:40-110 | what comes back of any reading: its low 32 bits when these are not negative as a signed number, else the variable's old value |
| BrokerProtocol.ValueMessageFits | zenoh-arduino/src/broker.h:40-47 | the message around a reading takes at most 16 octets |
| BrokerProtocol.ReadingRoundTripIff | zenoh-arduino/src/broker.h:40-110 | through the whole message and the 100-octet buffer: id and nested value come back, and from these the reading exactly when it is below 2^31 |
| BrokerProtocol.WideOverloadKeepsAll | common/CborSerializer.cpp:28-33 | the 64-bit overload, which the publishers' const reading does not select, would have kept every reading |
| ZenohBroker.BrokerZenoh.constructor | src/BrokerZenoh.cpp:13 | no session, no entries, nothing written, handles accounted for |
| ZenohBroker.BrokerZenoh.Connect | src/BrokerZenoh.cpp:48-57 | at most one session is ever opened; 0 exactly when there is one afterwards; the tables stay |
| ZenohBroker.BrokerZenoh.Subscriber | src/BrokerZenoh.cpp:76-92 | inserts only if absent and accepted by the library; the live handles stay exactly those in the tables, each given out for its entry's key and id |
| ZenohBroker.BrokerZenoh.Publisher | src/BrokerZenoh.cpp:103-113 | inserts if absent, with a null handle when the library refuses; the live handles stay exactly the non-null ones in the tables, each given out for its entry's key |
| ZenohBroker.BrokerZenoh.Publish | src/BrokerZenoh.cpp:115-127 | writes the bytes under the key of the id's entry and returns the library's code; without an entry writes nothing and returns ENOENT |
| ZenohBroker.BrokerZenoh.Disconnect | src/BrokerZenoh.cpp:59-74 | both tables are emptied, every live handle is given back once, and a null one is handed over once for each refused publisher |
| ProxyPipeline.Proxy.constructor | src/proxy.cpp:75-92 | a proxy that has handled and sent nothing, whatever its uninitialised variables hold |
| ProxyPipeline.Proxy.TellBroker | src/proxy.cpp:98-141 | each handler's call of the broker: tables, session, and to the letter what a publish writes, under which key and on which session |
| ProxyPipeline.Proxy.Act | src/proxy.cpp:98-141 | each handler's effect: the same, and the reply to a connect on the line |
| ProxyPipeline.Proxy.OnSample | src/BrokerZenoh.cpp:6-11 | a sample for a live handle goes out as a publish under the id of the entry that holds the handle |
| ProxyPipeline.Proxy.OnFrame | src/proxy.cpp:98-141 | one frame through the five filters in order: handlers, tables, session, writes, replies and filter variables as specified, unless a handler reads an incomplete text |
| ProxyPipeline.Proxy.OnSerial | src/proxy.cpp:91-141 | one chunk of serial bytes: every payload it completes goes through the filters, in order, with the same proviso |
| ProxyPipeline.Proxy.OnStream | src/proxy.cpp:91-141 | a whole stream in any chunks: tables, session, writes, handled messages and replies are those of the run on values, with the same proviso |
| ProxyPipeline.EndToEnd | src/proxy.cpp:91-141 | the line bytes of any series of messages, chunked in any way without a late chunk end inside a frame: no handler reads astray exactly when all texts arrive whole, and then the handlers fire once per message that fits, in order, with the same fields up to a NUL |
| ProxyPipeline.HandledAsSentIff | src/proxy.cpp:80-141 | the handlers safely see exactly the series that was sent if and only if every message fits 1024 octets and no text holds a NUL |
| ProxyPipeline.EndToEndAfterGarbage | src/proxy.cpp:91-141 | the same from any extractor state and after any garbage: what is handled is what the garbage leads to, with at most one leftover event, then the messages sent |
| ProxyPipeline.PayloadsDelivered | src/proxy.cpp:91-92 | the payloads of the emitted frames are the encodings of the messages sent, one each, in order |
| ProxyPipeline.ChunksReceived | common/Frame.cpp:28-44 | the bytes received over a series of chunks are the chunks one after the other |
| ProxyPipeline.ArrivalsUnchangedIff | src/proxy.cpp:80-141 | no message of a series is dropped or cut exactly when all fit 1024 octets and no text holds a NUL |
| ProxyPipeline.HandleFromAppend | src/proxy.cpp:98-141 | handling a series in two parts is handling it whole |
| ProxyPipeline.TablesExact | src/BrokerZenoh.cpp:59-113 | told from the messages of a run from power-up alone: an id is in a table exactly when some message since the last disconnect declared it, a subscriber's with the library's consent, and its key is the first such message's |
| ProxyPipeline.PublishedExact | src/proxy.cpp:129-134 | told from the messages alone: what is written over a run from power-up is, in order, one write for each publish whose id was declared since the last disconnect, its value under the key of the first such declaration, on an open session exactly if the library accepted a connect before, and nothing else |
| ProxyPipeline.OpenExact | src/BrokerZenoh.cpp:48-57 | a session is open exactly when the library accepted some connect |
| ProxyPipeline.RepliesExact | src/proxy.cpp:99-106 | the proxy's answers are one connect with the text "connected" for each connect, and nothing else |
| UcBroker.TopicRooted | zenoh-arduino/src/broker.h:77-81 | every topic lies below src/ or dst/, and a name that already does is kept |
| UcBroker.TopicInjective | zenoh-arduino/src/broker.h:77-81 | any other name stands whole behind the prefix, so two names never share a topic |
| UcBroker.BrokerSerial.NewPublisher | zenoh-arduino/src/broker.h:74-87 | appends a resource with the next id and the prefixed topic; ids stay unique over both tables |
| UcBroker.BrokerSerial.NewSubscriber | zenoh-arduino/src/broker.h:89-115 | the same for subscribers |
| UcBroker.BrokerSerial.Init | zenoh-arduino/src/BrokerSerial.cpp:43-50 | the uptime and latency publishers and the uptime subscriber are added, not connected, tables well formed |
| UcBroker.BrokerSerial.KeepAlive | zenoh-arduino/src/BrokerSerial.cpp:64-74 | sends the uptime when connected, a connect otherwise |
| UcBroker.BrokerSerial.ConnectReply | zenoh-arduino/src/BrokerSerial.cpp:75-91 | connected, and all subscribers then all publishers go out as frames, in table order |
| UcBroker.BrokerSerial.IncomingPublish | zenoh-arduino/src/broker.h:98-110 | a decodable publish sends the latency and notes the time; any other does nothing |
| UcBroker.LatencyIff | zenoh-arduino/src/BrokerSerial.cpp:93-98 | when an uptime below 2^31 comes back, exactly one publish goes out, under the latency id, and its value reads as the time since then exactly if that is between 0 and 2^31 |
| UcBroker.LatencyOnTheLine | zenoh-arduino/src/BrokerSerial.cpp:56-98 | the same of the frame on the line, whatever the filters' variables held |
| UcBroker.UptimeComesBack | zenoh-arduino/src/BrokerSerial.cpp:64-98 | a connected keep-alive reports the uptime, and when that value comes back under any id, the time since then |
| UcBroker.ConnectAnswered | zenoh-arduino/src/BrokerSerial.cpp:75-91 | the frame of a connect reply sends all subscribers then all publishers, id and key each, in table order |
| UcBroker.BrokerSerial.OnFrame | zenoh-arduino/src/BrokerSerial.cpp:56-98 | one frame through the filters: new state and bytes sent as the specification on values |
| UcBroker.BrokerSerial.ConnectTimer | zenoh-arduino/src/BrokerSerial.cpp:100-105 | no longer connected if the last loopback is more than 5 seconds old |
| UcBroker.FrameOfMessage | zenoh-arduino/src/BrokerSerial.cpp:10-98 | a frame that carries a message has exactly that message's effect, whatever the filters' variables held |
| UcBroker.DeclarationSize | zenoh-arduino/src/BrokerSerial.cpp:81-90 | both declarations of a resource take its id, its key with head, and three octets; keys of up to 90 octets always fit the 100-octet buffer |
| Link.ServeIsPipeline | src/proxy.cpp:98-141 | taking a message from the queue has the effect on tables and replies that the message's frame has in the proxy's filters and handlers, whatever their variables held, for exactly the messages whose text arrives whole |
| Link.KeyMapExact | zenoh-arduino/src/broker.h:82-83 | with unique ids, the map a table stands for holds exactly its resources |
| Link.Agreement | src/BrokerZenoh.cpp:59-113 | over every run, with loss both ways, refusals and disconnects: every entry of the proxy is the microcontroller's own (id, key), and so is every declaration on its way |
| Link.HalfwayNext | src/BrokerZenoh.cpp:59-113 | the invariant behind convergence: over each step, what is left of a burst stays in the queue in order, and the proxy knows the rest |
| Link.AllKnown | src/BrokerZenoh.cpp:76-113 | a proxy that knows every declaration of a reply, and nothing untrue, has the microcontroller's tables |
| Link.Convergence | zenoh-arduino/src/BrokerSerial.cpp:75-91 | once the declarations of one connect reply are consumed, none lost, no subscriber among them refused, and no disconnect once the first is consumed: the proxy's tables equal the microcontroller's, whatever else happens meanwhile |
| Link.StaysConverged | src/BrokerZenoh.cpp:76-113 | equal tables stay equal over every run without a disconnect |
| Link.HandshakeCompletes | zenoh-arduino/src/BrokerSerial.cpp:64-91 | from an empty line and true entries: keep-alive, answer, reply and declarations end connected, with an empty line and equal tables |
| Link.DeclarationsOverTheLine | src/proxy.cpp:91-127 | the bytes of the declarations, chunked in any way without a late chunk end inside a frame, leave the proxy with the microcontroller's tables |
| Link.StaysPrepared | zenoh-arduino/src/BrokerSerial.cpp:64-98 | the invariant behind declare before publish: own publishes in the queue come when their ids are known; uptime's id is known or coming while connected, latency's as soon as a sample can reach the microcontroller |
| Link.PreparedNext | zenoh-arduino/src/BrokerSerial.cpp:64-98 | the same invariant over each single step, case by case |
| Link.OrderedWithout | zenoh-arduino/src/BrokerSerial.cpp:64-98 | losing a message that declares neither own publisher leaves the queue ordered and the ids it will make known unchanged |
| Link.DeclareBeforePublish | src/BrokerZenoh.cpp:103-127 | from power-up, in every run without a disconnect and without loss of the two own declarations: an uptime or latency publish the proxy takes has its publisher, so ENOENT does not occur for it |
| Link.OwnPublishesWritten | src/proxy.cpp:129-134 | over the same runs, the frame of an uptime or latency publish makes the proxy write its value once, under the microcontroller's own key for that id |
| Link.UnreachableIff | src/BrokerZenoh.cpp:103-127 | from any state with true entries: some run without a disconnect and without loss of the two own declarations leads to ENOENT for an uptime or latency publish exactly when the state is not prepared |
| Link.DisorderShows | src/BrokerZenoh.cpp:115-127 | an own publish queued before its declaration meets ENOENT once the proxy has taken the messages before it |
| Link.DisconnectForgets | src/BrokerZenoh.cpp:59-127 | without its first condition it fails: from power-up through the whole handshake, one disconnect, and the next keep-alive meets ENOENT |
| Link.LossForgets | src/BrokerZenoh.cpp:103-127 | without its second condition it fails: from power-up, lose just uptime's declaration in the handshake, and a keep-alive and draining meet ENOENT |
| Link.ApplicationsMayBeEarly | zenoh-arduino/src/broker.h:35-48 | an application's publisher may be unknown to the proxy, as it does not wait for the handshake |
| Watchdog.StaysGrounded | zenoh-arduino/src/BrokerSerial.cpp:75-105 | the invariant behind the bounds: a connected microcontroller has had a reply or a loopback since the last tick, or that tick found the loopback time at most 5 seconds old, be it a received loopback's or still the power-up value |
| Watchdog.AnyPowerUpBound | zenoh-arduino/src/BrokerSerial.cpp:75-105 | with ticks at most 10 seconds apart, whatever the power-up value: connected only if a loopback was received in the last 15 seconds, or a connect reply in the last 10, or none was ever received and the power-up value passes for one of the last 15 seconds |
| Watchdog.WatchdogBound | zenoh-arduino/src/BrokerSerial.cpp:75-105 | with a power-up value not ahead of the clock: at every moment of every run, connected only if a loopback or a connect reply was received in the last 15 seconds |
| Watchdog.AlwaysBoundedIff | zenoh-arduino/src/BrokerSerial.cpp:93-105 | short of the clock's wrap, that bound holds over all runs exactly for power-up values not ahead of the clock |
| Watchdog.SilentLineStaysConnected | zenoh-arduino/src/BrokerSerial.cpp:64-105 | power-up value 10000, a reply at 0, nothing else received: at 25000 the keep-alive still publishes |
| Watchdog.SilenceReconnects | zenoh-arduino/src/BrokerSerial.cpp:64-105 | with a power-up value not ahead of the clock: after 15 seconds without a received loopback or reply the next keep-alive asks for a connection |
| Watchdog.BoundsReached | zenoh-arduino/src/BrokerSerial.cpp:75-105 | the 15 seconds are reached both by a loopback and by a reply with no loopback ever, so they cannot be lowered |
| Recovery.RecoversInTime | zenoh-arduino/src/BrokerSerial.cpp:64-105 | after a disconnect that heals, with punctual timers, a line that loses nothing and is done with one timer before the next, and a library that accepts: 18 seconds later, in every run and for good, the proxy's tables are the microcontroller's again |
| Recovery.RecoversIff | src/BrokerZenoh.cpp:59-113 | every such run ends with whole tables, from any given moment at least 18 seconds after the disconnect, exactly when at the disconnect the queue up held no subscriber declaration or all declarations, or the microcontroller was not connected, or a connect or its reply was on its way |
| Recovery.TornStalls | zenoh-arduino/src/broker.h:98-110 | after any other disconnect some such run goes on past every moment with a declaration missing |
| Recovery.HandshakeCanTear | zenoh-arduino/src/BrokerSerial.cpp:75-91 | such disconnects happen: with two subscribers, right after the proxy has taken the first declaration of the first handshake |
| Recovery.StaysRecovering | zenoh-arduino/src/BrokerSerial.cpp:64-105 | the phases of a recovery, with the time each may last, follow one another over every orderly run |

## Left out

- ZenohBroker.BrokerZenoh.Publish: the resource key is identified with the key it was made from, and the library's return
  code is a parameter.
- Ppp.PppDeframe: the result is left open where the removals act on too short a vector.
- CborStreams.CborSerializer.ToBytes: says nothing about a message that did not fit; the program's assertions stop
  there.
- CborStreams.CborDeserializer.Begin: arrays and maps of definite length, which the library would enter too, count as
  errors; no message is written that way.
- CborStreams.CborDeserializer.MemberText: says nothing after a read from the unset pointer, as the program's behaviour
  is then undefined; so do BrokerProtocol.Deserialize and the pipeline's methods.
- Link.Agreement: the microcontroller's resources are fixed after set-up; a reboot with other resources while the proxy
  keeps its tables would leave stale keys, because entries are inserted only if absent.
- Link.DeclareBeforePublish: speaks of the uptime and latency publishers only; application publishers do not wait.
- Watchdog.WatchdogBound: the clock does not pass 2^64 milliseconds during a run.
- Recovery.RecoversInTime: transmission times are not modelled beyond the assumption that the line is empty when a timer
  fires.
- What the library does when a fixed-size advance meets a string: it is taken to skip the whole element.
- What the library does when asked to enter something that is not an array: it is taken to fail, and all reads after it.
- Types the CBOR library knows and the messages never use (definite arrays, maps, tags, floats, strings in chunks,
  big numbers): reading one counts as an error.
- The memory a CBOR buffer keeps from earlier messages, allocation failure, and the library's internal pointers: buffers
  are values.
- `BytesToFrame` (zenoh-arduino/src/BrokerSerial.h): a second extractor, whose timeout shows the chunk instead of the
  pending bytes. The microcontroller is modelled from complete frames on.
- `BrokerZenoh::unSubscribe`: never called, and it gives a handle back without removing the entry.
- `BrokerZenoh::resource` and the resource keys: the library's business, as are sessions, scouting and queries.
- Closing the session: a disconnect leaves it open, so it stays open in the model.
- Routing by id on the microcontroller: its subscribers do not look at the id. Only the uptime subscriber that set-up
  creates has an effect here.
- The library's callbacks come as steps of their own; two threads inside the proxy at once are not modelled.
- The serial port, sockets, timers as devices, configuration, logging, the display, buttons and LEDs.
- The older tunnel in src-pico and src_client.
