# A model of two vendored libraries of the echo worker

The C++ worker talks AMQP 0-9-1 through rabbitmq-c and reads JSON through jsoncpp.
This project models the cores of both and proves what they are for.

**AMQP.** Octets and field tables (`Octets`, `FieldTable`, `TableCodec`), the code
generator and the coders it emits (`Bits`, `Generator`, `Framing`), frames and the
incremental parser (`Frames`, `FrameParser`), the frame queue and everything that waits on
it (`FrameQueue`, `Connection`, `Replies`), publishing and reassembly (`Messages`, `Publisher`,
`EndToEnd`, `Delivery`), the pools that hold all of it (`PoolAllocator`, `PoolSafety`), and
the merging of capability tables (`Merge`). The main results are:

- `EndToEnd.MessageArrives`: a published message comes back exactly, however it is mixed with
  other channels and heartbeats and however the stream is cut; `Delivery.PublishAndRead` says so of
  a sender and a connection object.
- `FrameParser.ChunkIndependence` with `FrameParser.InboundParser.HandleInput`: the parser
  object, fed in pieces, does what one pass over the whole stream does.
- `Generator.GeneratedCodecRoundTrip`: every decoder that codegen.py emits inverts the
  encoder it emits.
- `FieldTable.TableSurvivesExactlyWhenRepresentable`, with the back-patching encoder and the
  decoding loops of `TableCodec` proved equal to a pure grammar.
- `Connection.Connection.SimpleRpc`, `Connection.Connection.WaitOnChannel` and
  `Connection.WaitConservesExactly`: which frames come out, which are queued, which are lost.
- `PoolSafety.Memory.Run`: in no run is memory recycled under a queued or half-read frame.
- `Merge.MergedAgain`: when merging twice is merging once.

**JSON.** Values and their order (`JsonValue`), arrays as maps (`JsonArray`), integers and
strings in text (`JsonInteger`, `JsonString`), what it means that a document spells a value
(`JsonText`), what members in any order make up (`JsonMembers`), the lexer and parser
(`JsonLexer`, `JsonSpelling`, `JsonReader`), two writers (`JsonWriter`, `JsonLayout`,
`JsonStyled`), and what may stand between members (`JsonSeparators`). The main results are:

- `JsonRoundTrip.FastRoundTrip` and `JsonRoundTrip.LayoutDoesNotMatter`: reading inverts
  writing, and layout does not change meaning, for every setting of the reader.
- `JsonSeparators.ReadAnyMembers`: what members in any order are read as.
- `JsonStyled.BuiltStyledStreamWriter.Write`: where every line of indented text begins.
- `JsonSeparators.ReadWithoutCommas`: what else than a comma may stand between members.
- `JsonReader.OurReader.ReadValue` and `JsonReader.OurReader.Parse`: termination, stack
  balance, the nesting limit and the error list, on every input.
- `JsonString.QuotedIsDecoded`: exactly which strings survive escaping.
- `JsonInteger.DecodeNumber`: exactly which tokens are integers.
- `JsonValue.CompareIsAnOrder`: the order of nested values.

**Command lines.** `CommandLine` is `make_command_line` of the Windows tools, with the exact
bound on its buffer and its inverse.

Where the source changes things in place, so does the model: buffers are arrays, the parser,
the queue, the connection, the pools, the lexer, the reader and the writers are classes, and
their methods are proved against pure functions about which the lemmas speak. What the
network does is a parameter: the pieces it delivers, the amounts it accepts, and the status
that ends it. Time only appears as such a status. Memory allocation succeeds.

Some methods of the reader take ghost parameters: a value that the text spells and the tokens
behind it. As they are arbitrary, such a contract speaks about every value and every text.

In styled text the opening mark of a container that is a member's value stands on a line of its
own, so more than names, elements and closing marks begins a line (`JsonLayout.ObjectOnLines`).

Where the code and its documentation differ, the model follows the code:

- Merging promises that an added table is merged in; but two tables that are both empty make
  the merge fail with "no memory", because the pool gives nothing for no octets
  (`Merge.MergedIsJoined`, `Merge.MergingAnEmptyTableFails`).
- Waiting for a frame on one channel drops queued frames of other channels in front of the
  match (`Connection.WaitConservesExactly`, `Connection.LosesEarlierFrame`).
- `amqp_try_recv` queues heartbeats, which no message reader takes: `ConsumeMessage` puts such a
  frame back each time, so it stays first.
- The eighth octet of a frame that is the very first thing received is read as zero
  (`FrameParser.FirstFrameExactly`, `FrameParser.FirstHeartbeatIsRefused`).
- jsoncpp reads a lone minus sign as zero (`JsonInteger.LoneMinusIsZero`) and accepts an unclosed
  C comment at the end of a document that ends in a slash (`JsonLexer.AcceptsUnclosedComment`).
- Behind a comment that follows a member, jsoncpp takes any token but the closing brace for the
  comma (`JsonReader.OurReader.ReadMemberSeparator`, `JsonSeparators.AcceptsNoComma`).

`dafny verify dfyconfig.toml` checks everything.

## Model
| member | source | states |
|---|---|---|
| Octets.NaturalOfBigEndian | echo-worker-cpp/tpl/rabbitmq-c/librabbitmq/amqp_private.h:183-290 | big-endian decoding gives back every value that fits the width |
| Octets.BigEndianOfNatural | echo-worker-cpp/tpl/rabbitmq-c/librabbitmq/amqp_private.h:183-290 | and encoding gives back every run of octets |
| Octets.EncodeInteger | echo-worker-cpp/tpl/rabbitmq-c/librabbitmq/amqp_private.h:183-194 | writes exactly its octets inside the window, the most significant first, or nothing when they do not fit; the offset moves either way |
| Octets.BigEndianOctet | echo-worker-cpp/tpl/rabbitmq-c/librabbitmq/amqp_private.h:223-290 | the octet of weight 256 to the k stands k places in front of the last |
| Octets.NaturalConcat | echo-worker-cpp/tpl/rabbitmq-c/librabbitmq/amqp_private.h:223-290 | an octet in front weighs 256 to the number of octets behind it |
| Octets.EncodeBytes | echo-worker-cpp/tpl/rabbitmq-c/librabbitmq/amqp_private.h:292-307 | the same for a run of octets; an empty run always succeeds |
| FieldTable.ValueRoundTrip | echo-worker-cpp/tpl/rabbitmq-c/librabbitmq/amqp_table.c:173-266 | a field value of any nesting, serialised anywhere in a buffer, is decoded to itself, up to exactly its end |
| FieldTable.TableRoundTrip | echo-worker-cpp/tpl/rabbitmq-c/librabbitmq/amqp_table.c:93-171 | the same for tables: identical entries in order, and the offset behind the table |
| FieldTable.DecodedTableRepresentable | echo-worker-cpp/tpl/rabbitmq-c/librabbitmq/amqp_table.c:93-171 | whatever the octets, a decoded table has keys of at most 255 octets, numbers within their types and known kinds only |
| FieldTable.TableSurvivesExactlyWhenRepresentable | echo-worker-cpp/tpl/rabbitmq-c/librabbitmq/amqp_table.c:295-328 | writing and reading gives a table back if and only if its keys have at most 255 octets, its numbers fit and its kinds are known |
| FieldTable.NumbersOnTheWire | echo-worker-cpp/tpl/rabbitmq-c/librabbitmq/amqp_table.c:330-420 | the letter and the octets of a number of each kind, two's complement if it is signed |
| FieldTable.NumbersReceived | echo-worker-cpp/tpl/rabbitmq-c/librabbitmq/amqp_table.c:173-266 | what received octets stand for: the signed kinds wrap around, the others do not |
| FieldTable.OthersOnTheWire | echo-worker-cpp/tpl/rabbitmq-c/librabbitmq/amqp_table.c:330-420 | the letter, the length and the octets of a value of any other kind |
| TableCodec.ValueFits | echo-worker-cpp/tpl/rabbitmq-c/librabbitmq/amqp_table.c:330-420 | encoding a value succeeds if and only if its serialised form fits and its kinds are known |
| TableCodec.TableFits | echo-worker-cpp/tpl/rabbitmq-c/librabbitmq/amqp_table.c:295-328 | encoding a table succeeds if and only if the serialised table fits and all kinds are known |
| TableCodec.EncodeValue | echo-worker-cpp/tpl/rabbitmq-c/librabbitmq/amqp_table.c:330-420 | the encoder that leaves holes and fills them in afterwards writes the pure serialised form, and nothing outside its window |
| TableCodec.EncodePayload | echo-worker-cpp/tpl/rabbitmq-c/librabbitmq/amqp_table.c:330-420 | the same for what follows the kind octet |
| TableCodec.EncodeArray | echo-worker-cpp/tpl/rabbitmq-c/librabbitmq/amqp_table.c:270-293 | the same for arrays, length filled in last |
| TableCodec.EncodeTable | echo-worker-cpp/tpl/rabbitmq-c/librabbitmq/amqp_table.c:295-328 | the same for tables, length filled in last |
| TableCodec.EncodeTableBody | echo-worker-cpp/tpl/rabbitmq-c/librabbitmq/amqp_table.c:295-328 | the loop over the entries writes their serialised forms one behind the other |
| TableCodec.FillHole | echo-worker-cpp/tpl/rabbitmq-c/librabbitmq/amqp_table.c:295-328 | filling the hole turns hole and body into the length-prefixed form |
| TableCodec.ReadValue | echo-worker-cpp/tpl/rabbitmq-c/librabbitmq/amqp_table.c:173-266 | the decoder returns what the grammar of field values says, on every input |
| TableCodec.ReadArray | echo-worker-cpp/tpl/rabbitmq-c/librabbitmq/amqp_table.c:27-91 | the decoding loop of an array returns what the grammar says and terminates on every input |
| TableCodec.ReadTable | echo-worker-cpp/tpl/rabbitmq-c/librabbitmq/amqp_table.c:93-171 | the decoding loop of a table returns what the grammar says, one value running past the table's limit included, and terminates on every input |
| TableCodec.CloneValue | echo-worker-cpp/tpl/rabbitmq-c/librabbitmq/amqp_table.c:444-549 | a clone equals its original and is refused exactly for empty keys or unknown kinds at some depth |
| TableCodec.CloneTable | echo-worker-cpp/tpl/rabbitmq-c/librabbitmq/amqp_table.c:568-597 | the same for whole tables |
| Generator.BitEncoder.Flush | echo-worker-cpp/tpl/rabbitmq-c/librabbitmq/codegen.py:58-62 | pending bits are written exactly once |
| Generator.BitEncoder.Emit | echo-worker-cpp/tpl/rabbitmq-c/librabbitmq/codegen.py:64-66 | what is emitted for a field that is not a bit follows the pending bits |
| Generator.BitEncoder.EncodeBit | echo-worker-cpp/tpl/rabbitmq-c/librabbitmq/codegen.py:68-78 | the bit is or-ed in at its place; the eighth completes the octet |
| Generator.BitDecoder.Emit | echo-worker-cpp/tpl/rabbitmq-c/librabbitmq/codegen.py:33-35 | any other field ends a group of bits |
| Generator.BitDecoder.DecodeBit | echo-worker-cpp/tpl/rabbitmq-c/librabbitmq/codegen.py:37-47 | an octet is fetched for the first of up to eight bits |
| Bits.BitHasWeight | echo-worker-cpp/tpl/rabbitmq-c/librabbitmq/codegen.py:25-172 | bit k has the weight two to the k |
| Generator.GenerateEncoder | echo-worker-cpp/tpl/rabbitmq-c/librabbitmq/codegen.py:285-296 | the generating loop emits the statements that the recursive description lists |
| Generator.GenerateDecoder | echo-worker-cpp/tpl/rabbitmq-c/librabbitmq/codegen.py:254-266 | the same for decoders |
| Generator.GeneratedEncoderCorrect | echo-worker-cpp/tpl/rabbitmq-c/librabbitmq/codegen.py:285-296 | for every list of field types the emitted encoder writes the layout of section 4.2.5.2 of AMQP 0-9-1, bits packed eight to an octet, and succeeds if and only if it fits |
| Generator.LayoutIsDecoded | echo-worker-cpp/tpl/rabbitmq-c/librabbitmq/codegen.py:254-266 | the emitted decoder reads every argument back from that layout |
| Generator.GeneratedCodecRoundTrip | echo-worker-cpp/tpl/rabbitmq-c/librabbitmq/codegen.py:25-172 | the emitted decoder inverts the emitted encoder, for any number of bits in a row and bits split by other fields |
| Generator.ArgumentRoundTrip | echo-worker-cpp/tpl/rabbitmq-c/librabbitmq/codegen.py:81-172 | each field type but the bit is decoded from its own encoding |
| Framing.NumberPropertyFlags | echo-worker-cpp/tpl/rabbitmq-c/librabbitmq/codegen.py:659-667 | the numbering loop gives the i-th property the bit that skips every continuation bit |
| Framing.PropertyFlagsAreDistinct | echo-worker-cpp/tpl/rabbitmq-c/librabbitmq/codegen.py:659-667 | no two properties share a flag, and none is a continuation bit |
| Framing.FlagsRoundTrip | echo-worker-cpp/tpl/rabbitmq-c/librabbitmq/amqp_framing.c:2323-2345 | flag words written by the loop are read back, whatever follows them |
| Framing.FlagsCarryPresence | echo-worker-cpp/tpl/rabbitmq-c/librabbitmq/amqp_framing.c:1411-1424 | the flag-word loops preserve every presence set |
| Framing.FlagsUnchangedExactly | echo-worker-cpp/tpl/rabbitmq-c/librabbitmq/amqp_framing.c:2323-2345 | the whole flag number is unchanged if and only if its continuation bits are what the writer puts there |
| Framing.FlagsOnTheWire | echo-worker-cpp/tpl/rabbitmq-c/librabbitmq/amqp_framing.c:2323-2345 | the octets of one flag word, and of a word that says that another follows |
| Framing.PresentIs | echo-worker-cpp/tpl/rabbitmq-c/librabbitmq/codegen.py:659-667 | the first property has the highest bit of its word, and so on down |
| Framing.EncodeFlags | echo-worker-cpp/tpl/rabbitmq-c/librabbitmq/amqp_framing.c:2323-2345 | the do-while loop writes the flag words and nothing else |
| Framing.EncodeProperties | echo-worker-cpp/tpl/rabbitmq-c/librabbitmq/amqp_framing.c:2323-2345 | succeeds if and only if the class is known, every present property can be encoded and all fit; then writes exactly flags and present properties |
| Framing.EncodePresent | echo-worker-cpp/tpl/rabbitmq-c/librabbitmq/codegen.py:298-310 | exactly the present properties are written, in order |
| Framing.EncodeField | echo-worker-cpp/tpl/rabbitmq-c/librabbitmq/codegen.py:81-172 | one field is written exactly, with the status of its encoder |
| Framing.PropertiesRoundTrip | echo-worker-cpp/tpl/rabbitmq-c/librabbitmq/amqp_framing.c:1411-1424 | decoded properties have the same presence and the same values, whatever follows them |
| Framing.EncodeMethod | echo-worker-cpp/tpl/rabbitmq-c/librabbitmq/amqp_framing.c:1614-1620 | running the emitted statements on the buffer writes exactly the layout; an unknown method is refused |
| Framing.ExecuteStatement | echo-worker-cpp/tpl/rabbitmq-c/librabbitmq/codegen.py:50-78 | one emitted statement changes offset, bit buffer and buffer as the model says |
| Framing.MethodRoundTrip | echo-worker-cpp/tpl/rabbitmq-c/librabbitmq/amqp_framing.c:256-262 | decoding an encoded method gives its arguments back |
| Frames.FrameToBytes | echo-worker-cpp/tpl/rabbitmq-c/librabbitmq/amqp_connection.c:432-506 | succeeds if and only if the frame can be encoded and fits; then the buffer starts with exactly the wire form, size and end octet included |
| Frames.PayloadToBytes | echo-worker-cpp/tpl/rabbitmq-c/librabbitmq/amqp_connection.c:440-497 | the payload is written behind the header for each frame type; a protocol header is refused |
| Frames.MethodToBytes | echo-worker-cpp/tpl/rabbitmq-c/librabbitmq/amqp_connection.c:449-466 | method id and arguments |
| Frames.ContentHeaderToBytes | echo-worker-cpp/tpl/rabbitmq-c/librabbitmq/amqp_connection.c:468-489 | class, weight, body size and properties |
| Frames.EnvelopeParts | echo-worker-cpp/tpl/rabbitmq-c/librabbitmq/amqp_connection.c:432-506 | type, channel, size, payload and end octet are found again in the wire form |
| Frames.EnvelopeOctets | echo-worker-cpp/tpl/rabbitmq-c/librabbitmq/amqp_connection.c:432-506 | type, channel and size in front of the payload and the end octet behind it, octet by octet |
| Frames.WireOctets | echo-worker-cpp/tpl/rabbitmq-c/librabbitmq/amqp_connection.c:432-506 | the octets of each kind of frame: its type, the method id, or the class, the weight and the body size |
| Frames.FrameRoundTrip | echo-worker-cpp/tpl/rabbitmq-c/librabbitmq/amqp_connection.c:301-378 | a frame that was written is received as the same frame |
| FrameParser.FeedConcat | echo-worker-cpp/tpl/rabbitmq-c/librabbitmq/amqp_connection.c:205-381 | cutting the stream anywhere changes neither the frames nor the final state nor the first error |
| FrameParser.ChunkIndependence | echo-worker-cpp/tpl/rabbitmq-c/librabbitmq/amqp_connection.c:205-381 | so does cutting it into any number of pieces |
| FrameParser.TargetSizeIs | echo-worker-cpp/tpl/rabbitmq-c/librabbitmq/amqp_connection.c:263-276 | the size is the big-endian number in octets 3 to 6; what reaches 2^31 - 1 or exceeds the tuned size is refused |
| FrameParser.ProtocolHeaderIsRead | echo-worker-cpp/tpl/rabbitmq-c/librabbitmq/amqp_connection.c:226-249 | the first octets are a protocol header if and only if they start with AMQP, and then its four numbers are returned |
| FrameParser.FeedEndsValid | echo-worker-cpp/tpl/rabbitmq-c/librabbitmq/amqp_connection.c:205-381 | between calls what is held is never a whole frame |
| FrameParser.FirstFrameExactly | echo-worker-cpp/tpl/rabbitmq-c/librabbitmq/amqp_connection.c:252-292 | before the first frame only seven octets are copied: if that frame is incomplete or would be accepted between frames, the stream is read as sent if and only if its eighth octet is zero or lies in the payload of a heartbeat; sizes are refused alike |
| FrameParser.FirstHeartbeatIsRefused | echo-worker-cpp/tpl/rabbitmq-c/librabbitmq/amqp_connection.c:277-292 | the concrete failing input: a heartbeat, fine between frames, is bad data as the first frame |
| FrameParser.InboundParser.ReturnToIdle | echo-worker-cpp/tpl/rabbitmq-c/librabbitmq/amqp_connection.c:180-186 | the parser stands at a frame boundary |
| FrameParser.InboundParser.ConsumeData | echo-worker-cpp/tpl/rabbitmq-c/librabbitmq/amqp_connection.c:188-203 | takes as much as is there and fits, and at least one octet when there is any |
| FrameParser.InboundParser.HandleInput | echo-worker-cpp/tpl/rabbitmq-c/librabbitmq/amqp_connection.c:205-381 | one call consumes at least one octet of non-empty data and means for the stream what feeding the consumed octets means; afterwards less than the target is held |
| FrameParser.InboundParser.ReadHeader | echo-worker-cpp/tpl/rabbitmq-c/librabbitmq/amqp_connection.c:252-299 | the header case: size limits, own memory for the frame, then the body |
| FrameParser.InboundParser.ReadBody | echo-worker-cpp/tpl/rabbitmq-c/librabbitmq/amqp_connection.c:301-378 | the body case: waits, or decodes the whole frame and goes back to idle |
| FrameQueue.Queue.Append | echo-worker-cpp/tpl/rabbitmq-c/librabbitmq/amqp_socket.c:830-846 | the frame comes last; links and both ends stay consistent |
| FrameQueue.Queue.PutBack | echo-worker-cpp/tpl/rabbitmq-c/librabbitmq/amqp_socket.c:848-864 | the frame comes first |
| FrameQueue.Queue.PopFront | echo-worker-cpp/tpl/rabbitmq-c/librabbitmq/amqp_socket.c:920-928 | the first frame is taken off |
| FrameQueue.Queue.TakeOnChannel | echo-worker-cpp/tpl/rabbitmq-c/librabbitmq/amqp_socket.c:866-885 | the first frame of the channel is returned, and the frames in front of it leave the queue as well |
| FrameQueue.TakingConservesExactly | echo-worker-cpp/tpl/rabbitmq-c/librabbitmq/amqp_socket.c:873-885 | no other frame is lost if and only if the match is the head of the queue |
| Messages.GeneratedBasicPublish | echo-worker-cpp/tpl/rabbitmq-c/librabbitmq/amqp_framing.c:1103-1122 | the generated coder of basic.publish is the one in amqp_framing.c |
| Messages.BodyFramesSendable | echo-worker-cpp/tpl/rabbitmq-c/librabbitmq/amqp_api.c:223-244 | every fragment fits the outbound buffer and survives the wire |
| Messages.BodyReassembled | echo-worker-cpp/tpl/rabbitmq-c/librabbitmq/amqp_consumer.c:245-275 | fragments appended in order give the body back |
| Messages.MethodEndsBody | echo-worker-cpp/tpl/rabbitmq-c/librabbitmq/amqp_consumer.c:240-266 | a method in the middle of a body ends it: a close of the channel or connection is reported, any other is bad data |
| Messages.WireFramesScanned | echo-worker-cpp/tpl/rabbitmq-c/librabbitmq/amqp_connection.c:205-381 | frames written one behind the other are parsed one after the other |
| Messages.ContentAssembled | echo-worker-cpp/tpl/rabbitmq-c/librabbitmq/amqp_consumer.c:170-282 | frames that are the same as those sent are put together into the same body and the same present properties |
| Publisher.Sender.SendFrame | echo-worker-cpp/tpl/rabbitmq-c/librabbitmq/amqp_connection.c:513-564 | on success exactly the frame's octets went out; on failure a prefix of them did |
| Publisher.Sender.Resend | echo-worker-cpp/tpl/rabbitmq-c/librabbitmq/amqp_connection.c:530-560 | however often the network takes only a part, every octet is sent once and in order; and how sending ends |
| Publisher.Sender.BasicPublish | echo-worker-cpp/tpl/rabbitmq-c/librabbitmq/amqp_api.c:158-247 | on success basic.publish went out, octet by octet with the caller's exchange, routing key and flags, then the content header and the fragments of exactly the body |
| Publisher.PublishOctets | echo-worker-cpp/tpl/rabbitmq-c/librabbitmq/amqp_framing.c:2138-2156 | the octets of basic.publish: ticket, exchange, routing key, and a bit for each flag |
| Publisher.PublishIsDecoded | echo-worker-cpp/tpl/rabbitmq-c/librabbitmq/amqp_framing.c:1103-1126 | the parser decodes those octets into a method with exactly the caller's exchange, routing key and flags |
| Publisher.PublishedIsContent | echo-worker-cpp/tpl/rabbitmq-c/librabbitmq/amqp_api.c:203-244 | these octets are the wire form of the message's frames |
| Connection.Connection.ConsumeOneFrame | echo-worker-cpp/tpl/rabbitmq-c/librabbitmq/amqp_socket.c:630-647 | takes the next frame, if any, off the front of what the received octets stand for |
| Connection.Connection.Receive | echo-worker-cpp/tpl/rabbitmq-c/librabbitmq/amqp_socket.c:649-688 | receiving changes nothing about what is still to come |
| Connection.Connection.WaitFrame | echo-worker-cpp/tpl/rabbitmq-c/librabbitmq/amqp_socket.c:740-803 | returns the next frame of the stream that is not a heartbeat, and fails only when none is left, with the parser's or the network's status |
| Connection.Connection.WaitNoBlock | echo-worker-cpp/tpl/rabbitmq-c/librabbitmq/amqp_socket.c:911-932 | delivers the queue first and then the stream, frame by frame |
| Connection.Connection.WaitOnChannel | echo-worker-cpp/tpl/rabbitmq-c/librabbitmq/amqp_socket.c:866-904 | the exact frame, queue and stream afterwards, frames dropped in front of a queued match included; always the next frame of the channel |
| Connection.Connection.WaitInStream | echo-worker-cpp/tpl/rabbitmq-c/librabbitmq/amqp_socket.c:887-903 | all frames of other channels read on the way are queued in order |
| Connection.WaitConservesExactly | echo-worker-cpp/tpl/rabbitmq-c/librabbitmq/amqp_socket.c:866-904 | no other frame is lost by waiting on a channel if and only if the match is the head of the queue or not queued at all |
| Connection.LosesEarlierFrame | echo-worker-cpp/tpl/rabbitmq-c/librabbitmq/amqp_socket.c:873-885 | the failing run: two frames are queued, the channel of the second is waited for, and the first is neither returned nor ever delivered |
| Connection.LosesBody | echo-worker-cpp/tpl/rabbitmq-c/librabbitmq/amqp_socket.c:873-885 | such a run on a concrete connection |
| Connection.Connection.SimpleRpc | echo-worker-cpp/tpl/rabbitmq-c/librabbitmq/amqp_socket.c:1011-1091 | returns the first incoming frame that is an expected method or channel.close on the channel, or connection.close on channel 0, and fails only if none is; what is deliverable afterwards is the old queue and the stream without exactly that frame; the socket is closed if and only if the time ran out |
| Connection.Connection.WaitForReply | echo-worker-cpp/tpl/rabbitmq-c/librabbitmq/amqp_socket.c:1028-1078 | earlier frames are queued in order |
| Connection.Connection.TryRecv | echo-worker-cpp/tpl/rabbitmq-c/librabbitmq/amqp_socket.c:690-738 | queues everything received, heartbeats included, without losing or reordering a frame |
| Connection.Connection.Enqueue | echo-worker-cpp/tpl/rabbitmq-c/librabbitmq/amqp_socket.c:830-846 | only the queue changes |
| Connection.Connection.PutBack | echo-worker-cpp/tpl/rabbitmq-c/librabbitmq/amqp_socket.c:848-864 | the frame is the next to be delivered |
| Connection.Connection.ReadMessage | echo-worker-cpp/tpl/rabbitmq-c/librabbitmq/amqp_consumer.c:170-282 | the reply is determined by the frames of the channel; what a message does not need stays for the next reader, and a frame that cannot start one is put back |
| Connection.Connection.ReadBody | echo-worker-cpp/tpl/rabbitmq-c/librabbitmq/amqp_consumer.c:245-275 | the body buffer is filled fragment by fragment, and overfull bodies are refused |
| Connection.Connection.ConsumeMessage | echo-worker-cpp/tpl/rabbitmq-c/librabbitmq/amqp_consumer.c:110-168 | a delivery is read with its message; any other frame is put back, and nothing at all has changed |
| Connection.CloneProperties | echo-worker-cpp/tpl/rabbitmq-c/librabbitmq/amqp_consumer.c:10-89 | cloned properties equal the original and are refused exactly for headers that cannot be cloned |
| Connection.MessageLeavesTheRest | echo-worker-cpp/tpl/rabbitmq-c/librabbitmq/amqp_consumer.c:170-282 | messages in a row are read one after the other |
| EndToEnd.ContentThenLater | echo-worker-cpp/tpl/rabbitmq-c/librabbitmq/amqp_consumer.c:170-282 | the first of several messages is put together, and the frames behind it are left |
| EndToEnd.MessageArrives | echo-worker-cpp/tpl/rabbitmq-c/librabbitmq/amqp_api.c:158-247 | any body and any properties that fit, published, mixed with other channels and heartbeats, cut into any chunks, parsed and reassembled, come back as exactly that body and the same present properties |
| Delivery.ReadPublished | echo-worker-cpp/tpl/rabbitmq-c/librabbitmq/amqp_consumer.c:170-282 | a connection object to which the network delivers a message among other frames reads exactly that body and the same present properties, and leaves what follows |
| Delivery.PublishAndRead | echo-worker-cpp/tpl/rabbitmq-c/librabbitmq/amqp_api.c:158-247 | what a sender object published, however its socket took it and however the network cuts it, is what a connection object reads: the same body and the same present properties |
| Delivery.EveryCut | echo-worker-cpp/tpl/rabbitmq-c/librabbitmq/amqp_socket.c:630-647 | every way of cutting a stream into pieces is one of those the network is given |
| Delivery.EveryBodyArrives | echo-worker-cpp/tpl/rabbitmq-c/librabbitmq/amqp_api.c:158-247 | every body published without properties fits the outbound buffer, and comes back however the stream is cut, if the sender's frames are no larger than the receiver's |
| Replies.OnlyFrame | echo-worker-cpp/tpl/rabbitmq-c/librabbitmq/amqp_connection.c:252-292 | a method with a small class is read as sent even as the very first frame |
| Replies.AnsweredByClose | echo-worker-cpp/tpl/rabbitmq-c/librabbitmq/amqp_socket.c:1045-1089 | a request whose only answer closes the channel or the connection ends with that frame as an exception |
| Replies.ChannelCloseIsException | echo-worker-cpp/tpl/rabbitmq-c/librabbitmq/amqp_socket.c:1045-1089 | such a run with channel.close on the channel of the request |
| Replies.ConnectionCloseIsException | echo-worker-cpp/tpl/rabbitmq-c/librabbitmq/amqp_socket.c:1045-1089 | such a run with connection.close on channel 0 |
| PoolAllocator.RoundedCoversExactly | echo-worker-cpp/tpl/rabbitmq-c/librabbitmq/amqp_mem.c:86 | a block is a multiple of 8 octets, and as large as asked if and only if the rounding does not wrap around |
| PoolAllocator.Pool.constructor | echo-worker-cpp/tpl/rabbitmq-c/librabbitmq/amqp_mem.c:20-32 | an empty pool, 4096 octets a page unless told otherwise |
| PoolAllocator.Pool.Recycle | echo-worker-cpp/tpl/rabbitmq-c/librabbitmq/amqp_mem.c:47-52 | pages are kept, large blocks are not, and allocation starts anew |
| PoolAllocator.Pool.Alloc | echo-worker-cpp/tpl/rabbitmq-c/librabbitmq/amqp_mem.c:81-127 | the block is 8-aligned inside one page or large block, where the position model says, and disjoint from every block handed out since the last recycle |
| PoolAllocator.Pool.AllocLarge | echo-worker-cpp/tpl/rabbitmq-c/librabbitmq/amqp_mem.c:88-98 | a block of its own for what no page can hold |
| PoolAllocator.Pool.AllocHere | echo-worker-cpp/tpl/rabbitmq-c/librabbitmq/amqp_mem.c:100-108 | the next octets of the current page |
| PoolAllocator.Pool.AllocPage | echo-worker-cpp/tpl/rabbitmq-c/librabbitmq/amqp_mem.c:110-126 | the start of the next page, a recycled one if there is one |
| PoolAllocator.ReplayAfterRecycle | echo-worker-cpp/tpl/rabbitmq-c/librabbitmq/amqp_mem.c:47-127 | the same requests after a recycle land in the same places and create no page |
| PoolAllocator.PoolTable.Get | echo-worker-cpp/tpl/rabbitmq-c/librabbitmq/amqp_mem.c:188-202 | the 16 chains are a map from channel to pool |
| PoolAllocator.PoolTable.GetOrCreate | echo-worker-cpp/tpl/rabbitmq-c/librabbitmq/amqp_mem.c:161-186 | only a missing channel gets a new, empty pool; all others keep theirs |
| PoolSafety.Pools.Allocate | echo-worker-cpp/tpl/rabbitmq-c/librabbitmq/amqp_mem.c:81-186 | only the channel's own pool hands out a block, and no other changes |
| PoolSafety.Pools.Recycle | echo-worker-cpp/tpl/rabbitmq-c/librabbitmq/amqp_mem.c:47-52 | only the channel's own pool is recycled |
| PoolSafety.SafeWithout | echo-worker-cpp/tpl/rabbitmq-c/librabbitmq/amqp_connection.c:406-430 | recycling a channel with no queued frame in the idle state leaves every live frame live |
| PoolSafety.Memory.BodyBegins | echo-worker-cpp/tpl/rabbitmq-c/librabbitmq/amqp_connection.c:277-289 | the half-read frame is in its own channel's pool |
| PoolSafety.Memory.BodyEnds | echo-worker-cpp/tpl/rabbitmq-c/librabbitmq/amqp_connection.c:301-378 | so is the frame and all that decoding allocates, one block for each request that is not empty |
| PoolSafety.Memory.CreateLink | echo-worker-cpp/tpl/rabbitmq-c/librabbitmq/amqp_socket.c:805-828 | link and copy are in the frame's own channel's pool |
| PoolSafety.Memory.QueueFrame | echo-worker-cpp/tpl/rabbitmq-c/librabbitmq/amqp_socket.c:830-846 | a queued frame stays live |
| PoolSafety.Memory.PutBackFrame | echo-worker-cpp/tpl/rabbitmq-c/librabbitmq/amqp_socket.c:848-864 | and so does one put back |
| PoolSafety.Memory.TakeFrame | echo-worker-cpp/tpl/rabbitmq-c/librabbitmq/amqp_socket.c:873-885 | taking frames off harms no other |
| PoolSafety.Memory.ReleaseOnChannel | echo-worker-cpp/tpl/rabbitmq-c/librabbitmq/amqp_connection.c:406-430 | the pool is recycled if and only if the parser is idle and no frame of the channel is queued |
| PoolSafety.Memory.ReleaseAll | echo-worker-cpp/tpl/rabbitmq-c/librabbitmq/amqp_connection.c:387-398 | exactly the channels without a queued frame are recycled |
| PoolSafety.Memory.ReleaseBucket | echo-worker-cpp/tpl/rabbitmq-c/librabbitmq/amqp_connection.c:391-397 | exactly the channels of one bucket are tried |
| PoolSafety.Memory.Settle | echo-worker-cpp/tpl/rabbitmq-c/librabbitmq/amqp_socket.c:690-732 | a frame just read or taken is still good when the same call returns, queues or puts it back |
| PoolSafety.Memory.Perform | echo-worker-cpp/tpl/rabbitmq-c/librabbitmq/amqp_connection.c:383-430 | every step of the library keeps the invariant, no frame that is read or taken is dropped on the way to the queue, and releasing recycles exactly the channels it should |
| PoolSafety.Memory.Run | echo-worker-cpp/tpl/rabbitmq-c/librabbitmq/amqp_connection.c:383-430 | in every run the link, the copy and the payload of each queued frame, and a half-read frame, are in memory of their own channel's pool handed out since its last recycle |
| Merge.GetEntryByKey | echo-worker-cpp/tpl/rabbitmq-c/librabbitmq/amqp_table.c:626-636 | the first entry with the key |
| Merge.MergeCapabilities | echo-worker-cpp/tpl/rabbitmq-c/librabbitmq/amqp_socket.c:1147-1201 | the array that is filled in place ends as the merge says, errors included |
| Merge.MergeEntry | echo-worker-cpp/tpl/rabbitmq-c/librabbitmq/amqp_socket.c:1171-1194 | one entry is merged in |
| Merge.MergedIsJoined | echo-worker-cpp/tpl/rabbitmq-c/librabbitmq/amqp_socket.c:1147-1201 | on clonable tables without a key twice, merging is joining, and fails exactly when two tables to be merged are both empty |
| Merge.JoinedLookup | echo-worker-cpp/tpl/rabbitmq-c/librabbitmq/amqp_socket.c:1142-1146 | added values win, tables are joined, keys of the base keep their places and new keys come behind |
| Merge.MergedWithItself | echo-worker-cpp/tpl/rabbitmq-c/librabbitmq/amqp_socket.c:1147-1201 | a table merged with itself is unchanged if and only if no table in it is empty |
| Merge.MergedAgain | echo-worker-cpp/tpl/rabbitmq-c/librabbitmq/amqp_socket.c:1147-1201 | merging the same table in again changes nothing if and only if no table taken over unmerged is or holds an empty one |
| Merge.MergingAnEmptyTableFails | echo-worker-cpp/tpl/rabbitmq-c/librabbitmq/amqp_socket.c:1160-1168 | a witness: one entry holding an empty table |
| CommandLine.ComputeLength | echo-worker-cpp/tpl/rabbitmq-c/tools/win32/process.c:36-51 | the worst case over all arguments |
| CommandLine.LineLength | echo-worker-cpp/tpl/rabbitmq-c/tools/win32/process.c:36-51 | the line with its final zero never outgrows that length, and fills it if and only if every character is a quote or a backslash |
| CommandLine.PutCharacter | echo-worker-cpp/tpl/rabbitmq-c/tools/win32/process.c:72-97 | one character of an argument |
| CommandLine.PutArgument | echo-worker-cpp/tpl/rabbitmq-c/tools/win32/process.c:64-101 | one argument is written within the buffer |
| CommandLine.MakeCommandLine | echo-worker-cpp/tpl/rabbitmq-c/tools/win32/process.c:30-111 | the buffer has the computed length and starts with exactly the line |
| CommandLine.LineIsParsedBack | echo-worker-cpp/tpl/rabbitmq-c/tools/win32/process.c:58-62 | taking the line apart by the stated rules gives back every list of arguments |
| JsonValue.EqualIsIdentity | echo-worker-cpp/tpl/jsoncpp/src/lib_json/json_value.cpp:546-586 | two values are equal if and only if they are the same and free of NaN |
| JsonValue.LessIsTotal | echo-worker-cpp/tpl/jsoncpp/src/lib_json/json_value.cpp:490-536 | of two NaN-free values at most one is less, and neither exactly when they are the same |
| JsonValue.LessIsTransitive | echo-worker-cpp/tpl/jsoncpp/src/lib_json/json_value.cpp:490-536 | the order of nested values is transitive |
| JsonValue.KeyOrder | echo-worker-cpp/tpl/jsoncpp/src/lib_json/json_value.cpp:295-324 | the order of keys is total and agrees with their equality |
| JsonValue.BytesLessUnfolds | echo-worker-cpp/tpl/jsoncpp/src/lib_json/json_value.cpp:295-324 | octets are compared as unsigned, the first that differs decides, and a beginning comes before the whole |
| JsonValue.OrderRuns | echo-worker-cpp/tpl/jsoncpp/src/lib_json/json_value.cpp:482-535 | which way the order runs: kinds, then numbers upwards, false before true, shorter containers first |
| JsonValue.CompareIsAnOrder | echo-worker-cpp/tpl/jsoncpp/src/lib_json/json_value.cpp:482-488 | compare is antisymmetric, transitive, and zero exactly for equal values |
| JsonValue.NaNBreaksTheOrder | echo-worker-cpp/tpl/jsoncpp/src/lib_json/json_value.cpp:482-502 | with NaN it is not: a witness |
| JsonArray.SizeOfDense | echo-worker-cpp/tpl/jsoncpp/src/lib_json/json_value.cpp:859-879 | the size is the number of elements unless there are 2^32 of them |
| JsonArray.ArrayValue.At | echo-worker-cpp/tpl/jsoncpp/src/lib_json/json_value.cpp:925-939 | a missing element is inserted as null |
| JsonArray.ArrayValue.AtKeepsDenseExactly | echo-worker-cpp/tpl/jsoncpp/src/lib_json/json_value.cpp:925-939 | that leaves no gap if and only if the index is at most one behind the last |
| JsonArray.ArrayValue.Resize | echo-worker-cpp/tpl/jsoncpp/src/lib_json/json_value.cpp:906-923 | the sequence is cut off or filled up with nulls |
| JsonArray.ArrayValue.Append | echo-worker-cpp/tpl/jsoncpp/src/lib_json/json_value.cpp:1128-1135 | the element comes last |
| JsonArray.ArrayValue.Insert | echo-worker-cpp/tpl/jsoncpp/src/lib_json/json_value.cpp:1141-1153 | the element comes at its place and the others keep their order; refused exactly beyond the end |
| JsonArray.ArrayValue.RemoveIndex | echo-worker-cpp/tpl/jsoncpp/src/lib_json/json_value.cpp:1198-1220 | the element is removed and the others close up; refused exactly when there is none |
| JsonArray.ArrayValue.CloseGap | echo-worker-cpp/tpl/jsoncpp/src/lib_json/json_value.cpp:1210-1215 | each later element is moved one place down |
| JsonInteger.DigitsFit | echo-worker-cpp/tpl/jsoncpp/src/lib_json/json_tool.h:67-73 | no 64-bit number has more than 20 digits |
| JsonInteger.UIntToString | echo-worker-cpp/tpl/jsoncpp/src/lib_json/json_tool.h:81-87 | the digits end at the end of the 25-octet buffer and never start before its second octet |
| JsonInteger.IntToString | echo-worker-cpp/tpl/jsoncpp/src/lib_json/json_writer.cpp:94-108 | the text of every signed 64-bit number, the smallest included; the buffer is not underrun |
| JsonInteger.LargestUIntToString | echo-worker-cpp/tpl/jsoncpp/src/lib_json/json_writer.cpp:110-116 | the text of every unsigned 64-bit number |
| JsonInteger.OverThreshold | echo-worker-cpp/tpl/jsoncpp/src/lib_json/json_reader.cpp:1606-1625 | the threshold test catches only numbers that are out of range |
| JsonInteger.DecodeNumber | echo-worker-cpp/tpl/jsoncpp/src/lib_json/json_reader.cpp:1562-1640 | the mathematical integer if and only if the token is an integer in range; nothing wraps around |
| JsonInteger.IntegerRoundTrip | echo-worker-cpp/tpl/jsoncpp/src/lib_json/json_reader.cpp:1562-1640 | reading inverts writing; what fits the signed type comes back signed |
| JsonInteger.LoneMinusIsZero | echo-worker-cpp/tpl/jsoncpp/src/lib_json/json_reader.cpp:1562-1640 | a minus sign alone is read as zero |
| JsonString.NextCodepointOfUtf8 | echo-worker-cpp/tpl/jsoncpp/src/lib_json/json_writer.cpp:188-237 | every character is found again in its UTF-8 form |
| JsonString.ValueToQuotedString | echo-worker-cpp/tpl/jsoncpp/src/lib_json/json_writer.cpp:275-350 | the loop and its shortcut write the same quoted form |
| JsonString.NothingToEscape | echo-worker-cpp/tpl/jsoncpp/src/lib_json/json_writer.cpp:180-186 | a string without characters to escape is its own escaped form |
| JsonString.ControlsEscaped | echo-worker-cpp/tpl/jsoncpp/src/lib_json/json_writer.cpp:284-327 | the escape of every control character, of quotes and of backslashes |
| JsonString.HexDigitsAre | echo-worker-cpp/tpl/jsoncpp/src/lib_json/json_writer.cpp:271-273 | an escape has the four hexadecimal digits of its number, the highest first |
| JsonString.LetterEscaped | echo-worker-cpp/tpl/jsoncpp/src/lib_json/json_writer.cpp:328-345 | a letter of three octets, escaped and not |
| JsonString.ClefEscaped | echo-worker-cpp/tpl/jsoncpp/src/lib_json/json_writer.cpp:338-343 | a character of four octets is written as a surrogate pair |
| JsonString.DecodeString | echo-worker-cpp/tpl/jsoncpp/src/lib_json/json_reader.cpp:1680-1731 | the loop decodes what is between the quotes, or finds the error |
| JsonString.EscapesMean | echo-worker-cpp/tpl/jsoncpp/src/lib_json/json_reader.cpp:1686-1724 | what each escape of two characters stands for; there are eight, and any other is an error |
| JsonString.HexValues | echo-worker-cpp/tpl/jsoncpp/src/lib_json/json_reader.cpp:1762-1781 | hexadecimal digits in small and capital letters, and no others |
| JsonString.SurrogatesRead | echo-worker-cpp/tpl/jsoncpp/src/lib_json/json_reader.cpp:1733-1760 | the first half of a surrogate pair must be followed by an escape; anything else stands for itself |
| JsonString.NextRoundTrip | echo-worker-cpp/tpl/jsoncpp/src/lib_json/json_reader.cpp:1733-1782 | what was written for one character, surrogate pairs included, is read back in one round |
| JsonString.EscapedIsDecoded | echo-worker-cpp/tpl/jsoncpp/src/lib_json/json_reader.cpp:1680-1731 | the escaped form of any octets can be decoded, and to what |
| JsonString.QuotedIsDecoded | echo-worker-cpp/tpl/jsoncpp/src/lib_json/json_writer.cpp:275-350 | with emitUTF8 every string of octets comes back; without, the string comes back if and only if it is valid UTF-8, and otherwise its code points do |
| JsonText.SpellsSpace | echo-worker-cpp/tpl/jsoncpp/src/lib_json/json_reader.cpp:1269-1277 | whitespace may be written behind any token |
| JsonText.SpellsToken | echo-worker-cpp/tpl/jsoncpp/src/lib_json/json_reader.cpp:1158-1267 | so may the next token |
| JsonMembers.WithMemberIs | echo-worker-cpp/tpl/jsoncpp/src/lib_json/json_value.cpp:1057-1073 | a member is added in the order of keys or replaced, and no other name or value changes |
| JsonMembers.SettledMembersAre | echo-worker-cpp/tpl/jsoncpp/src/lib_json/json_reader.cpp:1486 | after any list of members an object is sorted, has exactly the names given, and holds the value given last for each |
| JsonMembers.SettledIsMeant | echo-worker-cpp/tpl/jsoncpp/src/lib_json/json_reader.cpp:1446-1508 | the same at every depth of a value |
| JsonMembers.OneMeaning | echo-worker-cpp/tpl/jsoncpp/src/lib_json/json_value.cpp:1057-1073 | and that leaves no choice: two such objects are equal |
| JsonMembers.PrintableIsLegible | echo-worker-cpp/tpl/jsoncpp/src/lib_json/json_value.cpp:1057-1073 | a value with sorted members is read as itself |
| JsonLexer.Scanner.ReadToken | echo-worker-cpp/tpl/jsoncpp/src/lib_json/json_reader.cpp:1158-1267 | each token is recognised as what it starts with, and ends where it should; a comment is one exactly where an accepted comment stands; at least one octet is consumed unless the document ends; single quotes, NaN and the infinities are tokens exactly where the settings allow them |
| JsonLexer.Scanner.ReadNumber | echo-worker-cpp/tpl/jsoncpp/src/lib_json/json_reader.cpp:1396-1421 | a number ends behind its digits, its fraction and its exponent; a sign in front of an infinity begins no number |
| JsonLexer.Scanner.ReadComment | echo-worker-cpp/tpl/jsoncpp/src/lib_json/json_reader.cpp:1300-1330 | accepted exactly when a comment stands there, and then read to its end |
| JsonLexer.AcceptsUnclosedComment | echo-worker-cpp/tpl/jsoncpp/src/lib_json/json_reader.cpp:1366-1378 | the concrete document: three octets in which the comment is never closed, and accepted |
| JsonLexer.UnclosedComment | echo-worker-cpp/tpl/jsoncpp/src/lib_json/json_reader.cpp:1366-1378 | no closing mark follows; one more octet, and the comment would be refused |
| JsonLexer.Scanner.ReadString | echo-worker-cpp/tpl/jsoncpp/src/lib_json/json_reader.cpp:1422-1444 | a string ends with the first quote that is not escaped |
| JsonLexer.Scanner.ReadCStyleComment | echo-worker-cpp/tpl/jsoncpp/src/lib_json/json_reader.cpp:1366-1378 | ends at its first closing mark; without one it is still accepted if and only if the document ends in a slash |
| JsonLexer.Scanner.ReadCppStyleComment | echo-worker-cpp/tpl/jsoncpp/src/lib_json/json_reader.cpp:1380-1394 | ends with its line |
| JsonLexer.Scanner.MatchText | echo-worker-cpp/tpl/jsoncpp/src/lib_json/json_reader.cpp:1289-1298 | consumes exactly the pattern, or nothing |
| JsonLexer.Scanner.SkipSpaces | echo-worker-cpp/tpl/jsoncpp/src/lib_json/json_reader.cpp:1269-1277 | stops at the first octet that is not whitespace |
| JsonSpelling.EscapedPassed | echo-worker-cpp/tpl/jsoncpp/src/lib_json/json_reader.cpp:1422-1432 | the lexer finds the end of a quoted string where the writer put it |
| JsonSpelling.QuotedIsRead | echo-worker-cpp/tpl/jsoncpp/src/lib_json/json_reader.cpp:1158-1267 | a quoted string is one token |
| JsonSpelling.IntegerIsRead | echo-worker-cpp/tpl/jsoncpp/src/lib_json/json_reader.cpp:1158-1267 | an integer is one token |
| JsonReader.OurReader.RecoverFromError | echo-worker-cpp/tpl/jsoncpp/src/lib_json/json_reader.cpp:1793-1804 | recovery terminates on every input, adds no error of its own, and ends behind the mark it looks for or where the text does |
| JsonReader.OurReader.SkipCommentTokens | echo-worker-cpp/tpl/jsoncpp/src/lib_json/json_reader.cpp:1148-1156 | the first token that is no comment, if comments are allowed, and the next token otherwise |
| JsonReader.OurReader.ReadPastComments | echo-worker-cpp/tpl/jsoncpp/src/lib_json/json_reader.cpp:1461-1464 | the token where neither whitespace nor a comment stands |
| JsonReader.OurReader.ReadItemSeparator | echo-worker-cpp/tpl/jsoncpp/src/lib_json/json_reader.cpp:1534-1547 | behind any comments a bracket ends the array, a comma goes on, and anything else is an error |
| JsonReader.OurReader.ReadMemberSeparator | echo-worker-cpp/tpl/jsoncpp/src/lib_json/json_reader.cpp:1493-1504 | exactly how it goes on, on every input: only a brace ends the object, behind comments or not; otherwise a comma, or a comment and any token at all, goes on; anything else is an error |
| JsonReader.OurReader.ReadValue | echo-worker-cpp/tpl/jsoncpp/src/lib_json/json_reader.cpp:1056-1146 | returns on every input with the stack as high as before, and with a new error exactly when it fails; reads exactly the value a text spells; throws when nesting exceeds the limit, and only then or for a key too long; where a comma or closing mark stands instead of a value, null is read and the mark left, if and only if nulls may be dropped |
| JsonReader.OurReader.ReadContainer | echo-worker-cpp/tpl/jsoncpp/src/lib_json/json_reader.cpp:1070-1078 | the same for objects and arrays |
| JsonReader.OurReader.ReadScalar | echo-worker-cpp/tpl/jsoncpp/src/lib_json/json_reader.cpp:1079-1137 | the same for everything else, the un-reading of a token in front of which a null was dropped included |
| JsonReader.OurReader.ReadNumber | echo-worker-cpp/tpl/jsoncpp/src/lib_json/json_reader.cpp:1552-1667 | a number becomes the integer it denotes if there is one, and the double of its text otherwise; an error when neither |
| JsonReader.OurReader.ReadString | echo-worker-cpp/tpl/jsoncpp/src/lib_json/json_reader.cpp:1669-1731 | a string becomes what unescaping its text gives; an error exactly when it cannot be unescaped |
| JsonReader.OurReader.ReadWord | echo-worker-cpp/tpl/jsoncpp/src/lib_json/json_reader.cpp:1084-1137 | literal names and special floats; any other token is an error |
| JsonReader.OurReader.ReadArray | echo-worker-cpp/tpl/jsoncpp/src/lib_json/json_reader.cpp:1510-1550 | the same for arrays: the elements spelled, in their order |
| JsonReader.OurReader.ReadItem | echo-worker-cpp/tpl/jsoncpp/src/lib_json/json_reader.cpp:1526-1547 | one element and what follows it, a dropped null included |
| JsonReader.OurReader.ReadItemOrEnd | echo-worker-cpp/tpl/jsoncpp/src/lib_json/json_reader.cpp:1515-1547 | a bracket ends the array where it is empty, and behind a comma if trailing commas are allowed and dropped nulls are not; with dropped nulls one more null stands there, and otherwise it is an error |
| JsonReader.OurReader.ReadMemberOrEnd | echo-worker-cpp/tpl/jsoncpp/src/lib_json/json_reader.cpp:1452-1461 | a brace where a name should stand ends the object if and only if the name before was empty or trailing commas are allowed |
| JsonReader.OurReader.ReadColon | echo-worker-cpp/tpl/jsoncpp/src/lib_json/json_reader.cpp:1481-1485 | goes on if and only if a colon stands there |
| JsonReader.OurReader.SkipBom | echo-worker-cpp/tpl/jsoncpp/src/lib_json/json_reader.cpp:1279-1287 | three octets are skipped if and only if they are the byte order mark and the settings ask for it |
| JsonReader.OurReader.ReadObject | echo-worker-cpp/tpl/jsoncpp/src/lib_json/json_reader.cpp:1446-1508 | the same for objects: members in any order, repeated or not, make an object that is sorted, has exactly those names, and holds the value given last for each |
| JsonReader.OurReader.ReadMember | echo-worker-cpp/tpl/jsoncpp/src/lib_json/json_reader.cpp:1459-1505 | one member and what follows it; where duplicates are rejected, a name that is there already fails |
| JsonReader.OurReader.ReadName | echo-worker-cpp/tpl/jsoncpp/src/lib_json/json_reader.cpp:1466-1481 | a string is taken for the name it decodes to if and only if it can be decoded, is not too long and may be given; only strings, and numbers where those are allowed, are names |
| JsonReader.OurReader.DecodeNumberToken | echo-worker-cpp/tpl/jsoncpp/src/lib_json/json_reader.cpp:1562-1667 | an integer in range is never left to the floating-point path |
| JsonMembers.LastMember | echo-worker-cpp/tpl/jsoncpp/src/lib_json/json_reader.cpp:1486 | members read in key order are kept in that order |
| JsonReader.OurReader.Parse | echo-worker-cpp/tpl/jsoncpp/src/lib_json/json_reader.cpp:1010-1054 | true if and only if no error was found; a text that spells a value, its members in any order, is parsed into what it means under any settings, behind a byte order mark too where that is to be skipped, unless nesting exceeds the limit or a strict root forbids it; where nothing may follow the value nothing does, and a strict root is an array or an object, whatever the text |
| JsonWriter.FastWriter.Write | echo-worker-cpp/tpl/jsoncpp/src/lib_json/json_writer.cpp:373-379 | the document is exactly the tokens of the value, one behind the other, and a final line feed unless that is omitted; so it spells the value |
| JsonWriter.FastWriter.WriteValue | echo-worker-cpp/tpl/jsoncpp/src/lib_json/json_writer.cpp:381-432 | what is appended are the tokens of the value |
| JsonWriter.FastWriter.WriteArray | echo-worker-cpp/tpl/jsoncpp/src/lib_json/json_writer.cpp:406-415 | every element once, in order, with commas between |
| JsonWriter.FastWriter.WriteObject | echo-worker-cpp/tpl/jsoncpp/src/lib_json/json_writer.cpp:416-430 | every member once, in order, with commas between |
| JsonStyled.BuiltStyledStreamWriter.Write | echo-worker-cpp/tpl/jsoncpp/src/lib_json/json_writer.cpp:926-940 | the text spells the value; unless the indentation is empty, each of its lines stands behind a line feed and as many copies of the indentation as it is deep, the ending symbol follows, and there is no other line feed if indentation and colon have none |
| JsonStyled.BuiltStyledStreamWriter.WriteIndent | echo-worker-cpp/tpl/jsoncpp/src/lib_json/json_writer.cpp:1088-1098 | a line feed and the indentation, or nothing when the indentation is empty |
| JsonLayout.LaidInLines | echo-worker-cpp/tpl/jsoncpp/src/lib_json/json_writer.cpp:941-1052 | the text of a value is its lines, joined by line feeds and indentation |
| JsonLayout.LineStands | echo-worker-cpp/tpl/jsoncpp/src/lib_json/json_writer.cpp:1088-1098 | each line stands behind its line feed and its indentation |
| JsonLayout.BreakIsOne | echo-worker-cpp/tpl/jsoncpp/src/lib_json/json_writer.cpp:1088-1098 | every line feed begins a line |
| JsonLayout.LinesUnbroken | echo-worker-cpp/tpl/jsoncpp/src/lib_json/json_writer.cpp:941-1052 | no line has a line feed in it |
| JsonLayout.ObjectOnLines | echo-worker-cpp/tpl/jsoncpp/src/lib_json/json_writer.cpp:977-1000 | each name begins a line one step deeper than its object, whose marks stand on lines of their own, and the lines of its value follow; only at the beginning of a line the opening mark needs no other |
| JsonLayout.ArrayOnLines | echo-worker-cpp/tpl/jsoncpp/src/lib_json/json_writer.cpp:1010-1036 | so does each element of an array that is too much for one line |
| JsonLayout.OneLine | echo-worker-cpp/tpl/jsoncpp/src/lib_json/json_writer.cpp:1037-1079 | exactly what is flat, and arrays that are not too much for a line, are on one line |
| JsonStyled.BuiltStyledStreamWriter.WriteValue | echo-worker-cpp/tpl/jsoncpp/src/lib_json/json_writer.cpp:941-1002 | the tokens of the value go to the stream, or one text to the child values |
| JsonStyled.BuiltStyledStreamWriter.WriteObject | echo-worker-cpp/tpl/jsoncpp/src/lib_json/json_writer.cpp:977-1000 | every member once, in order; indentation is restored |
| JsonStyled.BuiltStyledStreamWriter.IsMultilineArray | echo-worker-cpp/tpl/jsoncpp/src/lib_json/json_writer.cpp:1054-1079 | an array takes several lines exactly when it has many elements, a container that is not empty, or a long line; on the single-line path the child values hold exactly one text per element; lengths wrap around like an unsigned int |
| JsonStyled.BuiltStyledStreamWriter.WriteArrayValue | echo-worker-cpp/tpl/jsoncpp/src/lib_json/json_writer.cpp:1004-1052 | both layouts spell the same tokens |
| JsonStyled.BuiltStyledStreamWriter.WriteLines | echo-worker-cpp/tpl/jsoncpp/src/lib_json/json_writer.cpp:1010-1036 | one element a line: the text of each stands behind a line feed and its indentation |
| JsonStyled.BuiltStyledStreamWriter.WriteOneLine | echo-worker-cpp/tpl/jsoncpp/src/lib_json/json_writer.cpp:1037-1050 | all elements on one line |
| JsonRoundTrip.FastRoundTrip | echo-worker-cpp/tpl/jsoncpp/src/lib_json/json_writer.cpp:373-432 | what FastWriter writes is read back as the same value, small unsigned numbers signed |
| JsonRoundTrip.StyledRoundTrip | echo-worker-cpp/tpl/jsoncpp/src/lib_json/json_writer.cpp:926-1112 | so is what the styled writer writes, in every plain style |
| JsonRoundTrip.LayoutDoesNotMatter | echo-worker-cpp/tpl/jsoncpp/src/lib_json/json_writer.cpp:926-1112 | both texts are parsed into the same value |
| JsonRoundTrip.ReadingIsStable | echo-worker-cpp/tpl/jsoncpp/src/lib_json/json_reader.cpp:1632-1638 | a value that was read once is read as itself ever after |
| JsonRoundTrip.NormalIsPrintable | echo-worker-cpp/tpl/jsoncpp/src/lib_json/json_writer.cpp:373-432 | and can be written again |
| JsonSpelling.CommentStands | echo-worker-cpp/tpl/jsoncpp/src/lib_json/json_reader.cpp:1366-1378 | the text of a comment is one wherever it stands |
| JsonSpelling.StrayRead | echo-worker-cpp/tpl/jsoncpp/src/lib_json/json_reader.cpp:1493-1504 | what stands for the comma is one token |
| JsonSeparators.ReadWithoutCommas | echo-worker-cpp/tpl/jsoncpp/src/lib_json/json_reader.cpp:1493-1504 | every value is read back just the same when a comment and any stray token stand for the commas between its members |
| JsonSeparators.ReadAnyMembers | echo-worker-cpp/tpl/jsoncpp/src/lib_json/json_reader.cpp:1446-1508 | every value whose members are spelled in any order, again and again unless that is rejected, is read as what it means |
| JsonSeparators.ReadsOutOfOrder | echo-worker-cpp/tpl/jsoncpp/src/lib_json/json_reader.cpp:1446-1508 | the concrete case of two names out of order, one of them given twice |
| JsonSeparators.AcceptsNoComma | echo-worker-cpp/tpl/jsoncpp/src/lib_json/json_reader.cpp:1493-1504 | the concrete document, without any comma, and its value |

## Left out
- Messages.GeneratedBasicPublish: one of the 64 generated methods stands for all; the others are instances of the same generator theorem.
- Framing.FlagsRoundTrip: a third flag word would be shifted by 32 bits, to which C gives no meaning; the decoder's result there is the status `Undefined`.
- Frames.FrameRoundTrip: method payloads of less than 4 and header payloads of less than 12 octets, where the code subtracts unchecked, decode to `Undefined`; written frames are never that short.
- FrameParser.InboundParser.HandleInput: an error is absorbing; what the code would do if it were called again after one is not modelled.
- Publisher.Sender.BasicPublish: an outbound buffer too small for the fixed parts of a frame, where the code's subtractions wrap around, is excluded.
- Connection.Connection.WaitFrame: heartbeats that are sent while waiting, and their timers, appear only through the network's final status.
- Connection.Connection.TryRecv: the receive that does not wait either delivers the next piece or the final status.
- Connection.Connection.ReadMessage: a content header of another class than basic, whose properties the code would read as basic ones, gives `Undefined`.
- JsonArray.ArrayValue.Append: arrays with as many elements as an `ArrayIndex` counts are excluded; `JsonArray.SizeOfDense` says what goes wrong there.
- JsonReader.OurReader.ReadValue: the values of other texts, such as reals or texts with comments elsewhere than between members, are left open, and so is which key is too long; termination, balance and errors are not.
- JsonReader.OurReader.ReadObject: what is left of an object in which a name is rejected because it is given again; that it is rejected is stated by `ReadMember`.
- TableCodec.CloneValue: the code tests an array's pointer, not its count; an array without elements whose pointer is not null, which decoding never gives, is refused for lack of memory.
- JsonArray.ArrayValue.Insert: arrays with as many elements as an `ArrayIndex` counts, as for `Append`.
- JsonStyled.BuiltStyledStreamWriter.Write: values with reals or comments, which have no text here.
- Connection.Connection.Receive: polling, deadlines and timers are the next piece or a final status.
- Connection.Connection.SimpleRpc: sending the request, which may receive and queue frames, is a status; `TryRecv` is what it then does.
- PoolSafety.Memory.Run: a run is any list of the library's steps on memory; the octets and frames themselves are those of the parser and the connection, not of these steps.
- JsonReader.OurReader.Parse: collecting comments into the values and the line and column of an error are not modelled.
- JsonWriter.FastWriter.Write: values with reals, strings that are not valid UTF-8, and the option to drop null placeholders, which the reader cannot undo for a single null.
- Real numbers in text (`decodeDouble`, `valueToString(double)`): parameters of the reader.
- Comments of values in the styled writer.
- A string value without a string, a null pointer that no constructor makes.
- The swap of octets on little-endian hosts: integers are written most significant octet first at once.
- Where the offset stands after a decoding error, and half-decoded values.
- Merging with no table to add at all, which is a clone.
- Login, SASL, TLS, sockets, polling, the URL parser, error strings and timeout setters.
- The legacy `Reader`, `StyledWriter` and `StyledStreamWriter`, near copies of what is modelled.
- Freeing memory, and failing to get it.
- The Java services, the orchestration, GDAL and the user interface.
