# Verified model of the IPC message path and the storage below it

This project models, in Dafny, the part of the CodePort++ library that carries messages between nodes,
together with the code that it stands on: segments and segment streams, the accumulators that
reassemble messages, the transmit queue, the native serializer and the datum tree, the pool
allocator, the CRC and the small algorithms around them. It proves what these promise, for all
inputs and all runs. `dafny verify dfyconfig.toml` checks everything.

## How it is put together

- `Bytes`, `Flat`: octets, big-endian integers, and lists of blocks read as one flat sequence.
- `Segment`, `Fragment`, `BlockStore`, `Stream`, `Message`: a segment is 24 octets of header and up
  to 1000 of payload in a buffer of 1024. `BlockStore` is the storage under a stream, either pooled
  blocks or a linked chain of segments; `StreamBase` is the cursor above it. Every stream method is
  specified by the flat contents `Flat()` and the position `Pos()`. `Fragment` says what cutting a
  payload into segments means, `Message` that the chain which the stream fills is exactly that, and
  that a receiver reads it back.
- `Accum`, `Delivery`, `FragmentLimit`: the sorted, linked accumulator, the map of accumulators, what
  every arrival order leads to, and the accumulator thread.
- `TransmitQueue`, `Schedule`: the priority list of segment chains, and what every run of it emits.
- `NativeFormat`, `NativeRoundTrip`: the encoding and the decoding as functions, and their round
  trip. `DatumTree`, `NativeEncoder`, `NativeDecoder`: the tree of objects, the encoder that appends
  to a stream, and the decoder's loop with its stack of objects and its state machine.
- `SegmentWire`, `NativeWire`: the layout of segments and packages by their numbers, octet by octet.
- `EndToEnd`, `DatumTransfer`: from a payload or a tree at the sender to the same at the receiver.
  `IdReuse`: a run in which that fails.
- `DatumCursor`: the cursor that is embedded in a tree of data.
- `MemPool`, `MemManager`: the allocator.
- `Threads`, `ItcQueue`, `ItcCalls`, `TransmitSignal`, `ThreadSuspend`: concurrent code as step
  systems over any number of threads, where one step is one access to shared state. `ItcCalls` says
  what the calls of the queue pass on.
- `Reflection`, `Crc32`, `Cascade`, `PermuteArgs`, `Paths`, `HexIo`, `HexLines`, `HexLayout`: the
  algorithms.

Code that works in place is modelled in place: classes with `modifies` clauses, linked lists of
objects, loops. Each such method is proved against a function of the old state, and the promises are
proved about that function. Ghost fields (`Segs`, `Bufs`, `Free`, `Owned`, `Live`, ...) tie the objects
to the values.

## Where the code does not do what is expected of it

Each of these is a theorem here, with the exact condition where there is one.

- A stream created with room for more segments than the payload needs is finalized wrongly
  (`Message.FinalizeExact`).
- A message of more than 65535 segments is never delivered whole (`FragmentLimit.DeliverableExactly`).
- Messages that share a guid are delivered whole exactly if they take turns
  (`Delivery.WholeExactlyInTurn`, with `Delivery.OverlapLoses` as the smallest failure). A node that
  gives an id again while a message with that id waits can break this
  (`EndToEnd.NodeToNodeExactly`, with a run that loses a message in `IdReuse.SomeRunLoses`); it takes
  at least 2^32 messages (`EndToEnd.FewSends`).
- A CRC of 0xffffffff cannot be cascaded (`Crc32.CascadeContinues`), so `Crc32Get` depends on where
  the blocks end (`Stream.StreamCrc`, with streams that show it in `Stream.WrongCrc`), and a package
  can be rejected whose octets are intact (`DatumTransfer.CheckedExactly`, with packages that show it
  in `DatumTransfer.IntactButRejected`).
- One damaged octet can switch the checksum off (`DatumTransfer.TrailerDamage`).
- Encoding reports success for trees that cannot be decoded (`NativeRoundTrip.RoundTripExactly`,
  `NativeEncoder.EncodeStream`); a package with one of the other two checksum types is never accepted
  (`NativeFormat.TrailerAccepted`).
- A receiver keeps its own name if the package has none (`NativeRoundTrip.NamedReceiver`).
- `Skip(0)` goes to the end (`Stream.StreamBase.Skip`), and `TransferBlocksFrom` the stream itself
  loses the blocks (`Stream.StreamBase.TransferBlocksFrom`).
- `Crc32Get` reads beyond the end of the stream when it is asked to (`Stream.StreamBase.Crc32Get`).
- The length that the last segment of a received message claims is not checked
  (`Stream.StreamBase.SegmentInject`).
- A pool created while a client holds a heap block of up to its size leaves that block without a place
  to return to (`MemManager.MemManager.CreatePool`); what becomes of it is shown by
  `MemManager.LatePool`.
- The maximum line length of the hex printer can be exceeded (`HexLines.LineLimit`).
- With a maximum below the length of one group, the hex output begins with a line break
  (`HexLayout.TextIs`).
- A relative path becomes an absolute one when it is normalized (`Paths.RelativeIsLost`).

## Model

| member | source | states |
|---|---|---|
| EndToEnd.NodeToNode | src/cpIpcNodeUtil.cpp:188-438 | for every list of sendable messages of one node, however long, and every interleaving of `TransmitMessage` and `SegmentGet` that ends with an empty queue, as long as no message is given an id that a waiting message has: an accumulator map fed with the emitted segments ends empty and delivers every message once, whole, under its own id, and any buffers with the delivered contents read as its payload |
| EndToEnd.NodeToNodeExactly | src/cpIpcNodeUtil.cpp:188-438 | exactly which runs deliver every message whole, when messages with the same id differ in every segment: those in which no segment of a longer message is emitted while another message with its id has been emitted in part |
| EndToEnd.FewSends | src/cpIpcNodeUtil.cpp:395-399 | a node that submits at most 2^32 - 1 messages never gives an id that a waiting message has |
| IdReuse.SomeRunLoses | src/cpIpcNodeUtil.cpp:315-438 | there is a run of a node that loses a message, with well-formed messages and a transport that loses nothing |
| IdReuse.LosesMessage | src/cpIpcNodeUtil.cpp:315-438 | it is lost whenever a message of two segments is overtaken, after its first segment, by 2^32 - 1 more urgent ones, of which the last has two segments as well |
| EndToEnd.ReceiveAll | src/cpIpcNodeUtil.cpp:188-280 | the accumulator thread, given the segments of any messages of any number of nodes in any order in which messages with the same guid take turns, hands over one chain of segments per message, which carries the payload of its message |
| EndToEnd.ReceiveNode | src/cpIpcNodeUtil.cpp:188-280 | the same for everything that one node sent |
| EndToEnd.PayloadsArrive | src/cpIpcNodeUtil.cpp:188-280 | the same for any number of sources and any arrival order of all their segments; messages may share a guid if they take turns: none is accumulated while another one with its guid has arrived in part |
| EndToEnd.SendBuf | src/cpIpcNode.cpp:220-265 | the queue receives exactly the fragments of the buffer under the template header; a null or empty buffer leaves the queue alone and yields id 0 |
| EndToEnd.CutBuf | src/cpIpcNode.cpp:233-252 | the segments extracted are the fragments of the buffer, in order, linked and new |
| EndToEnd.ReceiveBuf | src/cpIpcStreamSeg.cpp:84-113 | reading a delivered message fills the array with the first octets of the payload that was sent |
| EndToEnd.TagIsCut | src/cpIpcNodeUtil.cpp:337-338 | giving each segment the message id as it is sent makes the same segments as cutting with the id in the header |
| Delivery.EveryOrderDelivers | src/cpIpcNodeUtil.cpp:188-280 | after any series of arrivals in which messages with the same guid take turns, the delivered messages are those whose last segment has arrived, each with all its segments in order, in the order of their last arrivals; the map holds exactly the messages that have arrived in part, with the segments that arrived |
| Delivery.WholeExactlyInTurn | src/cpIpcNodeUtil.cpp:188-280 | when every segment arrives once and messages that share a guid differ in every segment: every message is delivered whole if and only if messages that share a guid take turns |
| Delivery.OverlapLoses | src/cpIpcNodeUtil.cpp:228-250 | the smallest instance: two messages of two segments that share a guid and overlap are both lost, even if their contents are the same |
| Delivery.AccumThread | src/cpIpcNodeUtil.cpp:188-280 | the loop of the accumulator thread on objects: the map and the chains of segments handed over are those of the run; no two chains share a segment, and none that was handed over is still in an accumulator |
| Delivery.DeliveredOnce | src/cpIpcNodeUtil.cpp:244-262 | no message is delivered twice, and one is delivered if and only if all its segments arrived |
| Delivery.EveryMessageOnce | src/cpIpcNodeUtil.cpp:224-280 | if every segment arrives once, the map ends empty and all messages have been delivered |
| Delivery.AnyOrderCompletes | src/cpIpcAccum.cpp:77-183 | one accumulator, any order of distinct segments: it is complete exactly when all have been submitted, and then holds them in fragment order |
| Delivery.ArriveTracks | src/cpIpcNodeUtil.cpp:224-262 | one arrival keeps the map in step with the segments seen, and delivers its message exactly if it is the last one missing |
| FragmentLimit.DeliverableExactly | src/cpIpcStreamSeg.cpp:165-229 | some series of arrivals delivers a message whole if and only if its payload has at most 65535 * 1000 octets, since fragment numbers have 16 bits |
| FragmentLimit.DeliveredSorted | src/cpIpcAccum.cpp:77-156 | whatever arrives, forged segments included, a delivered list is in the order of its fragment numbers |
| FragmentLimit.FragmentsAreNumbered | src/cpIpcStreamSeg.cpp:128-229 | the fragments of a payload within the limit carry the numbers 1 to n, share a guid, and only the last has the initial option |
| Message.FinalizedIsFragments | src/cpIpcStreamSeg.cpp:128-229 | a chain that is filled without a spare block is, finalized, exactly the fragments of its octets |
| Message.FinalizeExact | src/cpIpcStreamSeg.cpp:128-146 | the finalized segments carry the octets of the stream if and only if no allocated block is to spare |
| Message.SpareBlockBreaksMessage | src/cpIpcStreamSeg.cpp:27-34 | the smallest stream that shows it: room for two segments, one octet written |
| Message.ReceivedIsPayload | src/cpIpcStreamSeg.cpp:84-113 | segments that hold the fragments of a payload are read back as that payload |
| Fragment.FragmentsJoin | src/cpIpcStreamSeg.cpp:165-229 | the payloads of the fragments, joined, are the payload: nothing lost, repeated or reordered |
| Fragment.FragmentFields | src/cpIpcSegment.cpp:78-172 | what a receiver reads from segment i of n: multipart exactly if n > 1, initial exactly on the last, number i + 1 modulo 2^16, guid and priority of the message, and the chunk |
| Segment.StampFields | src/cpIpcSegment.cpp:92-168 | the fields that fragmentation stores are read back, the address and id fields are untouched |
| SegmentWire.SegmentOctets | src/cpIpcStreamSeg.cpp:128-229 | segment i of a message by its octets: those of the header but for the options, 0x20 in each of several segments and 0x40 in the last of them, the number in octets 2 and 3, the length in octets 22 and 23, and behind octet 24 the next 1000 octets of the payload or the rest |
| SegmentWire.FieldsRead | src/cpIpcSegment.cpp:76-172 | at which octets and bits a receiver finds priority, options, fragment number, addresses, id, length and payload |
| SegmentWire.TaggedOctets | src/cpIpcNodeUtil.cpp:337-338 | giving a segment its id replaces octets 12 to 15 |
| SegmentWire.ClearedOctets | src/cpIpcSegment.cpp:319-335 | a cleared segment is a header with normal priority and zeros otherwise |
| SegmentWire.PriorityOctet | src/cpIpcSegment.cpp:204-221 | setting the priority replaces two bits, by at most 3, and leaves the options |
| BlockStore.BlockStore.MemoryAdd | src/cpIpcStreamSeg.cpp:165-229 | appends as many blocks as the size needs, keeps the old contents, and keeps every header of the chain as its message demands |
| BlockStore.BlockStore.NextSegmentAdd | src/cpIpcStreamSeg.cpp:193-215 | a further segment takes its header from its predecessor, which becomes full and multipart; the links stay a chain |
| BlockStore.BlockStore.Finalize | src/cpIpcStreamSeg.cpp:128-146 | the last buffer gets its length and, if it is not the only one, the initial option |
| BlockStore.BlockStore.Adopt | src/cpIpcStreamSeg.cpp:84-113 | walks a received list to its end: last block, last position and count are those of the list |
| BlockStore.BlockStore.SegmentAt | src/cpIpcStreamSeg.cpp:247-268 | finds a segment by walking the links, or null past the end |
| BlockStore.BlockStore.MemoryFree | src/cpStreamBuf.cpp:97-116 | the store is empty afterwards |
| BlockStore.BlockStore.PoolBlockAdd | src/cpStreamBuf.cpp:120-145 | one more block of at least the minimum and the requested size, the others as before |
| Stream.StreamBase.ArrayWr | src/cpStreamBase.cpp:219-311 | writes all octets at the position: what was there is overwritten, then the stream grows; a segment stream without a spare block stays so |
| Stream.WrittenAt | src/cpStreamBase.cpp:219-311 | octet by octet what that means: the stream keeps its length or ends where the new octets end, these are at the position, and all others are as before |
| Stream.StreamBase.ArrayRd | src/cpStreamBase.cpp:138-214 | reads exactly the next min(n, remaining) octets into the front of the array and moves on by that many |
| Stream.StreamBase.Seek | src/cpStreamBase.cpp:625-669 | the position becomes min(p, length); true exactly if there is a block and p is not past the end |
| Stream.StreamBase.Skip | src/cpStreamBase.cpp:673-690 | moves to the sum of position and count, clamped; a count of 0, like an overflow, moves to the end |
| Stream.StreamBase.Back | src/cpStreamBase.cpp:693-709 | moves back by the count, or to 0 with a false result |
| Stream.StreamBase.PosGet | src/cpStreamBase.cpp:86-101 | the flat position |
| Stream.StreamBase.LenGet | src/cpStreamBase.cpp:104-119 | the number of octets in the stream |
| Stream.StreamBase.ReadOctet | src/cpStreamBase.cpp:372-376 | the next octet; fails exactly at the end |
| Stream.StreamBase.WriteOctet | src/cpStreamBase.cpp:379-383 | one octet written at the position |
| Stream.StreamBase.Clear | src/cpStreamBase.cpp:611-621 | an empty stream at position 0 |
| Stream.StreamBase.Finalize | src/cpIpcStreamSeg.cpp:128-146 | the chain is finalized with the stream's last position |
| Stream.StreamBase.SegmentInject | src/cpIpcStreamSeg.cpp:84-113 | the stream is the payload of the list: all blocks but the last in full, the last up to its stored length; its end lies inside its memory if and only if that length is at most 1000 |
| Stream.StreamBase.SegmentExtract | src/cpIpcStreamSeg.cpp:116-125 | hands out the whole chain and leaves an empty stream |
| Stream.StreamBase.TransferBlocksFrom | src/cpStreamBuf.cpp:82-93 | contents, blocks and position move over and the source is empty; a transfer from itself leaves nothing |
| Stream.StreamBase.Crc32Get | src/cpStreamBase.cpp:540-568 | the CRC cascaded over the blocks that hold the first n octets; a count beyond the end of the stream runs on into the rest of its memory |
| Stream.StreamCrc | src/cpStreamBase.cpp:540-568 | this is the CRC of the first n octets if and only if the octets before the last fresh start of the cascade have the CRC 0, a fresh start being a block boundary behind which the octets since the previous one have the CRC 0xffffffff |
| Stream.WrongCrc | src/cpStreamBase.cpp:540-568 | segment streams on which the result is wrong: any 996 octets, four computed ones, and any octets behind the first segment |
| Cascade.CascadeExactly | src/cpStreamBase.cpp:540-568 | for any pieces the cascade is the CRC of the octets behind the last fresh start; it is the CRC of all of them if and only if the octets before it have the CRC 0 |
| Cascade.CascadesAgree | src/cpStreamBase.cpp:540-568 | two ways to divide the same octets give the same cascade if and only if the octets between their last fresh starts have the CRC 0 |
| Cascade.AnyBlockCanFail | src/cpStreamBase.cpp:540-568 | any octets can be continued by four so that the cascade fails at the end of their block |
| Cascade.TwoBlocks | src/cpStreamBase.cpp:540-568 | the special case of two blocks: the CRC of the first must not be 0xffffffff |
| Cascade.CascadeIgnoresSpare | src/cpStreamBase.cpp:548-565 | blocks behind the data have no influence |
| Crc32.CalcCrc32 | src/cpUtil.cpp:610-650 | the loop over octets and bits computes the remainder function on the memory, 0 for a null buffer |
| Crc32.AgreesWithRfc1952 | src/cpUtil.cpp:610-650 | the reflect-in, most-significant-bit-first form equals the table-driven form of section 8 of RFC 1952 on every input, with the cascade value 0xffffffff standing for 0 |
| Crc32.CascadeContinues | src/cpUtil.cpp:610-650 | CRC(b) cascaded from CRC(a) is CRC(a + b) if and only if CRC(a) is not 0xffffffff |
| Crc32.FourOnesHaveCrcOnes | src/cpUtil.cpp:610-650 | the excluded value occurs: four octets 0xff have it |
| Crc32.ClosingCloses | src/cpUtil.cpp:610-650 | it can occur anywhere: whatever octets come first, four computed ones behind them complete it |
| Crc32.PrefixVanishes | src/cpUtil.cpp:610-650 | octets in front of others leave no trace in the CRC if and only if their own CRC is 0 |
| Crc32.StepIsInjective | src/cpUtil.cpp:631-645 | the step for one bit loses no information |
| Crc32.BurstIsDetected | src/cpUtil.cpp:610-650 | inputs that differ only within four consecutive octets never have the same CRC |
| Crc32.Reflect32 | src/cpUtil.cpp:530-540 | four look-ups reverse the 32 bits |
| Reflection.ReflectLut | src/cpConstants.cpp:60-84 | the table of 256 constants is bit reversal |
| Bytes.OctetOrder | src/cpUtil.cpp:769-818 | the high octets stand first, in writing and in reading |
| Bytes.BigEndian32 | src/cpUtil.cpp:769-818 | reading undoes writing, and only those four octets read as the value |
| Accum.IpcAccum.SubmitSegment | src/cpIpcAccum.cpp:77-156 | the list is the old one with the segment before the first higher fragment number; counter and total as specified; no other link changes |
| Accum.IpcAccum.FindPlace | src/cpIpcAccum.cpp:103-139 | the walk stops where sorted insertion belongs |
| Accum.IpcAccum.Complete | src/cpIpcAccum.cpp:175-183 | true exactly for a non-empty list whose positive total equals the number received |
| Accum.IpcAccum.MessageGet | src/cpIpcAccum.cpp:160-171 | hands over the head and leaves an empty list |
| Accum.IpcAccumMap.AccumSegment | src/cpIpcNodeUtil.cpp:224-262 | one received segment takes the map and the delivered messages where the arrival function says; a delivered list is an acyclic chain, and no segment is lost or kept twice |
| Accum.InsertAt | src/cpIpcAccum.cpp:103-139 | where sorted insertion puts a segment |
| TransmitQueue.IpcTransmitQueue.TransmitMessage | src/cpIpcNodeUtil.cpp:379-438 | the message goes before the first one with a numerically higher priority, its first segment carries the new id, which is the result; null yields 0 and changes nothing |
| TransmitQueue.IpcTransmitQueue.SegmentGet | src/cpIpcNodeUtil.cpp:315-375 | takes the first segment, unlinked; the rest of its message stays in front with the id in its first segment; false exactly when the queue is empty |
| TransmitQueue.IpcTransmitQueue.FindPlace | src/cpIpcNodeUtil.cpp:411-427 | the loop stops where the message belongs |
| TransmitQueue.PlaceAt | src/cpIpcNodeUtil.cpp:411-432 | everything before the new message has a priority number not above its own, what follows a higher one |
| Schedule.EveryRunTracks | src/cpIpcNodeUtil.cpp:315-438 | in every run the queue is sorted by priority, every emitted segment carries the id of its message, and for each priority the output followed by what waits is the concatenation of whole messages in the order of submission; if no id is given that a waiting message has, messages with the same id take turns in the output |
| Schedule.MostUrgentFirst | src/cpIpcNodeUtil.cpp:327-330 | the next segment to be taken has the least priority number of all queued segments |
| Schedule.RunIsOrder | src/cpIpcNodeUtil.cpp:315-438 | no segment is emitted twice, and when the queue is empty every segment of every submitted message has been emitted |
| NativeRoundTrip.RoundTripExactly | src/cpSerDesNative.cpp:83-1005 | decoding the encoding of a tree gives the tree if and only if it holds no inert value, no attribute of type attr_None and no string or blob of 2^32 octets or more |
| NativeRoundTrip.PackageRoundTrip | src/cpSerDesNative.cpp:853-952 | an encoded package is read up to its end marker with only the root open, whatever follows it; a receiver's own name is kept unless the package has one |
| NativeRoundTrip.NamedReceiver | src/cpDatum.cpp:748-758 | a receiver with a name gets the tree unchanged if and only if the root is named |
| NativeRoundTrip.TreeRoundTrip | src/cpSerDesNative.cpp:853-952 | an encoded sub-datum becomes one more sub-datum of the innermost open datum, and the stack is as before |
| NativeRoundTrip.ElementsEncodable | src/cpSerDesNative.cpp:853-952 | whatever octets are decoded, the result can be encoded |
| NativeRoundTrip.LenRoundTrip | src/cpSerDesNative.cpp:250-492 | a length below 2^32 is read back from its one, three or five octets |
| NativeRoundTrip.VariantRoundTrip | src/cpSerDesNative.cpp:164-816 | every value that the format carries is read back with its type |
| NativeWire.AttributeOctets | src/cpSerDesNative.cpp:149-234 | the octets of a datum with one attribute, by their numbers: start marker, the marker of each attribute, the type octet of each type with its signedness, the value with its high octets first, a string or blob behind its length of one, three or five octets, end marker |
| NativeWire.DatumOctets | src/cpSerDesNative.cpp:149-246 | how the octets of any datum are made of those: an attribute with a greater number follows the others, and is missing if one of them is inert; sub-data follow in order; an empty datum is a2 a3 |
| NativeWire.PackageOctets | src/cpSerDesNative.cpp:83-145 | a package is 88 a0 00, its tree, a1; the CRC trailer is a4 01, four octets, a5, the other two a4 02 a5 and a4 03 a5 |
| NativeWire.ShortestLength | src/cpSerDesNative.cpp:250-492 | no shorter octets than those written are read as a length, and no others of that number are |
| NativeWire.NumberOctets | src/cpSerDesNative.cpp:286-412 | numbers are written with the big-endian helpers, 64 bits as two halves, the high one first |
| NativeWire.ValueRead | src/cpSerDesNative.cpp:697-817 | what any octets mean behind each type octet, by its number: value and signedness, any octet but 0 is true, failure exactly if there are too few octets or the type is 0 or above 14 |
| NativeWire.BlockRead | src/cpSerDesNative.cpp:442-693 | which octets are the length and the contents of a string or blob, and when there is none |
| NativeWire.TextRead | src/cpSerDesNative.cpp:637-667 | a string that is read ends before its first zero octet |
| NativeWire.AttributeRead | src/cpSerDesNative.cpp:853-952 | each attribute marker, by its number, sets that attribute of the innermost open datum to the value behind it |
| NativeWire.MarkerRead | src/cpSerDesNative.cpp:853-952 | what each other octet does, by its number: a1 ends the package, a2 opens a datum, a3 closes the innermost but never the root, a4 and a5 are skipped, all others fail |
| NativeWire.PackageRead | src/cpSerDesNative.cpp:820-850 | a package is read exactly behind 88 a0 and any version octet |
| NativeFormat.Elements | src/cpSerDesNative.cpp:853-952 | each pass consumes input, and the stack of open data never becomes empty |
| NativeFormat.TrailerAccepted | src/cpSerDesNative.cpp:104-1005 | of the trailers that an encoder writes, one is accepted if and only if it is a CRC trailer with the CRC that the receiver computes |
| NativeEncoder.Encode | src/cpDatum.cpp:1021-1040 | appends the encoding of the tree, whose octets `NativeWire.DatumOctets` spells out, and counts as success even if an inert value cut the attributes short |
| NativeEncoder.Start | src/cpSerDesNative.cpp:149-234 | appends the start marker and the attributes in the order of their types, up to and including the type of an inert one; true exactly if none is inert; `NativeWire.AttributeOctets` says which octets these are |
| NativeEncoder.LenInsert | src/cpSerDesNative.cpp:250-271 | one, three or five octets; from 2^32 on truncated |
| NativeEncoder.UintInsert | src/cpSerDesNative.cpp:286-412 | the octets of a number, most significant first |
| NativeEncoder.BlockInsert | src/cpSerDesNative.cpp:416-438 | the length and the octets |
| NativeEncoder.BodyInsert | src/cpSerDesNative.cpp:164-228 | the value as its type demands; false exactly for an inert one |
| NativeEncoder.Open | src/cpSerDesNative.cpp:83-100 | the stream is emptied and holds the header |
| NativeEncoder.Close | src/cpSerDesNative.cpp:104-145 | appends the end marker and the requested trailer, whose CRC is the cascade over the blocks that hold all octets before it |
| NativeEncoder.EncodeStream | src/cpDatum.cpp:775-806 | the stream holds the package and its trailer; the result is always true; a segment stream is left ready to be finalized |
| NativeDecoder.SerDesNative.Decode | src/cpSerDes.cpp:82-111 | succeeds exactly on an accepted package, then the datum holds the decoded tree and the stack has the depth of what was left open; on failure it has no sub-data and no attribute but possibly a name; the stream is unchanged and every input terminates |
| NativeDecoder.SerDesNative.ExecDecodeState | src/cpSerDes.cpp:154-202 | each step moves on in the order of the states, or fails and the package is not accepted |
| NativeDecoder.SerDesNative.DecodeElement | src/cpSerDesNative.cpp:853-952 | the loop with its stack of objects computes the element function, and the objects hold the open trees |
| NativeDecoder.DecodeChecksum | src/cpSerDesNative.cpp:955-1005 | true exactly if the trailer is accepted for the CRC of the octets before it |
| NativeDecoder.DecodeIdent | src/cpSerDesNative.cpp:820-838 | true exactly on the magic and the package marker |
| NativeDecoder.VariantExtract | src/cpSerDesNative.cpp:697-817 | the value that the octets encode for this type, or failure, as spelt out in `NativeWire.ValueRead` |
| NativeDecoder.LenExtract | src/cpSerDesNative.cpp:442-492 | the length, or failure on a missing octet or an invalid first one |
| NativeDecoder.UintExtract | src/cpSerDesNative.cpp:507-633 | the big-endian number in the next n octets, failure if there are fewer |
| NativeDecoder.BlockExtract | src/cpSerDesNative.cpp:637-693 | the block, failure if it is cut short |
| DatumTree.Datum.Add | src/cpDatum.cpp:923-963 | a new anonymous last sub-datum, which becomes current |
| DatumTree.Datum.Clear | src/cpDatum.cpp:748-758 | nothing remains but the name |
| DatumTree.OpenPopped | src/cpSerDesNative.cpp:907-914 | the end marker turns the innermost open object into a finished sub-datum of the next |
| DatumTree.OpenCollapses | src/cpSerDesNative.cpp:853-952 | whatever is still open at the end is part of the tree under the outermost object |
| DatumTransfer.CheckedExactly | src/cpSerDesNative.cpp:104-1005 | an encoded package with its CRC is accepted, whatever blocks sender and receiver have, if and only if the octets between the last fresh starts of their two cascades have the CRC 0 |
| DatumTransfer.IntactButRejected | src/cpSerDesNative.cpp:955-1005 | packages of 1003 octets that are written to one block, arrive intact in segments, and are rejected |
| DatumTransfer.SameBlocksAccept | src/cpSerDesNative.cpp:955-1005 | with the same blocks, and any behind them, it is accepted |
| DatumTransfer.CheckedRoundTrip | src/cpSerDesNative.cpp:955-1005 | with any blocks on either side it is accepted and decoded to the tree if no boundary follows octets whose CRC is 0xffffffff |
| DatumTransfer.DamageIsRejected | src/cpSerDesNative.cpp:955-1005 | a package damaged within four octets in a row that still ends in the same place is not accepted, if the receiver's cascade is the CRC of what arrived |
| DatumTransfer.TrailerDamage | src/cpSerDesNative.cpp:955-1005 | one wrong octet in the trailer goes unnoticed if and only if it is the end marker or the type and not one of the digests' types; a wrong type switches the check off, whatever the CRC is |
| DatumTransfer.SendDat | src/cpIpcNode.cpp:269-309 | the queue receives exactly the fragments of the encoded tree |
| DatumTransfer.ReceiveDat | src/cpIpcStreamSeg.cpp:84-113 | the datum decoded from delivered segments holds the tree that was sent |
| DatumCursor.IterationVisits | src/cpDatum.cpp:1044-1097 | from a rewound cursor the k-th recursive advance reaches the k-th descendant in pre-order; after the last one it fails, and keeps failing |
| DatumCursor.AdvanceVisits | src/cpDatum.cpp:1044-1097 | from any state of the cursors, an advance moves to the first datum not yet reached |
| DatumCursor.PreOrderHasAll | src/cpDatum.cpp:1044-1097 | every descendant is visited |
| DatumCursor.PreOrderOnce | src/cpDatum.cpp:1044-1097 | none is visited twice |
| DatumCursor.PreOrderSize | src/cpDatum.cpp:1044-1097 | the number of successful advances is the number of descendants |
| DatumCursor.NextsVisit | src/cpDatum.cpp:1044-1097 | from a rewound cursor the k-th advance that does not recurse, which is `Next`, reaches the k-th sub-datum whatever lies below the others, succeeds exactly up to their number, and then leaves the cursor at the end |
| DatumCursor.NextVisits | src/cpDatum.cpp:1080-1084 | from any state below a sub-datum such an advance leaves it for the next one, which is rewound, so that recursive advances then visit what is below that one |
| DatumCursor.Advance | src/cpDatum.cpp:1044-1097 | the method on the objects, recursive or not, moves their cursors as the function says and touches nothing else |
| DatumCursor.GetRecursive | src/cpDatum.cpp:229-244 | the object at the cursor's position, null at the end |
| DatumCursor.Rewind | src/cpDatum.cpp:730-744 | the cursor is on the datum itself; true exactly if there are sub-data |
| DatumCursor.Increment | src/cpDatum.cpp:412-420 | returns the next descendant in pre-order, null when there is none |
| MemManager.MemManager.MemBlockGet | src/cpMemMgr.cpp:347-396 | hands out a block that no client holds: the first free one of the first pool that fits, a new one if that pool is empty and may grow, or one from the heap if no pool fits; fails exactly if the pool is empty and may not grow, and then changes only the count of failures; all accounts stay in order |
| MemManager.MemManager.MemBlockPut | src/cpMemMgr.cpp:400-463 | null is accepted and a block that no client holds refused, so also a second return; a pooled block goes to the end of the list of the pool it came from, a heap block is deleted; a heap block that a pool created later could have held is put in that pool's list, which does not own it, or, if the size differs, refused with its guard removed |
| MemManager.LatePool | src/cpMemMgr.cpp:400-592 | both happen: a block is taken from the heap, a pool is created, the block is returned |
| MemManager.PoolServes | src/cpMemMgr.cpp:92-181 | of any requests that fit the blocks of the only pool of a new manager, exactly the first so many are served as it was created with when it may not grow, and all when it may |
| MemManager.MemManager.CreatePool | src/cpMemMgr.cpp:525-592 | refused exactly if the size, at least 16, exists; otherwise the pool is put in its place with exactly the requested number of blocks, new and free, and the requested growth, and every client's block can be returned properly if and only if that was so before and no client holds a heap block that the new pool could have held |
| MemManager.MemManager.PoolGet | src/cpMemMgr.cpp:614-632 | the first pool whose blocks are large enough |
| MemManager.MemManager.GuardTells | src/cpMemMgr.cpp:415-421 | a block is guarded if and only if a client holds it |
| MemPool.MemPool.MemBlockGet | src/cpMemMgr.cpp:128-181 | takes the head of the free list, growing the pool when it is empty; fails exactly if it is empty and may not grow; deployed blocks gain that one; when it grows, all new blocks but that one are free |
| MemPool.MemPool.constructor | src/cpMemMgr.cpp:92-110 | a new pool has exactly the requested number of blocks, all free |
| MemPool.MemPool.MemBlockPut | src/cpMemMgr.cpp:185-231 | appends a block of the right size to the free list, wherever it came from, and refuses null and other sizes; the pool stays in order if and only if the block was its own |
| MemPool.MemPool.AllocateSegment | src/cpMemMgr.cpp:260-321 | the free list gains the requested number of new blocks, which lie inside one segment and apart from all others; the deployed blocks are unchanged |
| MemPool.MemPool.Carve | src/cpMemMgr.cpp:299-317 | one block: inside its segment, apart from the others, counted and free |
| ItcQueue.EveryRunIsSafe | src/cpItcQueue.cpp:61-92 | in every interleaving: put count, get count and calls in flight sum to the depth; the deque never exceeds it; no `Get` takes the front of an empty deque; no `Give` is lost at its maximum; elements leave in the order in which they came |
| ItcCalls.CallChangesOnce | src/cpItcQueue.cpp:61-92 | every call that returns has changed the deque in exactly one of its steps: a `Put` appended its argument, a `Get` removed the front element, which it hands to its caller |
| ItcCalls.NthGetNthPut | src/cpItcQueue.cpp:61-92 | the `Get` that removes the n-th element returns the argument of the `Put` that appended the n-th: results in the order of removal are a prefix of arguments in the order of appending |
| ItcCalls.FirstInFirstOut | src/cpItcQueue.cpp:61-92 | what was appended is what was removed followed by what is in the deque |
| ItcCalls.RunHasMoves | src/cpItcQueue.cpp:61-92 | these hold in every run: its steps are moves of threads in calls |
| ItcQueue.WhenQuiet | src/cpItcQueue.cpp:61-92 | with no call under way the semaphores count free and used places exactly |
| ItcQueue.CallsProceed | src/cpItcQueue.cpp:61-92 | some call under way can always take a step |
| TransmitSignal.NoLostWakeup | src/cpIpcNodeUtil.cpp:315-438 | in every interleaving of any number of senders with the transmit thread, a non-empty queue means that the semaphore is signalled, will be by a sender, or the transmit thread has still to look; queued segments are taken or still there |
| TransmitSignal.AsleepMeansDone | src/cpIpcNodeUtil.cpp:315-438 | when nothing but new messages can happen, everything queued was taken |
| TransmitSignal.AllServed | src/cpIpcNodeUtil.cpp:315-438 | then the transmit thread has been given as many segments as all messages that were ever submitted have |
| TransmitSignal.Conserved | src/cpIpcNodeUtil.cpp:315-438 | in every state the segments of the messages submitted are with their senders, in the queue, or were given to the transmit thread |
| ThreadSuspend.SettledOutside | src/cpThread.cpp:82-137 | with the state mutex free, a suspended thread has no token, and a poller of a running thread is not blocked |
| ThreadSuspend.CallTakesEffect | src/cpThread.cpp:82-137 | when a call returns, the thread is suspended without a token after `Suspend`, and running and not blocked after `Resume` or `ExitReq`; from an `ExitReq` on the exit flag stays set |
| ThreadSuspend.CallKept | src/cpThread.cpp:82-137 | a controller goes through the steps of the call that it began, and no step changes another controller |
| ThreadSuspend.PassNeedsResume | src/cpThread.cpp:82-208 | after `Suspend` has returned, whenever the poller has not passed yet and passes later, a later step of a `Resume` or an `ExitReq` has ended the suspension in between |
| ThreadSuspend.NoPassWhileSuspended | src/cpThread.cpp:192-208 | from the return of `Suspend` on, as long as the thread stays suspended, there is no token, and no poll ends but one that was already returning |
| ThreadSuspend.OverlappingPollPasses | src/cpThread.cpp:100-115 | a poll that overlaps `Suspend` can take an older token and pass while the thread is suspended |
| PermuteArgs.PermuteArgs | platforms/aix/getopt_long.c:133-163 | turns A B into B A in place, keeping the order inside each block and everything outside |
| PermuteArgs.ExchangeTwice | platforms/aix/getopt_long.c:128-132 | exchanging back restores the array, and no entry is lost or duplicated |
| PermuteArgs.OrbitOf | platforms/aix/getopt_long.c:148-163 | the cycle from each start has the computed length and is exactly one residue class modulo the gcd, so the cycles are disjoint and cover the range |
| PermuteArgs.ExchangeCycle | platforms/aix/getopt_long.c:148-162 | the inner loop moves every entry of one cycle to its place and no other |
| PermuteArgs.Gcd | platforms/aix/getopt_long.c:113-126 | terminates with a positive common divisor that is an integer combination of both numbers |
| PermuteArgs.GcdIsGreatest | platforms/aix/getopt_long.c:110-126 | such a divisor is divided by every common divisor |
| Paths.Tokenize | src/cpUtil.cpp:402-435 | terminates with the tokens for every non-empty delimiter |
| Paths.TokensJoin | src/cpUtil.cpp:402-435 | no token contains the delimiter, and the tokens joined by it are the input up to one delimiter at its end |
| Paths.TokensExactly | src/cpUtil.cpp:402-435 | the only list of pieces of which every one ends at the first delimiter behind its start, and a last one without a delimiter is not empty |
| Paths.NormalizePath | src/cpUtil.cpp:1185-1221 | renders the components that remain when relative ones are resolved, as `Paths.RelativeComponents` says |
| Paths.RelativeComponents | src/cpUtil.cpp:1194-1212 | ".." takes back the component in front of it, or nothing at the root; "." and an empty one stand for nothing; any other is kept |
| Paths.NormalizedEnds | src/cpUtil.cpp:1185-1221 | for every path: a component behind it is added to the result, ".." behind that removes it again, and "." or a separator changes nothing |
| Paths.NormalizedIsNormal | src/cpUtil.cpp:1185-1221 | the result has no empty, "." or ".." component, and normalizing again changes nothing |
| Paths.RelativeIsLost | src/cpUtil.cpp:1185-1221 | a relative path gives the same result as the absolute one with its components; the result is empty or begins with a separator |
| HexIo.HexEncode | src/cpHexIo.cpp:56-97 | the output and the counters left for the next call are those of the printing function, started afresh unless preserved |
| HexIo.HexDecode | src/cpHexIo.cpp:101-148 | the octets that the text yields, all of them: the buffer is never too small |
| HexLayout.TextIs | src/cpHexIo.cpp:56-216 | the whole output for any input and format: opening, two lower-case digits an octet, what stands between each two octets by their number alone, and the end; a line is broken behind every so many groups, and before the first octet if not even one group fits |
| HexLayout.DefaultText | src/cpHexIo.cpp:56-97 | the output for eight octets in the default format, character by character |
| HexLayout.DecodedPairs | src/cpHexIo.cpp:101-148 | of a text without an x each two digits make an octet, whatever stands between them, and an odd one is dropped |
| HexLayout.PrefixSkipped | src/cpHexIo.cpp:117-122 | an x is skipped, and a zero that begins an octet in front of it |
| HexLayout.DigitTable | src/cpHexIo.cpp:105 | which characters are digits, and their values in both cases |
| HexIo.HexRoundTrip | src/cpHexIo.cpp:56-148 | parsing what was printed gives back the octets for every format whose separator and suffix have no hex digit and whose prefix has none or is the C prefix |
| HexIo.ChunksAreOne | src/cpHexIo.cpp:56-97 | encoding chunk after chunk with preserved counters, the final pass only on the last, is encoding all at once |
| HexLines.LineLimit | src/cpHexIo.cpp:56-216 | for every format without line feeds: all lines of every output are within the maximum if and only if a line with as many groups as the printer puts on one is; if a single group fits, no line is too long by more than the separator |
| HexLines.TooLongAt | src/cpHexIo.cpp:177-200 | equivalently, there is no number of groups behind which there is room for a group but not for the separator in front of it |
| HexLines.PrintedLines | src/cpHexIo.cpp:152-216 | the line length that the printer keeps is the length of the last line of its output |
| HexLines.LongestIs | src/cpHexIo.cpp:177-200 | what the length of the longest line means: it bounds every stretch without a line feed and is attained |
| HexLines.LineMayBeLonger | src/cpUtil.h:82 | an input whose line has eight characters under a maximum of seven |

## Left out

- Sockets, devices, routers, contexts and dispatchers: the transport is the sequence of segment images, and delivery ends where the accumulator thread notifies the node.
- Accumulator expiry, the NULL entries that release a thread, and the destructors: shutdown paths.
- Failed allocation: every request for memory from the system is granted.
- MemManager.MemManager.MemBlockGet: when it gets no block, the source then marks, through the caller's pointer, whatever block that points to, or dereferences null; the model marks nothing.
- Virtual methods: the two block providers are one class with a constant that selects between them. `StreamBase.ArrayWr` and its relatives exist once.
- Segment buffers and stream blocks are sequences stored in fields of their objects and reassigned; aliasing into the middle of a buffer is not modelled. The free list's link, which the source keeps inside the data of a free block, is a field of its own, so a client that writes to a block after returning it is not modelled.
- Accum.IpcAccum.SubmitSegment: requires a segment that is not linked and not yet in the list; the source would corrupt its list otherwise. Lost or duplicated segments are outside the delivery theorems, since completion compares counts only.
- MemPool.MemPool.AllocateSegment: alignment and the exact header sizes of a platform are not modelled; the header sizes are those of a 64-bit layout, and the heap may put a segment anywhere beside the others of the pool.
- MemManager.MemManager.MemBlockPut: requires a block whose memory still exists, since returning a heap block that was already deleted reads freed memory in the source, and accounts that are in order; what later calls do after a misplaced block was returned is not stated.
- Inert data and the encoders other than the native one, the detection of an encoding, `Select`, `Erase` and named `Add`.
- Numbers in a variant are held by their bit patterns; floating-point meaning and conversions between types are not modelled. The text of a name that is not a string is a parameter.
- The member `m_PtrStream` of the serializers is a parameter; the checks for a null stream are not modelled.
- The version octet is always 0 on encoding and ignored on decoding, as in the source.
- In the step systems a blocked call is a step that is not enabled; time-outs, which change nothing, are not steps. `ItcQueue::m_Depth`, which is never initialised, is not modelled.
- ItcQueue.EveryRunIsSafe: fairness is not modelled; that a particular waiting thread is served is not stated.
- PermuteArgs.PermuteArgs: requires a non-empty option block, because the source divides by the gcd of a call with a zero divisor otherwise.
- Paths.Tokenize: requires a non-empty delimiter, since the source does not terminate for an empty one. The path separator is that of the POSIX platform.
- ReplaceSubString, which need not terminate, the trimming and case helpers, and the 16-bit CRC.
