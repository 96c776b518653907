# CAPWAP: a verified model

A Dafny model of the CAPWAP implementation (AC and WTP) and proofs about it.
The wire format is that of RFC 5415: section 3.4 (fragmentation and
reassembly), section 4.3 (CAPWAP header), section 4.5.1 (control header) and
section 4.6 (message elements).

Each module follows a part of the program. Code that updates buffers, lists,
globals or files in place is a class or a method with loops; each such method
is proved against a function of the inputs or of the old state, and the
promises are proved about those functions, over every input and every run.

| module | what it models |
|---|---|
| `Wire` | `CWProtocolMessage`: the buffer and offset behind every Store* and Retrieve* |
| `BitFields` | the `CWSetField32` and `CWGetField32` macros on 32-bit words |
| `TransportHeader` | the transport header and its wireless binding, built and parsed field by field |
| `CWList` | the linked list that holds fragments |
| `Fragmentation` | the PMTU arithmetic and the cutting of a message into datagrams |
| `Sender` | identifier counters, message elements, `CWAssembleMessage`, `CWAssembleDataMessage` |
| `Reassembly` | what one call of `CWProtocolParseFragment` does to the list, as a function |
| `Receiver` | the code of `CWProtocolParseFragment` on its buffer and list |
| `Integrity` | reassembly over whole runs: what is returned was sent, and all that was sent is returned |
| `Provenance` | what a returned message is made of when anything at all arrives |
| `ControlMessage` | control header, walk over the elements, the round trip of a control message |
| `TwoPass` | the parsers that count elements in one pass and fill arrays in a second |
| `MessageContents` | which messages those parsers accept, by element types, and what their senders put in them |
| `VendorInfo` | vendor entries nested in the AC descriptor, WTP descriptor and board data |
| `Timers` | the timer queue of `CWTimer.h` |
| `Sessions` | the AC's session slots and counters under every interleaving of its threads |
| `Responses` | how the AC matches responses to its requests, over slot reuse |
| `SafeList` | the packet deque between the AC's threads |
| `Firmware` | the WTP's firmware update receiver and the AC's encoding of its messages |

A parser that would read outside its buffer is said to do so (`Outside`), and
nothing more is said of it: the source does not guard these reads. Well-formed
input never leads there, in a buffer that ends where the message ends.

Promises that the code does not keep are stated with the exact condition
under which it keeps them, and an input that shows the failure:

- The offset walk ends unless it comes to stand on a fragment that is not the
  last and carries fewer than 8 bytes, and it stays within its buffer unless
  that fragment has bytes (`Reassembly.StallsExactly`,
  `Reassembly.WalkFitsBuffer`); three datagrams lead there
  (`Integrity.DatagramsStall`). The senders cut no such fragment.
- Reassembly returns what was sent if messages in flight have distinct wire IDs;
  any two messages of two fragments that share one are mixed up
  (`Integrity.Integrity`, `Integrity.ReusedIdMixes`). What is returned in
  general is stated exactly (`Provenance.ReturnedExactly`).
- Offsets on the wire are right exactly when the last fragment starts below
  65536 bytes (`Fragmentation.OffsetsFitExactly`, `Fragmentation.OffsetWraps`).
- The data rate in the binding header survives exactly when its low byte is
  zero (`TransportHeader.DataRateSurvivesExactly`).
- A frame is told from statistics exactly below a data rate of 256; for faster
  frames no kind is set, or that of statistics from 65280 on
  (`TransportHeader.KindExactly`, `TransportHeader.FastFrameUnset`).
- An empty data frame is not sent at all once the PMTU leaves room for
  fragments (`Sender.EmptyFrameIsNotSent`).
- The parsers look for as many bytes of elements as the length field of the
  control header announces exactly when the field is at least 3; below, its
  16-bit difference wraps (`TwoPass.LengthUnderflows`,
  `TwoPass.UnderflowRefused`, `TwoPass.UnderflowExample`).
- gActiveWTPs counts the active sessions exactly when no thread closed after a
  failed `CWThreadSetSpecific` (`Sessions.Conservation`,
  `Sessions.FailedStartLosesCount`).
- A receiver of firmware that is BUSY waits for more chunks exactly when the
  announced size is positive; with nothing to wait for, any fragment makes it
  READY, also a refused one (`Firmware.AlwaysConsistent`,
  `Firmware.EmptyPackageStaysBusy`, `Firmware.NothingToWaitFor`).
- A configure response with an empty list of AC addresses is refused, and no
  other that the AC sends for the WTP's number
  (`MessageContents.ConfigureRoundTrip`).
- A READY receiver has stored every chunk exactly when no number was counted
  twice and none that is of no chunk: the range test lets the number after the
  last chunk through. It holds the package exactly when nothing was stored
  behind the last chunk, that chunk was stored and the missing ones are all
  zeros (`Firmware.ReadyExactly`, `Firmware.RepeatCompletesEarly`,
  `Firmware.StrayCompletesEarly`).
- Board data are read back faithfully exactly when the entries share a vendor
  (`VendorInfo.BoardDataRoundTrip`).
- A new timer is compared rightly with the one waited for exactly when the
  32-bit clock does not wrap between their deadlines
  (`Timers.ComparisonExactly`, `Timers.ComparisonErrs`); deadlines are kept
  either way.
- The queue takes the time to be what it is exactly when it is called in time:
  with nothing pending, or less than 2^32 ticks after its last update; otherwise
  whole turns of the clock pass it by (`Timers.TimerQueue.SeenExactly`).
- With no request outstanding, the check of response types still lets through
  one even message type, 0 with number 0 (`Responses.IdleRefusesExactly`).

Where code and comments disagree the model follows the code: the comment at
CWProtocol.c:284 explains the length offset as 7 while the code adds 3, and the
comment at CWProtocol.h:122 says the L bit marks a fragment that is not the
last, where the code sets it on the last one.

## Model

| member | source | states |
|---|---|---|
| Wire.ProtocolMessage.StoreRawBytes | CWProtocol.c:76-80 | The bytes are appended at the offset, which advances past them; the buffer and what was stored stay. |
| Wire.ProtocolMessage.Store8 | CWProtocol.c:42-46 | Appends the value modulo 256. |
| Wire.ProtocolMessage.Store16 | CWProtocol.c:48-53 | Appends the low 16 bits in network order. |
| Wire.ProtocolMessage.Store32 | CWProtocol.c:55-60 | Appends the low 32 bits in network order. |
| Wire.ProtocolMessage.StoreMessage | CWProtocol.c:70-74 | Appends what another message has stored. |
| Wire.ProtocolMessage.Retrieve8 | CWProtocol.c:82-89 | Reads the byte at the offset and advances. |
| Wire.ProtocolMessage.Retrieve16 | CWProtocol.c:92-99 | Reads the network-order word at the offset and advances by 2. |
| Wire.ProtocolMessage.Retrieve32 | CWProtocol.c:102-109 | Reads the network-order word at the offset and advances by 4. |
| Wire.ProtocolMessage.RetrieveRawBytes | CWProtocol.c:126-135 | Copies out the bytes at the offset and advances past them. |
| Wire.Word16OfBytes16 | CWProtocol.c:48-99 | A stored 16-bit word is read back modulo 2^16 wherever it lies. |
| Wire.Word32OfBytes32 | CWProtocol.c:55-109 | A stored 32-bit word is read back modulo 2^32 wherever it lies. |
| BitFields.SetAppends | CWProtocol.h:41 | Or-ing a field into a word whose remaining bits are zero adds it in its place and leaves the later bits zero: fields are disjoint. |
| BitFields.GetReadsBack | CWProtocol.h:42 | A field reads back the value modulo its width whatever was written before and after it. |
| TransportHeader.AssembleTransportHeader | CWProtocol.c:165-273 | Setting the fields one by one yields the words of the stated layout, with the binding words behind them if there is a binding. |
| TransportHeader.AssembleTransportHeaderBinding | CWBinding.c:139-193 | Appends the two binding words of the stated layout. |
| TransportHeader.ParseTransportHeader | CWProtocol.c:674-738 | Computes the header function; the offset stops behind the header; the data flag is set exactly when the version is right and a binding is announced. |
| TransportHeader.ParseTransportHeaderBinding | CWBinding.c:196-252 | Computes RSSI, SNR, rate and data kind from the two words, or INVALID_FORMAT for a wrong length. |
| TransportHeader.ParseInvertsAssemble | CWProtocol.c:165-273 | Parsing an assembled header returns every field modulo its width, the payload starts right behind it, and the data flag tells a binding. |
| TransportHeader.HeaderLayout | CWProtocol.c:165-273 | Every byte of an assembled header, binding included, is the one section 4.3 of RFC 5415 prescribes for the values given. |
| TransportHeader.ReservedRead | CWProtocol.c:193-262 | Radio ID 0, binding ID 1, and M and all reserved bits clear are read back from every assembled header. |
| TransportHeader.ParsedFromBytes | CWProtocol.c:674-738 | For any bytes: the header is accepted exactly with version 0 and the two header lengths the source knows, and every field is the value of its bits; the low byte of the data rate is taken from the wrong byte. |
| TransportHeader.KindsDistinguished | CWBinding.c:196-252 | Data rate -1 with SNR 1, -1 with another SNR and 0..255 come out as three different kinds. |
| TransportHeader.KindExactly | CWBinding.c:216-242 | For every 16-bit data rate and -1: a frame exactly below 256, no kind from there to 65279, statistics of either sort by the SNR above and for -1. |
| TransportHeader.FastFrameUnset | WTPFrameReceive.c:66 | A frame at 54 Mbit/s has rate 540 and is left without a kind. |
| TransportHeader.DataRateSurvivesExactly | CWBinding.c:245 | A 16-bit data rate survives exactly when its low byte is zero. |
| TransportHeader.SignalSurvives | CWBinding.h:128-132 | RSSI and SNR have the values sent in the char members they are assigned to, whether char is signed or not. |
| TransportHeader.ParseReadsHeaderOnly | CWProtocol.c:674-738 | What follows the received bytes in the buffer does not influence the header. |
| CWList.List.AddElement | CWList.c:37-56 | Adds a node at the head; the others stay linked in order. |
| CWList.List.AddElementTail | CWList.c:60-82 | Adds a node at the end of the chain. |
| CWList.List.GetFirstElem | CWList.c:85-95 | Unlinks the head and returns it. |
| CWList.List.Search | CWList.c:116-128 | Returns the first element the comparison accepts. |
| CWList.List.DeleteIn | CWList.c:132-156 | Unlinks that element and keeps the rest in order. |
| CWList.List.DeleteAll | CWList.c:159-169 | Empties the list, deleting each element once, in order. |
| CWList.List.Count | CWList.c:172-184 | Counts the elements. |
| CWList.FirstFinds | CWList.c:116-128 | A search fails exactly when nothing matches, and else returns a matching member. |
| CWList.DeletionRemovesTheFound | CWList.c:132-156 | Deletion removes the found element once and nothing else. |
| Fragmentation.CountIsPieces | CWProtocol.c:419-432 | The computed count is the number of pieces it takes to cut the message. |
| Fragmentation.CutIsExact | CWProtocol.c:462-504 | Every fragment but the last carries the full room, none is empty, and together they are the message. |
| Fragmentation.DatagramsFit | CWProtocol.c:418-503 | Room is the largest multiple of 8 the PMTU leaves, datagrams stay within PMTU less the overhead plus the header, offset fields and F and L bits are exact, and a small PMTU gives one unfragmented packet. |
| Fragmentation.OffsetsFitExactly | CWProtocol.c:469-482 | The 13-bit field holds all offsets exactly when the last fragment starts below 65536. |
| Fragmentation.OffsetWraps | CWProtocol.c:469-482 | For 65544 bytes in pieces of 8 the last offset wraps to 0. |
| Fragmentation.OffsetsFitUpTo64K | CWProtocol.c:469-482 | Messages of at most 65536 bytes never wrap. |
| Sender.IdGenerator.Get | AC.c:299-340 | Issues 0, 1, ..., max and starts over. |
| Sender.WindowDistinct | AC.c:321-340 | Any max + 1 consecutive identifiers are pairwise distinct. |
| Sender.AssembleMsgElem | CWProtocol.c:142-162 | The message becomes its type, its length and itself. |
| Sender.AssembleControlHeader | CWProtocol.c:276-289 | Type plus 256 times the enterprise number, sequence number, element length plus 3, flags 0. |
| Sender.BuildControlMessage | CWProtocol.c:370-414 | Header and elements, core then binding, stored consecutively in a buffer of exactly their size. |
| Sender.AssembleFragments | CWProtocol.c:436-504 | The loop produces exactly the datagrams of the message, in order. |
| Sender.AssembleMessage | CWProtocol.c:370-507 | The returned packets are the datagrams of the assembled control message; an identifier is drawn exactly when it is fragmented. |
| Sender.AssembleDataMessage | CWBinding.c:48-135 | The returned packets are the datagrams of the frame with its binding, and the frame with its offset is as before. |
| Sender.EmptyFrameIsNotSent | CWBinding.c:58-134 | An empty frame yields no datagram exactly when the PMTU leaves room for fragments. |
| Reassembly.ReceiveKeepsInvariant | CWProtocol.c:566-632 | After any call the list holds one fragment ID, no two fragments at one offset, and nothing or an incomplete set. |
| Reassembly.DuplicateIgnored | CWProtocol.c:566-590 | A copy of a held fragment leaves the list unchanged and asks for more. |
| Reassembly.WalkFitsBuffer | CWProtocol.c:630-668 | After a successful size test the loop copies at most the totalSize bytes allocated, in every round and whatever it ends in, exactly when it never stands on a short fragment that has bytes. |
| Reassembly.EndlessExactly | CWProtocol.c:640-668 | The walk is called endless exactly when the loop of the source never leaves. |
| Reassembly.StallsExactly | CWProtocol.c:667 | It is endless exactly when it comes to stand on a non-last fragment of fewer than 8 bytes. |
| Reassembly.WalkEnds | CWProtocol.c:640-668 | It ends whenever no held fragment is that short. |
| Reassembly.StallExample | CWProtocol.c:667 | Three fragments in a list that pass the size test and stall the walk. |
| Reassembly.CompletenessTestExact | CWProtocol.c:611-668 | For well-cut fragments that pass the size test, the walk succeeds exactly when the fragments tile the message, each used once, with length totalSize; else it reports INVALID_FORMAT; the list is empty either way. |
| Receiver.AddFragment | CWProtocol.c:566-608 | A copy is dropped, another ID replaces the list, and anything else is added at the head. |
| Receiver.ComputeTotalSize | CWProtocol.c:611-621 | The loop computes the size the last fragment announces, or 0. |
| Receiver.ComputeCurrentSize | CWProtocol.c:622-628 | The loop adds up the bytes held. |
| Receiver.FindFragment | CWProtocol.c:643-649 | The inner loop finds the first fragment at an offset. |
| Receiver.CopyFragments | CWProtocol.c:633-668 | The offset walk computes the walk function: it stays in its buffer and ends in a message, in a hole, or standing on a short fragment forever. |
| Receiver.ParseFragment | CWProtocol.c:529-671 | The code on its buffer and list computes the one-call function: new list, outcome (a call that never returns included), returned bytes and data flag. |
| Integrity.RunKeepsInvariant | CWProtocol.c:529-671 | The list invariant holds after every sequence of calls that does not stall. |
| Integrity.OnTheWire | CWProtocol.c:436-504 | The parsed header of each datagram has the type and binding of its message and, if cut, its ID, offset and L bit, and the stretch of the message that starts there follows. |
| Integrity.DatagramsStall | CWProtocol.c:529-671 | Three datagrams: an empty receiver asks for more after the first two and never returns from the third. |
| Integrity.Integrity | CWProtocol.c:529-671 | Over any loss, duplication, reordering and interleaving of the datagrams of messages with distinct wire IDs, every call waits or returns byte for byte the message its datagram belongs to. |
| Integrity.ReusedIdMixes | CWProtocol.c:592-608 | Any two messages of two fragments that share a wire ID and a fragment size: the first fragment of one and the second of the other are returned as a message. |
| Integrity.CompleteExactlyWhenAllHeld | CWProtocol.c:611-632 | A list of pieces of one message passes the size test exactly when all pieces are held. |
| Integrity.DeliveryStep | CWProtocol.c:566-668 | One delivery waits while a piece is missing and yields the message and an empty list once none is. |
| Integrity.Completeness | CWProtocol.c:566-668 | From an empty or unrelated list, delivering all fragments in any order with repetitions waits until the last missing one and then returns the exact message and empties the list. |
| Provenance.FirstsExactly | CWProtocol.c:566-608 | Keeping a fragment unless a copy is held keeps exactly the fragments that were first at their place, and takes every place at which something arrived. |
| Provenance.ListExplained | CWProtocol.c:566-608 | After any datagrams the list holds what arrived first at each place since it was begun, all of one ID. |
| Provenance.ReturnedExactly | CWProtocol.c:529-671 | Whatever datagrams arrive, a call returns a message exactly if it is the payload of an unfragmented datagram, or a chain, from offset 0 to the L bit, of the fragments that arrived first at their places since the list was begun, the one just received among the first, and the sizes agree. |
| Provenance.WindowOfOneId | CWProtocol.c:592-608 | Since the list was begun the receiver held fragments of one wire ID only, that of the fragment just received, and nothing of it before. |
| Provenance.OutcomeExactly | CWProtocol.c:529-671 | Over arbitrary traces, exactly when a call waits, refuses or never returns, and what it leaves in the list. |
| ControlMessage.ParseControlHeader | CWProtocol.c:741-765 | Reads type, sequence number and element length where the assembler put them. |
| ControlMessage.ParseFormatMsgElem | CWProtocol.c:848-853 | Reads type and length and stops at the body. |
| ControlMessage.VisitedWithin | CWProtocol.c:848-853 | A walk over elements that is done has visited nothing beyond the place where it stops. |
| ControlMessage.ControlHeaderRoundTrip | CWProtocol.c:276-289 | The control header of an assembled message parses back to what was put in. |
| ControlMessage.ScanRecovers | CWProtocol.c:848-853 | Walking an encoded list of elements finds exactly these elements, stops exactly at the end and visits nothing beyond it, whatever lies behind, also nothing. |
| ControlMessage.AssembleFromElements | WTPConfigureState.c:99-150 | From elements to packets: each element is assembled, and the packets are the datagrams of the control message whose body is the core elements followed by those of the binding. |
| ControlMessage.ControlRoundTrip | CWProtocol.c:370-507 | What AssembleFromElements made: fragment, permute, reassemble, parse and walk, in the very buffer reassembled: the same type, sequence number and elements, with the whole length consumed and nothing visited beyond it. |
| ControlMessage.CountedIdsDistinct | AC.c:321-340 | Messages that drew their IDs within 65536 draws have distinct wire IDs, as Integrity needs. |
| TwoPass.ParseElement | CWProtocol.h:65-71 | An element parser computes the reading of its element: the body if it reads exactly its length, INVALID_FORMAT, or a read outside the buffer. |
| TwoPass.ReadsItself | CWProtocol.h:65-71 | Whether a parser accepts an element that lies in the buffer depends on that element alone. |
| TwoPass.CountPass | ACRunState.c:879-942 | The first loop ends as the walk does: at a stop with the counts of the elements visited and the last body of each type it reads, at the first unknown or malformed element, or outside the buffer. |
| TwoPass.FillPass | ACRunState.c:957-986 | The second loop ends as the walk does, never writes outside the counted arrays and, if it stops, has filled all of them with the bodies in order. |
| TwoPass.ParseElements | ACRunState.c:850-986 | The two loops with the allocation between them compute the two arrays and the elements read once, or why there are none. |
| TwoPass.WalkExactly | ACRunState.c:879-986 | A pass succeeds exactly when the walk stays in the buffer and every element on it is one the pass accepts, and stops where the walk does: both passes see the same boundaries. |
| TwoPass.AcceptedExactly | ACRunState.c:850-986 | A message inside its buffer is accepted exactly when its elements end where they must and each is known and well formed, and then nothing was read beyond the end. |
| TwoPass.LengthUnderflows | CWProtocol.h:354-359 | The 16-bit length left for the elements is what the length field announces exactly when the field is at least 3. |
| TwoPass.UnderflowRefused | ACDataCheckState.c:124-156 | A message whose length field is below 3 is accepted by none of these parsers, whether it must stop at the end of the buffer or, in the Run state, where the header says, unless it is longer than 65540 bytes. |
| TwoPass.BareMessageExactly | WTPConfigureState.c:196-262 | A message without elements is accepted exactly when its length field is 3; for any other length the parser leaves the buffer. |
| TwoPass.UnderflowExample | ACDataCheckState.c:124-134 | Eight bytes with length field 0 whose parser leaves the buffer. |
| TwoPass.ParseChangeStateEventRequest | ACDataCheckState.c:101-187 | The same for the change state event request, behind its header check, with the 16-bit length of the source. |
| TwoPass.ParseConfigureResponse | WTPConfigureState.c:154-315 | The same for the configure response, with the hand-off to the binding parser when a binding element was found. |
| TwoPass.PartsIndependent | CWBinding.c:39-44 | What the core parser and the binding parser each accept and collect is the same with the other's elements taken out. |
| TwoPass.ConfigurePartition | WTPBinding.c:522-601 | In an accepted configure response both parsers see the same elements and each is read by exactly one of them. |
| TwoPass.PassBound | ACDataCheckState.c:129-183 | Every iteration reads an element header of its own, so a pass takes at most a quarter as many iterations as its buffer has bytes. |
| TwoPass.ElementsRoundTrip | ACDataCheckState.c:129-183 | Any list of known, well-formed elements is accepted, in a buffer that may end with it, and the arrays are exactly the bodies of the counted ones. |
| TwoPass.ChangeStateRoundTrip | WTPProtocol.c:454-496 | The assembled change state event request, in a buffer of exactly its size, parses back to its radios, in order, its result code and its sequence number. |
| MessageContents.ChangeStateExactly | ACDataCheckState.c:101-187 | Accepted exactly if type 11, elements ending with the message, each a radio state or result code of its size; the array holds the radio states in order. |
| MessageContents.EventRequestExactly | ACRunState.c:850-986 | Accepted exactly if the elements end at the end and each is one of the six known, of its shape; the arrays hold the operational and the radio statistics in order. |
| MessageContents.ConfigureExactly | WTPConfigureState.c:154-315 | Accepted exactly if type 6, the expected number, elements ending with the message, each one of the eight known, of its shape; the arrays hold radio states, report periods and QoS elements in order; another type or number is INVALID_FORMAT. |
| MessageContents.ConfigureRoundTrip | ACConfigureState.c:234-303 | Any configuration the AC can send is accepted exactly by a WTP waiting for its number, if neither address list is empty, and read back to its radio states, periods and QoS values, address lists, timers, idle timeout and fallback. |
| MessageContents.EventRequestRoundTrip | WTPRunState.c:740-800 | Any list of event elements, with the bodies their assemblers make, is accepted and read back to its statistics. |
| VendorInfo.AssembleACDescriptor | ACProtocol.c:95-138 | The element holds the 12 fixed bytes and every vendor entry, in a buffer of exactly that size. |
| VendorInfo.AssembleWTPDescriptor | WTPProtocol.c:192-237 | The same with its 4 fixed bytes. |
| VendorInfo.AssembleWTPBoardData | WTPProtocol.c:154-191 | One vendor identifier, then the entries without theirs; for an empty list it reads an entry that is not there. |
| VendorInfo.CountInfos | ACProtocol.c:604-613 | The counting loop computes the number of entries and where it stops, or runs out of the buffer. |
| VendorInfo.ScansAgree | ACProtocol.c:604-637 | The entries can be read exactly when the counting loop is done inside the buffer, and there are as many as it counted. |
| VendorInfo.ParseInfos | ACProtocol.c:602-637 | Counting, going back and reading: the array has one entry per step of the counting loop, and both loops stop at the same place. |
| VendorInfo.ParseACDescriptor | WTPProtocol.c:613-687 | Returns fixed fields and entries exactly when the entries lie in the buffer and end at the element's end, which is then consumed exactly. |
| VendorInfo.ParseWTPDescriptor | ACProtocol.c:587-640 | The same for the WTP descriptor. |
| VendorInfo.ParseWTPBoardData | ACProtocol.c:532-573 | The same for board data. |
| VendorInfo.InfosRoundTrip | WTPProtocol.c:644-684 | Both scans step over exactly the entries assembled, and the second reads them back, 4-byte values as numbers. |
| VendorInfo.InfosBytesOfRead | WTPProtocol.c:644-684 | Assembling what was read reproduces the bytes scanned: nothing is skipped or read twice. |
| VendorInfo.ACDescriptorRoundTrip | WTPProtocol.c:613-687 | Parsing inverts assembling and consumes exactly the element, in a buffer that may end with it. |
| VendorInfo.WTPDescriptorRoundTrip | ACProtocol.c:587-640 | Parsing inverts assembling and consumes exactly the element, in a buffer that may end with it. |
| VendorInfo.BoardDataRoundTrip | ACProtocol.c:532-573 | Parsing gives every entry the first one's vendor, so it inverts assembling exactly when all share it. |
| VendorInfo.EntriesExactly | ACProtocol.c:602-640 | A stretch of bytes is read as given entries exactly if it is their encoding. |
| VendorInfo.ACDescriptorExactly | WTPProtocol.c:613-687 | An AC descriptor is accepted with given values exactly if its bytes are theirs, but for the reserved one. |
| VendorInfo.WTPDescriptorExactly | ACProtocol.c:587-640 | The same for the WTP descriptor. |
| VendorInfo.BoardDataExactly | ACProtocol.c:532-573 | The same for board data. |
| Timers.TimerQueue.SetTimer | CWTimer.h:257-323 | Takes the first free slot, adds the absolute deadline and moves no other, in all three branches and across wraps of the clock; goes on waiting for the least deadline and calls nobody if the two deadlines compared lie in one turn of the clock. |
| Timers.TimerQueue.InstallShorter | CWTimer.h:298-310 | In the "shorter timer" branch the new timer becomes the next one; if it is the earlier one, the update fires nobody. |
| Timers.TimerQueue.CancelTimer | CWTimer.h:326-347 | The slot is empty afterwards, whether or not it was the next one; if it was, an update at the time it takes it to be follows. |
| Timers.TimerQueue.ClockInterrupt | CWTimer.h:351-362 | Calls exactly the timers due at the time it takes it to be, in slot order, keeps the other deadlines and waits for the least of them. |
| Timers.TimerQueue.UpdateAllTimersBy | CWTimer.h:364-387 | Takes the elapsed time from each timer and calls those that run out. |
| Timers.TimerQueue.ShortestTimer | CWTimer.h:388-398 | Finds a pending timer with the least timeout, or none exactly when nothing is pending. |
| Timers.ElapsedTime | CWTimer.h:358 | The elapsed time read off the 32-bit clock is right, across its wraps, exactly below 2^32 ticks, and else right modulo 2^32. |
| Timers.TimerQueue.SeenExactly | CWTimer.h:351-387 | The time an operation takes it to be is the present exactly when nothing is pending or less than 2^32 ticks have passed since the last update. |
| Timers.ComparisonExactly | CWTimer.h:298-299 | The comparison of two deadlines by their low 32 bits is right exactly when the clock does not wrap between them. |
| Timers.ComparisonErrs | CWTimer.h:298-299 | Shortly before a wrap a timer of 200 ticks passes for earlier than one due in 50. |
| Timers.DueCallsOnce | CWTimer.h:364-387 | An update calls each due timer once, with its argument, and no other. |
| Timers.DueInOrder | CWTimer.h:364-387 | The calls of an update come in the order of the slots. |
| Timers.PendingExactly | CWTimer.h:257-433 | After any run a slot holds exactly the timer set there and since neither cancelled nor due at an update, with the deadline and argument it was set with. |
| Timers.CalledExactly | CWTimer.h:351-387 | At any event of any run exactly the timers so held, and not cancelled by it, are called if it updates at or after their deadlines, each once with its argument. |
| Timers.CancelledIsGone | CWTimer.h:326-347 | After a cancel nothing is pending in the slot and it is not called, at that event or later, until it is set again. |
| Timers.OthersKeptOrDue | CWTimer.h:257-387 | A timer that an event neither sets nor cancels keeps deadline and argument, or is due, called once and gone. |
| Timers.DeadlineFixed | CWTimer.h:257-433 | Through any operations on other timers and any updates before it, a deadline stays as set. |
| Timers.QueueKeepsDeadline | CWTimer.h:257-433 | The same of the queue itself, over everything its methods have been through. |
| Timers.QueueHoldsExactly | CWTimer.h:257-433 | What the queue itself holds, exactly, from all its methods have been through. |
| Timers.QueueForgetsCancelled | CWTimer.h:326-347 | A slot of the queue cancelled and not set since is empty and has not been called since. |
| Timers.FiresOnceAtFirstUpdate | CWTimer.h:351-387 | An uncancelled timer is called exactly once, at the first update at or after its deadline, and is gone afterwards. |
| Timers.NeverEarly | CWTimer.h:351-387 | No call comes before the deadline of the timer it belongs to. |
| Sessions.Globals.ClaimSlot | ACMainLoop.c:222-229 | The loop claims the first free slot, or finds that there is none. |
| Sessions.Globals.FreeSlot | ACMainLoop.c:790-792 | Gives a slot back. |
| Sessions.Globals.CountSession | ACMainLoop.c:348-358 | Increments the global count and that of the interface. |
| Sessions.Globals.BindInterface | ACMainLoop.c:362 | The slot remembers the interface. |
| Sessions.Globals.UncountSession | ACMainLoop.c:748-757 | Decrements the global count and that of the interface the slot remembers. |
| Sessions.RunKeepsInvariant | ACMainLoop.c:222-281 | Ownership, remembered interfaces and counters stay consistent under every interleaving. |
| Sessions.ThreadsFromPackets | ACMainLoop.c:222-281 | Over every run a thread's interface is that of the packet it was created for, 0 if that was negative, and its slot the one claimed then. |
| Sessions.StepsTell | ACMainLoop.c:328-795 | The steps a thread has taken tell where it is, over every run. |
| Sessions.StepsInOrder | ACMainLoop.c:342-362 | A thread can take exactly the next steps of its code. |
| Sessions.Conservation | ACMainLoop.c:737-795 | Read off any run: interface counts add up to gActiveWTPs, which is the sessions counted and not uncounted less the closes after a failed start; without such, each interface counts exactly the sessions whose packets came in on it; each other close hits the interface incremented; no slot has two owners or is free while owned. |
| Sessions.NoFailureNoUnmatched | ACMainLoop.c:342-346 | Without a failing CWThreadSetSpecific no decrement is unmatched. |
| Sessions.FailedStartLosesCount | ACMainLoop.c:342-346 | One failing start leaves the count at -1 with no session. |
| Responses.Session.SendAcknowledgedPacket | ACRetransmission.c:96-103 | The slot expects this type and number from now on. |
| Responses.Session.StopRetransmission | ACRetransmission.c:106-125 | Clears all three fields if a request is outstanding. |
| Responses.Session.ParseGenericRunMessage | ACRunState.c:514-544 | Lets a message pass exactly when its type is odd or type and number are those expected; the length of its elements is the 16-bit difference of the source. |
| Responses.Session.EnterRun | ACRunState.c:267-483 | Computes from the bytes of a control message the reaction to it and what it leaves in the slot. |
| Responses.ParseResponse | ACRunState.c:548-700 | The three parsers of responses compute the reading of the elements. |
| Responses.ResultCodesExactly | ACRunState.c:630-700 | A clear or station configuration response is accepted exactly when it is made of 8-byte groups that start with the type of a result code, whatever lengths they announce. |
| Responses.ResponseExactly | ACRunState.c:545-700 | Elements of a response are accepted exactly if their bytes are those of result codes and, in an update response, of result codes with a UCI or nonempty WUM payload. |
| Responses.ResponseAccepted | ACRunState.c:548-700 | A response of any of the three kinds with any result code is well formed, in a buffer of its size. |
| Responses.AnswerGetsThrough | ACRunState.c:275-411 | The bytes of a response to the request that is waiting are processed and leave the slot idle. |
| Responses.WaitingExactly | ACRetransmission.c:96-125 | The request computed along the run is the latest one sent and unanswered. |
| Responses.FieldsTellTheRequest | ACMainLoop.c:384-387 | Over every run and slot reuse the fields name exactly the waiting request, and without isRetransmitting the expected type is unused. |
| Responses.ProcessedExactly | ACRunState.c:275-411 | A message is processed as a response exactly when it is a well-formed response to the latest unanswered request. |
| Responses.ReactionExactly | ACRunState.c:267-544 | Over every run the exact condition of each of the six reactions: odd types are requests whatever is outstanding; the expected response is processed, malformed or overread as its elements are; type 0 number 0 slips through an idle slot; all else is refused. Only a processed response changes the slot. |
| Responses.RequestGetsThrough | ACRunState.c:528-532 | The bytes of a message of any odd type, number and body are handled as a request and leave the slot as it is. |
| Responses.AnsweredOnce | ACRunState.c:275-411 | Two messages processed as responses while the same request was the latest are the same message. |
| Responses.NoMoreResponsesThanRequests | ACRunState.c:275-411 | Processed responses plus the one awaited never outnumber the requests sent. |
| Responses.IdleRefusesExactly | ACRunState.c:528-543 | With nothing outstanding only type 0 with number 0 passes the check, and it is not processed as a response. |
| SafeList.SafeList.AddHead | CWSafeList.c:142-165 | Pushes at the head, keeping both directions of links; null data are refused. |
| SafeList.SafeList.AddTail | CWSafeList.c:212-235 | The same at the tail. |
| SafeList.SafeList.GetHead | CWSafeList.c:168-182 | Returns the head without removing it. |
| SafeList.SafeList.RemoveHead | CWSafeList.c:185-209 | Pops at the head; null means empty. |
| SafeList.SafeList.RemoveTail | CWSafeList.c:238-262 | Pops at the tail. |
| SafeList.SafeList.Clean | CWSafeList.c:265-278 | Terminates with an empty list, having deleted every element once, in order. |
| SafeList.SafeList.GetCount | CWSafeList.c:131-139 | The count is the number of elements. |
| SafeList.SafeList.FirstInFirstOut | CWSafeList.c:185-235 | A list only added to at the tail and taken from at the head has handed out what was put in, in order, up to what it still holds. |
| SafeList.SafeList.LosesNothing | CWSafeList.c:142-262 | However a list was used, what was put in was handed out or is still there, once. |
| SafeList.Fifo | CWSafeList.c:185-235 | Tail-add with head-remove is first in, first out over every sequence of operations. |
| SafeList.NothingLost | CWSafeList.c:142-262 | Over every sequence of operations, what was put in is taken out or still there, once. |
| Firmware.AssembleWum | CWVendorPayloadsAC.c:86-147 | Each message is encoded as stated, in a buffer of exactly its size; an unknown type is refused. |
| Firmware.AssembleUci | CWVendorPayloadsAC.c:59-76 | A UCI command is encoded as stated, in a buffer of exactly its size. |
| Firmware.ParseVendorPayload | CWVendorPayloadsWTP.c:68-131 | Reads an update message or a UCI command where the encoding put it; any other payload type is refused. |
| Firmware.WumRoundTrip | CWVendorPayloadsWTP.c:68-92 | Parsing inverts assembling for every message the AC can send. |
| Firmware.UciRoundTrip | CWVendorPayloadsWTP.c:48-66 | Parsing inverts assembling for every UCI command. |
| Firmware.WumExactly | CWVendorPayloadsWTP.c:68-131 | An update message is read exactly where its encoding lies. |
| Firmware.UciExactly | CWVendorPayloadsWTP.c:48-131 | A UCI command is read exactly where its encoding lies. |
| Firmware.RefusedExactly | CWVendorPayloadsWTP.c:107-131 | A payload is refused exactly if its type is neither of the two. |
| Firmware.WumReceiver.PrepareForUpdate | CWVendorPayloadsWTP.c:169-192 | Only in WAIT, and if the file opens: a fresh file, the size, the number of chunks, BUSY. |
| Firmware.WumReceiver.StoreFragment | CWVendorPayloadsWTP.c:198-229 | Only in BUSY and within the number range: writes the chunk at 4000 times its number and counts it. |
| Firmware.WumReceiver.IsComplete | CWVendorPayloadsWTP.c:234-244 | BUSY with at least as many chunks received as expected. |
| Firmware.WumReceiver.SaveWumValues | CWVendorPayloadsWTP.c:339-414 | State, file and result after each message. |
| Firmware.AlwaysConsistent | CWVendorPayloadsWTP.c:339-414 | Over all message sequences the file is open exactly in BUSY, and in BUSY fewer chunks were received than expected exactly when the size is positive. |
| Firmware.EmptyPackageStaysBusy | CWVendorPayloadsWTP.c:183-189 | An announced size of 0 is accepted and leaves the receiver BUSY waiting for nothing. |
| Firmware.NothingToWaitFor | CWVendorPayloadsWTP.c:372-383 | With nothing to wait for, any fragment makes the receiver READY, also a refused one. |
| Firmware.TotalExactly | CWVendorPayloadsWTP.c:183-186 | The number of chunks is the least that holds the size, also of a negative one. |
| Firmware.NewerExactly | CWVendorPayloadsWTP.c:271-289 | A version is newer exactly if it is greater read as one 24-bit number. |
| Firmware.UpdateExactly | CWVendorPayloadsWTP.c:353-370 | An update request succeeds exactly in WAIT, for a newer version, with room and a file, and else changes nothing. |
| Firmware.FragmentExactly | CWVendorPayloadsWTP.c:198-229 | A fragment succeeds exactly in BUSY, in range, sought and fully written; what is counted and written in either case. |
| Firmware.CommitExactly | CWVendorPayloadsWTP.c:385-398 | A commit succeeds exactly in READY and changes nothing. |
| Firmware.CancelStops | CWVendorPayloadsWTP.c:399-414 | A cancel is accepted in every state, closes and removes the file, and leaves WAIT. |
| Firmware.StateExactly | CWVendorPayloadsWTP.c:339-414 | Over every sequence of messages: WAIT without a file exactly if no announcement came since the last cancel, else at work on the first one, READY exactly if enough fragments could be stored since. |
| Firmware.ReadyIsStable | CWVendorPayloadsWTP.c:339-414 | READY is left only by a cancel, and nothing else changes the file. |
| Firmware.ChunksGather | CWVendorPayloadsWTP.c:198-244 | After any messages but a cancel, the receiver has counted the fragments in range, up to as many as chunks, and is READY exactly at the last of these; the file reaches to the farthest chunk, with their bytes in place and zeros elsewhere, or is longer than the package if bytes were stored behind it. |
| Firmware.WholeFileExactly | CWVendorPayloadsWTP.c:198-229 | A file that holds some chunks is the package exactly when the last one is among them and the missing ones are all zeros. |
| Firmware.AllStoredExactly | CWVendorPayloadsWTP.c:207-227 | As many counted numbers as chunks are those of all chunks exactly when none is repeated and none is the one after the last. |
| Firmware.ReadyExactly | CWVendorPayloadsWTP.c:198-255 | What READY means for any messages but a cancel, fragments under any numbers among them: as many in range were counted as there are chunks; every chunk was stored exactly when no counted number is repeated or beyond the chunks; the file is the package exactly when nothing lies behind it, its last chunk is there and the missing ones are zero. |
| Firmware.PackageAssembled | CWVendorPayloadsWTP.c:198-255 | Any package sent in chunks, each encoded, decoded and stored once in any order, leaves READY exactly at the last chunk with the file equal to the package. |
| Firmware.CancelRestarts | CWVendorPayloadsWTP.c:339-414 | Whatever came before, after a cancel a newer package is accepted and, its chunks stored once each, is what the READY receiver's file holds. |
| Firmware.RepeatCompletesEarly | CWVendorPayloadsWTP.c:227 | A two-chunk package with the first chunk sent twice is READY without its second part. |
| Firmware.StrayCompletesEarly | CWVendorPayloadsWTP.c:207-227 | A two-chunk package is READY after one chunk and any bytes numbered 2: no number repeats, a chunk was never stored and the file is too long. |

## Left out

- Sockets, select, DTLS, logging, drivers, packet capture, the database and the upgrade agent: I/O and foreign calls.
- Allocation never fails.
- Mutexes and conditions: the sections they guard are atomic steps of a state machine, not lock operations.
- SafeList: each operation is one step, also the two the source performs without the slot's mutex, emptying the list when a thread closes (ACMainLoop.c:787) and reading its count (ACMainLoop.c:454); what a race there does is not part of the model.
- Receiver.ParseFragment: requires a datagram as long as the header it announces, because the source reads the header without checking the length and would continue with what an earlier datagram left in its buffer.
- Timers.TimerQueue.SetTimer: requires less than 2^32 - 1 ticks, about 497 days, between the last update and the new deadline while a timer is pending, since a timeout is 32 bits wide; callbacks do not re-enter the queue.
- Timers: the default build uses timerlib instead of CWTimer.h; timerlib is not part of this model.
- Sessions: the cap of gMaxWTPs, and what happens when no slot is free; the main thread's use of a slot's packet list after it created the thread is not a step of the model.
- Responses.Session.EnterRun: what the AC does with requests of the WTP and with data messages is not modelled, nor what it does with the payload of a configuration update response.
- Responses: retransmissions, since the fragments are freed after the first send; the interface command flags.
- TwoPass: a message is its buffer; an array entry is the raw body of its element, and which member each byte goes to is a fixed layout. So is what an element read once leaves in the structure. The OFDM element, configuration update requests and the SINOIX build option are not modelled.
- Firmware.PackageAssembled: file calls succeed; seeking, short writes and a full disk are inputs of the state machine, whose effect SaveWumValues states. The commit message's agent start is not modelled, nor what the WTP does with a UCI command.
- Sender.AssembleDataMessage: the payload type of fragmented data messages is an arbitrary input, since the source never assigns it.
- The WTP's fragment counter is not reset; its low 16 bits, which the header keeps, behave like the AC's counter until it overflows.
- The Join and Configure states of the AC, discovery and its poll window, CWTimevalSubtract, configuration files, Save* functions and plain getters: not part of this model.
- Receiver: the source frees the message it reads; memory is managed here.
