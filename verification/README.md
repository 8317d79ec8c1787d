# Verified model of the debug stub, the client table and the small kernels around them

The repository is CNC firmware with the MRI debug monitor inside it. This project models the parts of
it that are hard to get right by reading, and proves what they promise for every input, every stream
and every run:

* `Crc16.dfy`: the table-driven CRC-16 (polynomial 0x1021, start 0, no reflection) equals a bit-serial
  register and polynomial long division, and its error detection. `CrcPeriod.dfy`: which pairs of
  flipped bits it sees.
* `Common.dfy`: bytes, optional values and a fact about division that all others share.
* `Hex.dfy`, `Buffers.dfy`: the character buffer with its sticky overrun and the hexadecimal readers
  and writers.
* `PacketProtocol.dfy`, `PacketSessions.dfy`, `Packets.dfy`: the packet layer of the GDB Remote Serial
  Protocol (section E.1 of "Debugging with GDB"). The first is the receiver as an automaton over single
  characters; the second is whole calls over a script of arriving characters; the third is the stub's
  own imperative code with two cursors over one array, proved to do what the first two say.
* `Mri.dfy`: building a response and sending it, whole or as the overrun error.
* `Query.dfy`, `VCont.dfy`, `Memory.dfy`: commands whose meaning spans many packets or many accesses.
* `ConfigCache.dfy`: the chain of sixteen-entry chunks as an insertion-ordered map.
* `ClientClock.dfy`, `ClientTable.dfy`: wrap-around stamps, the election of the earliest client,
  liveness over send histories, the table updated in place and the paced send.
* `AdcFilter.dfy`: the sliding window, trimmed sum and moving average of the temperature input.

Code that changes things step by step is modelled by classes and methods with loops; each method is
proved against a specification function, and the properties are lemmas about those functions.
`w` is the size of a machine word (`uintmri_t`) in bytes, 4 or 8 on the targets; the proofs hold for
every `w` their headers allow. A byte is an integer below 256. Waiting for ever on the serial link is
reading past the end of a script: a call then returns with `ok` or `done` false, and its contract says
what it has done up to there.

## Where the code does not do what it looks like, or what its text says

* **A first checksum digit may swallow a frame.** The two characters behind `#` are read without
  looking at them, so a `$` there opens no frame. After any stream whatsoever the next frame is
  received if and only if the stream did not stop right behind the `#` that closes a body
  (`ResynchronisesAfterAnyStream`; `FirstDigitSwallowsFrame` is such a stream); a second copy is then
  always received.
* **A frame that cancels a send is lost.** `Packet_SendToGDB` stops at a `$`, but the next
  `Packet_GetFromGDB` forgets it was read: the receive goes exactly as if it began behind that frame,
  while a frame behind a `+` is received (`MriCore.SendThenReceive`).
* **A body that does not fit is dropped without a `-`** (`OversizedFrameIsIgnored`).
* **Responses are sent unescaped.** They decode exactly when they hold none of `$`, `#` and `}`
  (`UnescapedFrameDecodes`), so a transfer's replies all arrive as sent exactly when the annex holds
  none (`TransferOverLink`). An altered reply need not cost the annex: `AlteredYetObtained`.
* **A part of a response may be sent as the whole.** A string written as hex, as qThreadExtraInfo does,
  is cut to what fits without an overrun. What is left is everything written if and only if that fits
  (`WritesAreKeptWhen`); `PartIsLeftWhen` says exactly when a part is left, `PartIsLeft` is an instance.
  Without such strings a response is whole or "E04" (`WritesAreAllOrNothing`).
* **Signed hexadecimal goes through `int`.** With eight-byte words the round trip holds exactly for
  values that fit 32 bits (`SignedRoundTrip`).
* **A `qXfer` reply overruns** exactly for requests of at least a whole buffer from an annex that still
  has that much to give (`TransferOverrunsWhen`).
* **A malformed `vCont` list need not be refused.** Writing the error text clears the exception that
  reported the malformed action, so the command goes on with the actions already parsed, and where
  thread states can be set it replays the list without looking at exceptions: `;c;x` thaws threads and
  resumes. `MalformedIsRefusedWhen` gives the exact condition, `BadActionReplayed` two such lists.
* **"Exactly one present client is ever earliest"** (ClientTable.h:381) fails when the stamps go round
  the counter (`NobodyEarliest`); somebody is earliest exactly when the present stamps fit half its
  range (`EarliestExistsWhen`). At most one always is.
* The comment at Adc.cpp:67 speaks of the last 8 values; the code keeps 32.

## Model

| member | source | states |
|---|---|---|
| Crc16.TableEntry | src/libs/CRC16.h:9-15 | a table entry is eight steps of the bit-serial register started from the index in its high byte |
| Crc16.MakeTable | src/libs/CRC16.h:17-23 | all 256 entries are right |
| Crc16.CcittUpdate | src/libs/CRC16.h:27-33 | for every message and every starting value, the table-driven loop gives the register fed the message bit by bit |
| Crc16.Ccitt | src/libs/CRC16.h:35 | the same from a zero register |
| Crc16.StepsAreLinear | src/libs/CRC16.h:11-13 | any number of steps is linear over xor, the reason a table works |
| Crc16.StepsAreInjective | src/libs/CRC16.h:11-13 | any number of steps keeps different registers different |
| Crc16.FeedWindow | src/libs/CRC16.h:28-31 | feeding up to sixteen bits one by one is xoring them into the top of the register and shifting |
| Crc16.FeedByteByTable | src/libs/CRC16.h:29-30 | eight bits fed are the shifted register xored with the steps of one index byte |
| Crc16.TableStep | src/libs/CRC16.h:29-30 | one round of the loop on machine words is eight bits fed |
| Crc16.CrcIsRemainder | src/libs/CRC16.h:27-33 | the register is the remainder of schoolbook division over GF(2) of start and message, for every start |
| Crc16.CrcOfMessageIsRemainder | src/libs/CRC16.h:35 | the CRC of a message is the remainder of the message times x^16 |
| Crc16.FeedIsInjective | src/libs/CRC16.h:27-33 | equal bytes after a difference never make two registers equal |
| Crc16.WindowIsInjective | src/libs/CRC16.h:27-33 | different windows of up to sixteen bits separate equal registers |
| Crc16.BurstDetected | src/libs/CRC16.h:27-33 | messages that agree outside any sixteen consecutive bits share a CRC if and only if they are equal |
| Crc16.AdjacentBytesDetected | src/libs/CRC16.h:27-33 | messages that differ inside two adjacent bytes share a CRC if and only if those bytes are equal |
| Crc16.ZeroResidue | src/libs/CRC16.h:27-35 | two bytes appended bring the register to zero if and only if they are the CRC, high byte first |
| Crc16.WordIsItsBytes | src/libs/CRC16.h:27-35 | the high and low byte of a CRC word are the bits ZeroResidue asks for |
| Crc16.OddErrorsDetected | src/libs/CRC16.h:27-33 | any odd number of flipped bits changes the CRC |
| CrcPeriod.StepsAreProduct | src/libs/CRC16.h:11-13 | n steps are multiplication by x^n modulo the generator |
| CrcPeriod.Squares | src/libs/CRC16.h:11-13 | x to the powers of two up to 32768, which is x again |
| CrcPeriod.PeriodIs32767 | src/libs/CRC16.h:11-13 | the register of one bit returns to itself exactly after the multiples of 32767 steps |
| CrcPeriod.TwoBitErrorsDetected | src/libs/CRC16.h:27-33 | two flipped bits, anywhere in any message, go unseen if and only if their distance is a multiple of 32767 |
| Hex.NibbleToHexChar | mri/core/hex_convert.h:24-25 | every digit written reads back as its nibble |
| Hex.DigitAlphabets | mri/core/hex_convert.h:24-43 | a digit is read from exactly its two characters, of the lower and the upper alphabet, and written as the lower one |
| Hex.ByteHexRoundTrip | mri/core/hex_convert.h:21-43 | every byte survives being written as two digits and read back |
| Hex.UIntegerHexRoundTrip | mri/core/buffer.c:262-282 | the digits written for a number are hex digits, stop where the next text starts, and have the number as their value |
| Hex.TopByte | mri/core/buffer.c:284-297 | the bytes written start with the highest byte that is not zero |
| Hex.HexValueNext | mri/core/buffer.c:224-245 | one digit more, in wrap-around word arithmetic, is the longer prefix's value modulo the word |
| Buffers.PutConcat | mri/core/buffer.c:95-107 | writing in two pieces equals writing the whole, overrun included |
| Buffers.UnsignedRoundTrip | mri/core/buffer.c:200-305 | every word printed is read back, with no exception and exactly its digits consumed |
| Buffers.ReadUIntegerOf | mri/core/buffer.c:200-222 | any text of hex digits, of either case and any length, is read whole and kept modulo the word, and none at all throws |
| Buffers.SignedRoundTrip | mri/core/buffer.c:308-369 | a signed word printed is read back if and only if it fits 32 bits; always with words of up to four bytes |
| Buffers.SignedCast | mri/core/buffer.c:327-343 | the range check accepts every word, and the cast keeps it exactly when it fits an int |
| Buffers.SignedRange | mri/core/buffer.c:327-343 | which magnitudes are out of range for either sign, and the limit returned for them |
| Buffers.Buffer.Init | mri/core/buffer.c:23-28 | the buffer covers the given part of the array, at its start |
| Buffers.Buffer.SetEndOfBuffer | mri/core/buffer.c:37-41 | the end moves to the cursor, and an overrun leaves it alone |
| Buffers.Buffer.Advance | mri/core/buffer.c:44-50 | the cursor never moves past the end |
| Buffers.Buffer.Require | mri/core/buffer.c:95-107 | too little room throws and leaves the overrun flagged |
| Buffers.Buffer.WriteChar | mri/core/buffer.c:85-93 | the character is appended, or the overrun flagged and no memory changed |
| Buffers.Buffer.ReadChar | mri/core/buffer.c:110-118 | the next character, or the overrun |
| Buffers.Buffer.WriteByteAsHex | mri/core/buffer.c:121-130 | both digits are appended, or nothing and the overrun |
| Buffers.Buffer.ReadByteAsHex | mri/core/buffer.c:133-154 | the byte two digits spell; a bad digit throws and consumes nothing; too little text overruns |
| Buffers.Buffer.WriteSizedString | mri/core/buffer.c:163-172 | all of the string is appended, or nothing and the overrun |
| Buffers.Buffer.WriteSizedStringAsHex | mri/core/buffer.c:181-194 | as many leading characters as fit are appended as hex, their number returned, and no overrun raised |
| Buffers.Buffer.WriteUIntegerAsHex | mri/core/buffer.c:262-305 | the number's digits are appended, or an overrun is left; throws exactly when they do not fit |
| Buffers.Buffer.CountLeadingZeroBytes | mri/core/buffer.c:284-297 | the bytes above the number's own |
| Buffers.Buffer.ParseNextHexDigit | mri/core/buffer.c:224-251 | one digit is consumed and pushed into the word, or the text is left as it was |
| Buffers.Buffer.ReadUIntegerAsHex | mri/core/buffer.c:200-257 | longest hex prefix consumed, its value modulo the word returned, throws exactly when empty, no overrun left |
| Buffers.Buffer.WriteIntegerAsHex | mri/core/buffer.c:347-369 | sign and digits are appended, or an overrun is left |
| Buffers.Buffer.ReadIntegerAsHex | mri/core/buffer.c:309-343 | value, exception and text consumed, for every text |
| Buffers.Buffer.IsNextCharEqualTo | mri/core/buffer.c:375-405 | consumes the character exactly when it matches; throws on an empty rest without flagging an overrun |
| Buffers.Buffer.MatchesString | mri/core/buffer.c:419-450 | matches exactly a keyword that ends the text or is followed by a colon, semicolon or comma |
| PacketProtocol.UnescapeUndoesEscape | mri/core/packet.c:119-126 | escaping leaves no frame character in the body, and the receiver's unescaping recovers every payload |
| PacketProtocol.FlipIsXor | mri/core/packet.c:150-153 | unescaping a character is the exclusive or with 0x20 |
| PacketProtocol.SumIsTotal | mri/core/packet.c:135-143 | the checksum is the ordinary total of the bytes modulo 256 |
| PacketProtocol.FrameSpellsTotal | mri/core/packet.c:218-252 | a frame is `$`, the body, `#` and two lower-case digits that spell the total of the body modulo 256 |
| PacketProtocol.OneByteAltersSum | mri/core/packet.c:140-143 | one altered byte alters the checksum, whatever surrounds it |
| PacketProtocol.RunConcat | mri/core/packet.c:93-133 | a stream may be received in pieces |
| PacketProtocol.RunRaw | mri/core/packet.c:109-133 | the state after any body: its unescaped data and sum, or hunting again when it does not fit |
| PacketProtocol.RunFrame | mri/core/packet.c:80-91 | every frame within capacity is received whole, with the checksum it announces |
| PacketProtocol.Resynchronises | mri/core/packet.c:80-133 | from every receiver state, one frame brings the receiver back to hunting, and which frames it yields |
| PacketProtocol.ResynchronisesAfterAnyStream | mri/core/packet.c:80-173 | after any stream the next frame is received if and only if the stream did not stop behind the `#` of a body; two copies always arrive |
| PacketProtocol.FirstDigitSwallowsFrame | mri/core/packet.c:155-160 | a stream after which the next frame is not received, for every payload |
| PacketProtocol.StateIsExplained | mri/core/packet.c:93-173 | every receiver state is accounted for by a `$` and a raw body really on the wire |
| PacketSessions.NextFrameIsRun | mri/core/packet.c:80-91 | reading for one frame is a run of the automaton that yields exactly that frame |
| PacketSessions.AnswersAreNaksThenOneAck | mri/core/packet.c:45-78 | a call answers some number of `-` and then exactly one `+`, or only `-` while it still waits |
| PacketSessions.AcceptedIsGenuine | mri/core/packet.c:45-78 | the frame accepted is the last text consumed: `$`, body, `#` and two hex digits spelling the total of the body modulo 256; the payload is that body unescaped |
| PacketSessions.AcceptedWhenDigitsSpellTotal | mri/core/packet.c:45-78 | any frame alone in the queue whose body fits is accepted if and only if its digits spell that total, and answered `-` otherwise |
| PacketSessions.CompletedIsGenuine | mri/core/packet.c:155-178 | a frame with a digit that is not hexadecimal is never valid |
| PacketSessions.GoodFrameIsAccepted | mri/core/packet.c:45-78 | a frame alone in the queue is acknowledged and its payload delivered |
| PacketSessions.DamagedFrameIsRepaired | mri/core/packet.c:64-78 | a damaged body or digit is answered `-`, and the retransmission is accepted |
| PacketSessions.TwoCopiesDeliver | mri/core/packet.c:45-133 | from every receiver state two copies deliver the payload, queued together or not; the first is taken unless a first digit was awaited or the second is queued behind it |
| PacketSessions.SwallowedFrame | mri/core/packet.c:155-173 | where the swallowed frame leaves the call: at most one `-`, hunting behind it |
| PacketSessions.OversizedFrameIsIgnored | mri/core/packet.c:116-132 | a body that does not fit is skipped without an answer |
| PacketSessions.FrameCompletesWhenItFits | mri/core/packet.c:116-132 | a frame is completed by its own last digit if and only if its body fits |
| PacketSessions.UnescapedFrameDecodes | mri/core/packet.c:218-252 | the stub's own frame decodes to its payload, and delivers exactly it, if and only if no character of it needs escaping |
| Packets.Link.SendBuffer | mri/core/packet.c:276-280 | exactly the rest of the buffer is sent |
| Packets.Packet.Init | mri/core/packet.c:23-27 | the data area lies inside the packet area, one byte before it and three behind |
| Packets.Packet.InitPacketStructure | mri/core/packet.c:56-62 | last character and checksums are cleared and the packet cursor is at its start |
| Packets.Packet.GetNextCharFromGdb | mri/core/packet.c:102-107 | the next character of the script, remembered |
| Packets.Packet.WaitForStartOfNextPacket | mri/core/packet.c:93-100 | everything up to the next `$` is skipped, starting with the character in hand |
| Packets.Packet.UpdateAndUnescape | mri/core/packet.c:118-126 | one body character or escape moves the automaton as specified, a frame character inside an escape included |
| Packets.Packet.GetPacketData | mri/core/packet.c:109-133 | the loop follows the automaton; the buffer never overruns and memory outside it is untouched |
| Packets.Packet.ExtractExpectedChecksum | mri/core/packet.c:155-173 | the announced checksum, forced to differ when a digit is bad |
| Packets.Packet.GetPacketDataAndExpectedChecksum | mri/core/packet.c:80-91 | the frame in hand is the next one the automaton yields |
| Packets.Packet.GetMostRecentPacket | mri/core/packet.c:64-78 | frames with more data queued behind them are dropped; one answer is sent for the last |
| Packets.Packet.GetFromGDB | mri/core/packet.c:45-54 | answers sent, payload left readable in the buffer and characters consumed are those of the specified session; the text consumed ends in a frame whose digits spell the total of its body; memory outside is untouched |
| Packets.Packet.ResetBufferToEnableFutureReading | mri/core/packet.c:190-194 | what was received is what can be read next |
| Packets.Packet.StorePacketHeaderByte | mri/core/packet.c:231-234 | only the byte before the data changes |
| Packets.Packet.ProcessPacketData | mri/core/packet.c:236-246 | the total of the data modulo 256, where it lies, and the packet cursor behind it |
| Packets.Packet.StorePacketChecksum | mri/core/packet.c:248-252 | only the three bytes behind the data change |
| Packets.Packet.CompletePacket | mri/core/packet.c:218-229 | the array holds `$`, the unmoved data, `#` and its checksum, and nothing else moved |
| Packets.BuiltInPlace | mri/core/packet.c:218-252 | the three stores around any data make exactly its frame |
| Packets.Packet.ReceiveCharAfterSkippingControlC | mri/core/packet.c:260-273 | control-Cs are skipped and flagged, nothing else |
| Packets.Packet.Retransmit | mri/core/packet.c:211-215 | every transmission is the same frame, one more for each reply that is none of `+`, `$` and control-C; the reply that ended it is `+` or `$`, and no earlier one is |
| Packets.Packet.SendToGDB | mri/core/packet.c:203-216 | whatever arrives, the send ends with the first `+` or `$`, the last character read; with k characters before it and no control-C among them exactly k + 1 copies are sent; data and surrounding memory are unchanged |
| PacketSessions.EndsAtFirst | mri/core/packet.c:211-215 | a send that reads up to the reply that ends it stops behind the first `+` or `$` |
| PacketSessions.RepliesRetried | mri/core/packet.c:260-273 | every reply before the end but the control-Cs costs one more copy |
| PacketSessions.CopyAt | mri/core/packet.c:254-258 | each copy sent is the frame |
| Mri.WritesAreKeptWhen | mri/core/mri.c:555-565 | any sequence of writes leaves the full concatenation if and only if that fits, and never more than the capacity |
| Mri.WritesAreAllOrNothing | mri/core/mri.c:555-565 | any sequence of writes without hex strings leaves the full concatenation if it fits and an overrun if not |
| Mri.SomeWriteIsTooLong | mri/core/mri.c:555-565 | a response that does not fit has a first write that does not |
| Mri.PartIsLeftWhen | mri/core/buffer.c:181-194 | a part is left without an overrun if and only if that first write is a hex string and the writes behind it fit the character that may still be free; how long the part is |
| Mri.PartIsLeft | mri/core/buffer.c:181-194 | two characters in a buffer of three leave the first alone |
| Mri.MriCore.InitPacketBuffers | mri/core/mri.c:416-419 | an empty response with the full capacity |
| Mri.MriCore.PrepareStringResponse | mri/core/mri.c:422-426 | the response is the string or an overrun; the exception code left is that of this write alone; memory behind the string is untouched |
| Mri.MriCore.SendPacketToGdb | mri/core/mri.c:555-565 | what is transmitted is the response, or the error for an overrun |
| Mri.MriCore.Perform | mri/core/buffer.c:85-194 | one write, of any kind a handler uses, changes the response as specified |
| Mri.MriCore.Respond | mri/core/mri.c:548-565 | the transmission is all the writes if they fit; otherwise "E04", or what the cut of a hex string left; without hex strings all the writes or exactly "E04" |
| Mri.MriCore.GetPacketFromGDB | mri/core/mri.c:409-413 | answers, payload and characters consumed are those of the specified session, from a buffer with its full capacity |
| Mri.MriCore.SendThenReceive | mri/core/mri.c:404-413 | a frame behind the `+` that ended a send is received; the frame whose `$` ended it is not: the receive goes as if it began behind that frame |
| Query.TransferOverrunsWhen | mri/core/cmd_query.c:253-266 | exactly which requests overrun the buffer |
| Query.HandleQueryTransferRead | mri/core/cmd_query.c:232-267 | the reply in the buffer, for every offset, length and capacity |
| Query.ReplyThatFits | mri/core/cmd_query.c:241-266 | every request that does not overrun is answered in full after `m`, or with the rest after `l` when it asks for more than there is |
| Query.TransferReassembles | mri/core/cmd_query.c:232-267 | a reader with positive lengths below the capacity, in any sequence, ends and obtains exactly the annex |
| Query.TransferIsPrefix | mri/core/cmd_query.c:232-267 | whatever was requested, overruns included, what was collected is what comes next in the annex, and all of it once `l` was seen |
| Query.TransferOverLink | mri/core/cmd_query.c:232-267 | behind the link, every reply of such a session arrives as sent if and only if the annex holds none of `$`, `#` and `}`, and then exactly the annex is obtained |
| Query.AlteredYetObtained | mri/core/cmd_query.c:265-266 | an annex whose reply is altered on the way and which is obtained all the same |
| Query.HandleQueryThreadExtraInfo | mri/core/cmd_query.c:369-389 | the reply for every argument text: the error, nothing, or as much of the platform's text as fits |
| Query.InfoIsWholeWhen | mri/core/cmd_query.c:384-386 | the text goes out whole if and only if twice its length fits |
| Query.GroupFits | mri/core/cmd_query.c:352-356 | with a capacity of nine or more no reply overruns |
| Query.TakenIsGreedy | mri/core/cmd_query.c:352 | a reply takes one more id exactly while nine characters are left and an id is |
| Query.IdsRoundTrip | mri/core/cmd_query.c:349-356 | a list of ids as written reads back as those ids |
| Query.ThreadListIsConserved | mri/core/cmd_query.c:340-358 | across all replies every id is listed once, in iterator order; every reply fits and reads back |
| Query.OutputThreadIds | mri/core/cmd_query.c:340-358 | one reply: the ids it lists and where it leaves the iterator |
| Query.HandleQueryFirstThreadInfo | mri/core/cmd_query.c:312-323 | the first group, or an empty reply without threads |
| Query.HandleQuerySubsequentThreadInfo | mri/core/cmd_query.c:335-338 | the next group of what remains, or `l` at the end |
| Query.ListThreads | mri/core/cmd_query.c:312-358 | a debugger that asks until no list comes back has every thread once, in order |
| VCont.ActionsRoundTrip | mri/core/cmd_vcont.c:243-371 | every list of actions, with or without signals, has a text that parses to exactly that list |
| VCont.ParseWordOf | mri/core/cmd_vcont.c:330-371 | any hex digits are read as their value in the machine word, of which 32 bits are kept |
| VCont.ReadWord | mri/core/buffer.c:200-222 | a word read and kept in 32 bits, as the grammar says |
| VCont.ReadOptionalThreadId | mri/core/cmd_vcont.c:346-371 | the thread, the text left and whether it threw, for every text |
| VCont.ReadAddressRange | mri/core/cmd_vcont.c:330-344 | the range, the text left and whether it threw, the partial range after an exception included |
| VCont.ReadAction | mri/core/cmd_vcont.c:243-328 | the action, the text left and whether it threw, for every text |
| VCont.SelectNext | mri/core/cmd_vcont.c:168-181 | keeping a strictly more specific action keeps the leftmost of greatest priority |
| VCont.SelectionIsUnique | mri/core/cmd_vcont.c:201-231 | at most one action can be the leftmost of greatest priority |
| VCont.RankByThread | mri/core/cmd_vcont.c:201-241 | which of two actions is kept, by the thread each is meant for, with and without thread states |
| VCont.FirstOfEqualsIsKept | mri/core/cmd_vcont.c:201-206 | of two actions for the same thread the first is kept |
| VCont.KeptWhen | mri/core/cmd_vcont.c:189-198 | a step is kept exactly when one asks for the halted thread; without thread states nothing is kept exactly when there was nothing |
| VCont.FirstParsePass | mri/core/cmd_vcont.c:150-199 | both kept actions are the leftmost of greatest priority of their kind; the error text and the exception code it leaves, lost after a malformed action |
| VCont.ReplayStartsWithParsed | mri/core/cmd_vcont.c:432-443 | the second pass replays what the first accepted, and no more unless an action was malformed |
| VCont.NothingReplayedWhen | mri/core/cmd_vcont.c:432-443 | exactly which texts replay nothing |
| VCont.BadActionReplayed | mri/core/cmd_vcont.c:157-165 | two malformed lists that are carried out all the same |
| VCont.MalformedIsRefusedWhen | mri/core/cmd_vcont.c:129-148 | malformed lists are refused if and only if a condition on the text holds, with and without thread states |
| VCont.SecondParsePass | mri/core/cmd_vcont.c:432-489 | one thread state call per action replayed, in packet order, the last range set, and every thread that was frozen ends as the list says |
| VCont.ReplayNext | mri/core/cmd_vcont.c:439-440 | one round: the next action, whatever it threw, replayed unless there is none |
| VCont.ThreadsGet | mri/core/cmd_vcont.c:432-489 | for every list a frozen thread ends in the state of the last action that names it, else of the first default action, else frozen |
| VCont.DefaultsLast | mri/core/cmd_vcont.c:115-128 | with the default actions last, a thread named by an action of its own gets the last such, every other thread the first default |
| VCont.Replay | mri/core/cmd_vcont.c:445-489 | the call and the range one action makes, and which threads it changes: those it names, or all still frozen for a default |
| VCont.HandleVCont | mri/core/cmd_vcont.c:129-148 | the outcome, every thread state call and what became of every thread, for every text; a refusal leaves exactly "E01" to send |
| VCont.HandleWithSetThreadState | mri/core/cmd_vcont.c:410-425 | a step about to be swallowed by a hardcoded breakpoint is reported; otherwise the list is replayed |
| VCont.HandleWithoutThreadStates | mri/core/cmd_vcont.c:373-408 | the kept step goes before the kept continue; with neither the error is left |
| Memory.LittleEndianRoundTrip | mri/core/memory.c:82-87 | a word read and taken apart is the bytes in memory order |
| Memory.HexTextRoundTrip | mri/core/memory.c:193-204 | text written by a read decodes to the same bytes in a write |
| Memory.StoredTouchesOnly | mri/core/memory.c:157-174 | a write changes no other address and maps none |
| Memory.OffsetsDiffer | mri/core/memory.c:168 | bytes of one access have different addresses, across a wrap of the address |
| Memory.ReadableAt | mri/core/memory.c:43-60 | the bytes read are those at the addresses from the first on, wrapping at the word, and a read stops short only at a fault |
| Memory.StoredAt | mri/core/memory.c:157-174 | each byte before the first fault is stored at its address, and nothing behind the fault |
| Memory.StoredIsReadBack | mri/core/memory.c:142-155 | what was stored without a fault is read back |
| Memory.CopyThroughHexText | mri/core/memory.c:28-245 | reading as text and writing that text elsewhere copies exactly those bytes, overlapping or not |
| Memory.ReadMemoryBytesIntoHexBuffer | mri/core/memory.c:43-60 | the bytes before the first fault, as text |
| Memory.WriteBytesToBufferAsHex | mri/core/memory.c:82-87 | the bytes of a word in memory order |
| Memory.ReadMemoryIntoHexBuffer | mri/core/memory.c:28-129 | without a fault the text does not depend on the access size; with one, an access of 2, 4 or 8 bytes at an address of that alignment delivers nothing and any other what came before |
| Memory.WriteHexBufferToByteMemory | mri/core/memory.c:157-174 | the spelled bytes are stored up to the first bad text or fault, and success exactly when there was neither |
| Memory.ReadBytesFromHexBuffer | mri/core/memory.c:193-204 | the spelled bytes, and whether all were there |
| Memory.WriteHexBufferToMemory | mri/core/memory.c:142-245 | success stores exactly the spelled bytes whichever access is used; a failed access of 2, 4 or 8 bytes at an address of that alignment stores nothing |
| ConfigCache.WriteIsMapUpdate | src/libs/ConfigCache.cpp:54-82 | a write is a map update, keeps keys distinct and never reorders them |
| ConfigCache.DropIsMapRemoval | src/libs/ConfigCache.cpp:31-50 | a pop removes the newest key and keeps every other |
| ConfigCache.AsMapAt | src/libs/ConfigCache.cpp:84-95 | searching the entries is looking up in the map |
| ConfigCache.SelectedAreTheKeys | src/libs/ConfigCache.cpp:97-106 | a collect gathers each name that has a setting, once |
| ConfigCache.SelectedInOrder | src/libs/ConfigCache.cpp:97-106 | names come in the order of the entries |
| ConfigCache.RunKeepsKeysDistinct | src/libs/ConfigCache.cpp:20-82 | keys are distinct after any run of writes, pops and clears, failed writes included |
| ConfigCache.LookupIsLastStored | src/libs/ConfigCache.cpp:20-95 | after any run of writes, refused writes, pops and clears a key that is present holds the last value stored for it; without pops and clears every key stored is present |
| ConfigCache.PresentWhen | src/libs/ConfigCache.cpp:20-95 | the keys present after any run: those stored at some step with the cache larger ever since than just before it |
| ConfigCache.Count16Steps | src/libs/ConfigCache.cpp:36 | the 16-bit count keeps being the number of entries modulo 65536 |
| ConfigCache.Cache.Clear | src/libs/ConfigCache.cpp:20-29 | an empty valid cache |
| ConfigCache.Cache.Pop | src/libs/ConfigCache.cpp:31-50 | exactly the newest entry goes, its chunk too once empty, and the chain stays well formed |
| ConfigCache.Cache.ReplaceOrPushBack | src/libs/ConfigCache.cpp:54-82 | overwrites in place or appends, returns the slot holding the value, and null with nothing changed exactly when a chunk was needed and memory was out |
| ConfigCache.Cache.Lookup | src/libs/ConfigCache.cpp:84-95 | the slot of the key's entry, or null exactly when there is none |
| ConfigCache.Cache.Collect | src/libs/ConfigCache.cpp:97-106 | the selected names in insertion order behind what the list held |
| ClientClock.SignedDifference | src/libs/ClientTable.h:44-53 | the signed difference of two counter readings is the true one if and only if that fits 31 bits |
| ClientClock.OldMeansWindowElapsed | src/libs/ClientTable.cpp:18-23 | within half the range a client is old if and only if it is not identified, not held, its window started, and five seconds have passed since, across a wrap and with a start later than now |
| ClientClock.ErrorCodes | src/libs/ClientTable.cpp:65-76 | which error codes latch a client as gone and which are tried again; none is both |
| ClientClock.CounterIsRun | src/libs/ClientTable.cpp:78-88 | over any history the saturating counter is the run of failures at its end, and the latch says whether the client was reported gone |
| ClientClock.GoneMeansToldOrTwentyFailures | src/libs/ClientTable.cpp:78-92 | a fresh client is shown gone if and only if a failure said so or the latest twenty sends failed |
| ClientClock.AdmittedBeforeIsTotal | src/libs/ClientTable.cpp:196-199 | for all stamps, of two clients one is before the other |
| ClientClock.AtMostOneEarliest | src/libs/ClientTable.cpp:203-220 | at most one client is earliest, for all stamps |
| ClientClock.EarliestExistsWhen | src/libs/ClientTable.cpp:203-220 | somebody is earliest if and only if somebody is present and the present stamps fit some half of the counter's range, wherever it starts |
| ClientClock.NobodyEarliest | src/libs/ClientTable.h:381 | three stamps for which nobody is |
| ClientClock.AdmittedBeforeIsTrueOrder | src/libs/ClientTable.cpp:196-199 | within half the range the wrapped comparison is the order of true times, ties by slot |
| ClientClock.EarliestIsTrulyFirst | src/libs/ClientTable.cpp:203-220 | within half the range the client elected is the one truly admitted first |
| ClientTable.Slot.Note | src/libs/ClientTable.cpp:78-88 | the client after one send result |
| ClientTable.Table.FindWifi | src/libs/ClientTable.cpp:35-40 | the entry at an address, or -1 exactly when there is none |
| ClientTable.Table.AddWifi | src/libs/ClientTable.cpp:42-63 | a known address changes nothing, a new one takes the first free slot with its window started now and no failures, a full table refuses; addresses stay distinct |
| ClientTable.AdmittedIsFresh | src/libs/ClientTable.cpp:46-59 | a new entry is neither old nor shown gone |
| ClientTable.LaterIsNotBefore | src/libs/ClientTable.cpp:196-199 | whoever is added later is not before whoever was added earlier, except in the same microsecond at a lower slot |
| ClientTable.Table.RemoveWifi | src/libs/ClientTable.cpp:94-98 | exactly that slot is emptied, and false exactly when there was nothing there |
| ClientTable.Table.SetUsbPresent | src/libs/ClientTable.cpp:122-133 | the USB entry is created once or removed, and no WiFi slot changes |
| ClientTable.Table.StartUsbHelloWindow | src/libs/ClientTable.cpp:139-143 | only the first start counts |
| ClientTable.Table.IsEarliestPresent | src/libs/ClientTable.cpp:203-220 | true if and only if that WiFi client is present and no other present client, USB included, was admitted before it |
| ClientTable.Table.HasOldClient | src/libs/ClientTable.cpp:169-176 | true if and only if some client other than the excepted ones is not identified, not held and five seconds past the start of its window |
| ClientTable.ContiguousNext | src/libs/ClientTable.h:188-193 | a chunk sent from the bytes taken so far extends the prefix |
| ClientTable.WaitAdvances | src/libs/ClientTable.h:195 | the wait check reads later after every pause, across a wrap: the retry loop ends |
| ClientTable.SendToClient | src/libs/ClientTable.h:182-204 | a contiguous prefix is delivered and its length returned; the outcome noted is success exactly when all went; a short send is tried again if and only if the client has no failures, the module is busy and a tenth of a second has not passed; it terminates |
| AdcFilter.SortedIsSortedPermutation | src/libs/Adc.cpp:100 | the sorted copy is sorted and holds the same samples |
| AdcFilter.TwelveBitsOfRegister | src/libs/Adc.cpp:74 | a sample is bits 4 to 15 of the register |
| AdcFilter.OversampledIsMiddle | src/libs/Adc.cpp:100-109 | for any eight least, sixteen middle and eight greatest samples of the window, the new value is the total of the middle ones divided by four |
| AdcFilter.SplitExists | src/libs/Adc.cpp:100-104 | every window can be taken apart so |
| AdcFilter.OutliersNeverShow | src/libs/Adc.cpp:100-109 | with at most eight samples below lo and eight above hi, the oversampled value lies between 4 lo and 4 hi |
| AdcFilter.NineOutliersShow | src/libs/Adc.cpp:102 | nine low outliers can move it outside: the bound is exact |
| AdcFilter.NineHighOutliersShow | src/libs/Adc.cpp:102 | the same on the high side |
| AdcFilter.WindowIsBounded | src/libs/Adc.h:36-37 | 12-bit samples give at most 4095 << 2 |
| AdcFilter.LastFourAt | src/libs/Adc.cpp:106-109 | the average buffer holds the last four oversampled values, and zeros before them |
| AdcFilter.ReadingIsBounded | src/libs/Adc.cpp:106-110 | over any run of reads the reading stays within the bounds of the last four values |
| AdcFilter.ReadingIsAverage | src/libs/Adc.cpp:110 | the reading is the average of the last four values rounded to the nearest, halves up |
| AdcFilter.Adc.NewSample | src/libs/Adc.cpp:69-76 | the window of that channel slides by one 12-bit sample, and no other changes |
| AdcFilter.Adc.Read | src/libs/Adc.cpp:80-110 | the value noted is the total of the sixteen middle samples divided by four; the reading is the rounded average of the last four such values and never exceeds the maximum |
| AdcFilter.TrimmedSum | src/libs/Adc.cpp:100-104 | the total of the sixteen middle samples |
| AdcFilter.PushAverage | src/libs/Adc.cpp:106-109 | the newest value in front, the oldest gone |

## Left out

- Blocking on the serial link is a script running out. Whether more data is already queued when the stub polls is a flag of each arriving character.
- The exception code is a result of each operation. The global it stands for keeps the largest code raised; where the code in it is lost by a later write, in `vCont`, the model follows.
- Buffer_GetLength, Buffer_GetArray and Buffer_MatchesHexString, and the binary variants of the memory writes: they add only easy or repeated members.
- Keywords are assumed to hold no NUL character, which mri_strncmp would stop at.
- The console, monitor, semihost, register and breakpoint commands, the command table, and the parsing of qSupported and of the qXfer arguments. The text for a thread is a function of its number.
- MriCore.Respond: asks for a data area of at least three characters. In a smaller one "E04" itself overruns; MriCore.SendPacketToGdb states that what the area happens to hold is then sent.
- Memory.WriteHexBufferToMemory: that a sized access which fails stores nothing rests on the platform: a sized write that faults is taken to change no memory.
- Query.ListThreads: asks for a data area of at least nine characters; the code's own loop guard assumes as much.
- VCont.HandleVCont: the program counter moved over a hardcoded breakpoint, single stepping inside the processor and the text of the stop response are platform code; an outcome only says which of them is asked for.
- The platform's thread states are a map from thread numbers to states; the two reserved numbers are no threads. When a resumed thread runs is not part of this model.
- AddressRange and ThreadId hold 32 bits in the source whatever the word size; the model truncates alike.
- ConfigValue's storage is plain data; running out of memory is a parameter of the write; the destructor and dump are not part of this model.
- The client's name, features, launch and job-start fields, set_identity, record_heartbeat, restart_hello_window, usb_session_expired, clear_wifi, clear_usb_identity and the counting and transfer-owner queries.
- ClientTable.SendToClient: assumes a chunk size above zero, as the loop does; that a pause takes at least a microsecond; and that neither a pause nor a send takes half the counter's range. Under them it terminates; what arrives at the client is not modelled.
- std::sort is a function proved to give the sorted permutation. roundf of a quarter of a sum below 2^24 is exact in a float, so the average is integer arithmetic.
- The median and plain-average branches of the ADC filter, which are compiled out, pin set-up, interrupt masking, and negative channel numbers.
