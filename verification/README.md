# Verified model of the NFCee reader firmware

The firmware reads contactless cards: a driver for the ISO/IEC 14443 protocols
(`libs/nfc`) sits on a driver for the TRF797x transceiver (`drivers/trf797x`), with a
pad driver for the microcontroller's ports (`drivers/gpio`) beside them. This project
models the parts with state and arithmetic in them and proves what they keep.
`dafny verify dfyconfig.toml` checks all of it.

## How it is built

| module | what it is |
|---|---|
| `Bytes` | byte strings, bits, and copies into memory |
| `CrcA` | the checksum loop, the register of Annex B of ISO/IEC 14443-3, frames, burst errors |
| `Blocks` | block headers, block counter, size and time tables |
| `Link` | the device interface of `nfc.h`; the answers come from an arbitrary list |
| `TclReader` | the reader's half of the block protocol as a machine, against any card |
| `TclCard` | a conforming card, from the rules of sections 7.5.2 to 7.5.4 of ISO/IEC 14443-4 |
| `Delivery` | reader and card together: invariant, lockstep, termination, delivery, sessions |
| `OutOfStep` | calls that begin with block numbers crossed: which deliver, how the others end, how it comes to this |
| `LossyLink` | losses and damage in any turn: what the card makes of the requests, what a success is worth, sessions |
| `Activation` | wake-up, cascade levels, RATS; a conforming type A card |
| `Lifecycle` | session states and power events over any sequence of calls |
| `Iso14443` | the driver object: the loops of `iso14443.c` and `iso14443a.c` on arrays |
| `TrfChip` | the transceiver: radio, FIFO and SPI interface, under an arbitrary schedule |
| `TrfSend`, `TrfReceive` | the two interrupt-driven loops as machines, and what they conserve |
| `TrfSchedule` | schedules under which a call of the transceiver driver succeeds |
| `TrfInitiator` | the transceiver driver object: gathering, refilling and draining loops |
| `RadioLink` | the block protocol over the transceiver: whole exchanges under schedules of the chip |
| `FrameBudget` | the layers together: sizes, and what follows for the transceiver driver |
| `Gpio` | pad programming: the port object, its write trace, fields and glitches |

Each loop of the source is a method with loop invariants. A method is proved against a pure
machine or function, and the promises are lemmas about those. Cards, faults and the timing
of the chip are lists of answers or of moves given in advance; as every theorem quantifies over
them, they stand for every adaptive behaviour. A conforming card is a predicate (`Obeys`, `Says`)
that says the answers are the ones the card gives to the frames actually sent. Buffers on the
stack start with arbitrary contents, which the methods return as ghost results.

Constants, codes and tables are stated a second time, with the numerals of the standards or by
single bits: `KnownAnswers`, the `Standard` lemmas of `Blocks`, the tag of `Activation`, `Pack` of
`Gpio`, and what a turn of the transceiver's loops does about every interrupt status.

## What turned out false of the code

- The loop of `iso14443.c:126-150` marks its retry with rules 6 and 7, which ask for the same
  block again. The answer has overwritten the shared buffer by then: `ResentBlockIsNotTheFirst`
  shows that what goes out is never the block first sent and not even an I-block, and
  `ResendHappens` that every chained request comes to this on one acknowledgement under the wrong
  number.
- A failed call leaves its traces. What a card has of its request stays there and is put in front
  of the next one, and that call reports success with the card's reply to the two as one:
  `CallCorruptsIff` says exactly when, and `SecondBlockLost` that a single lost block is enough, for
  every chained request whose first block is acknowledged at once. The driver does not notice.
- The block number is kept over a failed call too, and a reply block under an unexpected number is
  dropped while the counter goes on (`WrongNumberDropped`). If more pieces are to follow, a
  conforming card repeats the dropped one (`RepeatTaken`); the last piece is lost, and the call
  returns success without it. `CallOutOfStep` says how calls end that begin like this,
  `ShortRepliesNeverArrive` that short ones return empty replies for ever, and `LostAnswer` that
  after any lost answer the next call finds the numbers crossed or the card waiting.
- So a call does what it is for, from any state of the card and on a link that loses nothing from
  then on, exactly under the condition of `CallDeliversIff`: the card has no part of an earlier
  request, is not waiting for an S(WTX) response, and the numbers differ, or the request fits one
  block and the reply has several pieces. `CallerServedIff` is what the caller can tell of it.
- What can be relied on even so, whatever gets lost or damaged: `SessionInOrder`, the card completes
  the requests in their order, each at most once, and those of successful calls for certain, if
  behind pieces of failed ones; `DeliveredUntilFailure`, from a card that is ready, on a link that
  loses but does not damage answers, everything is delivered up to the first call that fails.
- Nothing bounds the chaining loop. `CallEndsIff`: with a conforming card a call has no end exactly
  when there is something to send and the INF size is 0 (unless the card waits for an S(WTX)
  response). That size is a `size_t` difference that wraps for frame sizes below 3, and `fsc` is
  nothing in particular until a card has set it: `BudgetKeptIff` shows that frames keep to the
  sizes exactly when both are above 3, `SmallSizes` what is sent otherwise.
- The size of a copied INF field is a `size_t` difference that wraps for blocks shorter than
  header and checksum. `CopyIsInf` gives the exact condition under which the copy is the field,
  `ShortBlockMiscopied` a block of which a checksum byte is returned as data.
- The list count of the refill loop is never updated. `ListRespectedIffSingleFill` shows that the
  driver stays within its list under every schedule exactly when the list goes out with the
  first fill, and `ConservedFromStart` that nothing is lost at the start exactly when the first
  fill does not stop on a boundary between two entries (`BoundaryGoesAstray` is a list where it
  does). `FrameGoesOut` shows that the frames of the block protocol meet both conditions, and
  `CallSucceeds` that every list that meets the second can go out and be answered.
- The ten bytes kept for a UID are not enough for every card: `IdFits` gives the exact condition,
  `IdOverflows` answers that make activation succeed with twelve.
- `fsc` keeps an old value when the card's ATS consists of its length byte (`FscWritten`), and the
  waiting time of a card that sends no TB(1) is taken for code 8, not the 4 of ISO/IEC 14443-4
  (`AtsDecoded`).

## Model

| member | source | states |
|---|---|---|
| `CrcA.Compute` | libs/nfc/iso14443a.c:10-22 | the loop computes the fold of the byte step over the first `len` bytes |
| `CrcA.ShortcutIsSerial` | libs/nfc/iso14443a.c:10-22 | the shortcut equals the bit-serial register of Annex B on every message |
| `CrcA.KnownAnswers` | libs/nfc/iso14443a.c:10-22 | the examples of Annex B and the checksum of HLTA |
| `CrcA.AbsorbIsTicks` | libs/nfc/iso14443a.c:14-19 | one turn of the loop is eight clocks of the register with the byte added to it |
| `CrcA.ResidueIffMatch` | libs/nfc/iso14443a.c:109 | comparing the two trailing bytes and running over them to zero accept the same frames |
| `CrcA.FrameResidue` | libs/nfc/iso14443a.c:36-49 | a built frame has residue zero, and no other two trailing bytes do |
| `CrcA.BurstDetected` | libs/nfc/iso14443a.c:10-22 | different messages of one length that differ within 16 consecutive bits have different checksums |
| `CrcA.DamagedFrameRejected` | libs/nfc/iso14443a.c:36-49 | no burst of at most 16 bits turns a built frame into another frame with residue zero |
| `CrcA.SeventeenBitsEscape` | libs/nfc/iso14443a.c:10-22 | 16 is the limit: a burst of 17 bits that goes unnoticed |
| `Blocks.StandardCodes` | libs/nfc/iso14443.c:121 | the first bytes the reader builds are those of section 7.1.2.1 of ISO/IEC 14443-4 |
| `Blocks.StandardKinds` | libs/nfc/iso14443.c:12-19 | its tests of a first byte, bit by bit, and the header's length |
| `Blocks.StandardSizes` | libs/nfc/iso14443.c:29-32 | the size of every code |
| `Blocks.StandardTimes` | libs/nfc/iso14443.c:47-50 | the waiting time of every code is 4096 * 2^code carrier periods, rounded up to milliseconds or tens of them |
| `Blocks.CodeOfSize` | libs/nfc/iso14443.c:34-45 | the search returns the largest code whose size is at most `fsd`, 0 when there is none |
| `Blocks.CodeOf` | libs/nfc/iso14443.c:34-45 | what that code is, independently of the search |
| `Blocks.AnnouncedSizeFits` | libs/nfc/iso14443.c:34-45 | the announced size is at most `fsd` exactly when `fsd` is at least 16 |
| `Link.Device.Transceive` | libs/nfc/include/nfc.h:39-42 | a request goes out; the next answer, cut at the capacity, is written and counted |
| `Link.Device.Open` | libs/nfc/include/nfc.h:39 | the next planned result, and the power event that goes with it |
| `Link.Device.Close` | libs/nfc/include/nfc.h:42 | one close event |
| `TclReader.RequestSegmented` | libs/nfc/iso14443.c:115-161 | against any card, acknowledged pieces plus the rest are the request; pieces are full, the last block carries the rest; a piece that does not fit the buffer overruns it |
| `TclReader.Segmentation` | libs/nfc/iso14443.c:116-157 | the same at every point of the chaining loop |
| `TclReader.ReplyReassembled` | libs/nfc/iso14443.c:163-224 | against any card whose accepted blocks are long enough, the caller gets their INF fields cut at its room, and the result counts them |
| `TclReader.Reassembly` | libs/nfc/iso14443.c:163-222 | the same at every point of the reply loop |
| `TclReader.CopyIsInf` | libs/nfc/iso14443.c:189-208 | an accepted block is copied as its INF field exactly when it is long enough or no room is left |
| `TclReader.OthersCopyNothing` | libs/nfc/iso14443.c:170-208 | any other answer leaves the caller's buffer alone |
| `TclReader.ResentBlockIsNotTheFirst` | libs/nfc/iso14443.c:126-150 | after a mismatched R(ACK), with or without S(WTX) rounds before it, the block sent is never the one first sent, and no I-block |
| `TclReader.ResentBlock` | libs/nfc/iso14443.c:127 | it differs from the block before in its first three bytes, which are the answer's |
| `TclReader.ResendHappens` | libs/nfc/iso14443.c:118-150 | every chained request comes to this if its first block is acknowledged under the wrong number |
| `TclReader.ShortBlockMiscopied` | libs/nfc/iso14443.c:189-208 | a three-byte I-block with a CID, whose last checksum byte the call returns as data |
| `TclReader.WrongNumberDropped` | libs/nfc/iso14443.c:200-222 | a reply block under the wrong number is not copied, the counter goes on; chained, it is acknowledged under its own number, unchained, the call returns success without it |
| `TclReader.ChainFailsIff` | libs/nfc/iso14443.c:126-149 | the chaining loop fails exactly on answers under three bytes and on those that are neither acknowledgement nor S(WTX) |
| `TclReader.ReplyFailsIff` | libs/nfc/iso14443.c:170-187 | the reply loop fails exactly on answers under three bytes and on those that are neither I-block nor S(WTX) |
| `TclReader.WaitingIsUnbounded` | libs/nfc/iso14443.c:174-183 | the reader grants any number of S(WTX) requests in a row |
| `Delivery.TurnKeepsStep` | libs/nfc/iso14443.c:116-222 | one turn with a conforming card keeps the two in step, is answered, and uses up one of the turns left |
| `Delivery.Lockstep` | libs/nfc/iso14443.c:150-156 | the reader never sends the card's current number, the card always answers with the expected one |
| `Delivery.StartsInStep` | libs/nfc/iso14443.c:112-161 | a call on a card whose number differs begins in step, also when the card has part of an earlier request |
| `Delivery.Delivery` | libs/nfc/iso14443.c:106-227 | every exchange that begins in step achieves its goal in exactly the predicted number of turns |
| `Delivery.Converse` | libs/nfc/iso14443.c:116-222 | reader and card by themselves produce such an exchange, and it ends |
| `Delivery.ExchangeDelivers` | libs/nfc/iso14443.c:106-227 | the call returns the reply cut at the room, the card completes the request, once and behind what part it held, both are ready again, with the exact number of frames |
| `Delivery.ExchangeHappens` | libs/nfc/iso14443.c:106-227 | such an exchange exists for every request there is room for and every plan of the card |
| `Delivery.Serve` | libs/nfc/iso14443.c:106-227 | one call of a session, with its result and the card it leaves |
| `Delivery.SessionDelivers` | libs/nfc/iso14443.c:96-227 | over any number of calls each gets its reply and the card assembles exactly the requests, in order |
| `Delivery.FreshSessionDelivers` | libs/nfc/iso14443.c:89-227 | the same from `Open` on, with a reset counter and a card just activated |
| `OutOfStep.CallDeliversIff` | libs/nfc/iso14443.c:106-227 | whatever state a conforming card is in, the caller gets the full reply, the card completes this request and nothing else, and both are ready, exactly when the card holds no part, is not waiting for time, and the numbers differ, or the request fits one block and the reply takes several |
| `OutOfStep.CallerServedIff` | libs/nfc/iso14443.c:106-227 | the condition under which the caller gets the full reply, whatever request it answers |
| `OutOfStep.CallCorruptsIff` | libs/nfc/iso14443.c:118-161 | a call succeeds and the card completes another request exactly when it holds a part and the request gets through; a success always completes the part followed by the request |
| `OutOfStep.CallOutOfStep` | libs/nfc/iso14443.c:118-222 | how a call ends that begins with the numbers crossed: delivered one turn late, an empty success that leaves them crossed, or `-EIO` with the first piece left at the card; with the number of frames |
| `OutOfStep.AstrayTurn` | libs/nfc/iso14443.c:163-222 | every turn of such an exchange keeps it astray or brings it back into step or past the reply, and uses up one of the turns left |
| `OutOfStep.AstrayEnds` | libs/nfc/iso14443.c:163-222 | every exchange that goes astray achieves its goal if the reply has a second piece, and misses it if not |
| `OutOfStep.RepeatTaken` | libs/nfc/iso14443.c:200-220 | a piece that was dropped with more to follow is repeated by the card and taken |
| `OutOfStep.StallEnds` | libs/nfc/iso14443.c:118-157 | a chained request whose first block is refused ends in `-EIO`, its first piece with the card |
| `OutOfStep.DeafCall` | libs/nfc/iso14443.c:118-172 | a call on a card that waits for an S(WTX) response fails and changes nothing |
| `OutOfStep.CallEndsIff` | libs/nfc/iso14443.c:115-157 | a call to a conforming card ends exactly when the card waits for time, or nothing is to be sent, or a block has room for a byte |
| `OutOfStep.LostAnswer` | libs/nfc/iso14443.c:126-183 | whenever an answer is lost the call fails, and the next one finds the card waiting for time or out of step |
| `OutOfStep.LostBlock` | libs/nfc/iso14443.c:126-183 | after a lost block of the reader the card waits for time if that was to grant it, and the next call begins in step otherwise; what the card was sent of an unfinished request stays with it |
| `OutOfStep.CallAfterLostAnswer` | libs/nfc/iso14443.c:106-227 | after a lost answer a call does what it is for exactly if nothing of the failed request is left, its own fits one block, the reply takes several, and the card does not wait for time |
| `OutOfStep.CallAfterLostBlock` | libs/nfc/iso14443.c:106-227 | after a lost block it does exactly if nothing of the failed request is left and the block was not to grant time |
| `OutOfStep.FirstAnswerLost` | libs/nfc/iso14443.c:106-227 | on every ready card, if the first answer of a call is lost, the card is left waiting for time or the numbers crossed, with the first piece of a chained request |
| `OutOfStep.SecondBlockLost` | libs/nfc/iso14443.c:118-150 | on every ready card that acknowledges a first block at once, if the second block is lost the card listens and holds the first piece |
| `OutOfStep.ShortRepliesNeverArrive` | libs/nfc/iso14443.c:106-227 | any number of calls of one block with replies of one piece return 0 once the numbers are crossed |
| `LossyLink.TurnKeepsOrder` | libs/nfc/iso14443.c:116-222 | from any state of the card, whatever is lost or put in place of an answer, a turn brings each piece of the request to the card at most once and in its place |
| `LossyLink.CallInOrder` | libs/nfc/iso14443.c:106-227 | so a call leaves the card with the whole request, behind what it had, or with full pieces short of it; a success with the whole |
| `LossyLink.SuccessLostNothing` | libs/nfc/iso14443.c:106-227 | on a link that damages no answers, a call that succeeds is an exchange in which nothing was lost |
| `LossyLink.SuccessIsTrueIff` | libs/nfc/iso14443.c:106-227 | such a success is what it seems exactly when the card held no part and the numbers differed or the reply takes several pieces |
| `LossyLink.SessionInOrder` | libs/nfc/iso14443.c:106-227 | over any number of calls the card's requests are those of the calls in order, each at most once, behind the pieces of failed ones; successful ones are complete |
| `LossyLink.DeliveredUntilFailure` | libs/nfc/iso14443.c:96-227 | from a ready card, on a link that loses but does not damage answers, calls that all succeed are all delivered |
| `Iso14443.Driver.constructor` | libs/nfc/iso14443.c:63-71 | a new driver is powered off |
| `Iso14443.Driver.L3Transceive` | libs/nfc/iso14443a.c:36-49 | the message goes out with its checksum; count and buffer are the device's |
| `Iso14443.Driver.SendChained` | libs/nfc/iso14443.c:118-157 | the chaining loop runs the machine until the last piece, an error, or a piece too long for the buffer |
| `Iso14443.Driver.AwaitAck` | libs/nfc/iso14443.c:126-150 | its body runs the machine until the piece is acknowledged |
| `Iso14443.Driver.WaitForAck` | libs/nfc/iso14443.c:136-144 | its waiting loop grants S(WTX) requests as the machine does |
| `Iso14443.Driver.ReceiveReply` | libs/nfc/iso14443.c:163-224 | the reply loop runs the machine to its end and fills the caller's buffer |
| `Iso14443.Driver.WaitForReply` | libs/nfc/iso14443.c:175-183 | its waiting loop grants S(WTX) requests as the machine does |
| `Iso14443.Driver.TakeBlock` | libs/nfc/iso14443.c:189-220 | header, copy, counter and acknowledgement are those of the machine |
| `Iso14443.Driver.ExchangeBlocks` | libs/nfc/iso14443.c:112-227 | result, counter, caller's buffer, frames and unused answers are exactly those of the machine; the rest of the buffer is unchanged, and request and reply may share it |
| `Iso14443.Driver.Transceive` | libs/nfc/iso14443.c:106-227 | the same for cards with the block protocol, a single frame for others |
| `Iso14443.Driver.SelectLevels` | libs/nfc/iso14443a.c:79-122 | the cascade loop computes the selection |
| `Iso14443.Driver.SelectLevel` | libs/nfc/iso14443a.c:83-99 | one level: query, check byte, select |
| `Iso14443.Driver.TakeSak` | libs/nfc/iso14443a.c:101-121 | the SAK is judged and the level's bytes are appended |
| `Iso14443.Driver.AnswerToSelect` | libs/nfc/iso14443a.c:124-143 | RATS goes out with the right code and the ATS is taken over |
| `Iso14443.Driver.ReadAts` | libs/nfc/iso14443a.c:134-142 | frame size and waiting time are those of the ATS |
| `Iso14443.Driver.L3Open` | libs/nfc/iso14443a.c:51-149 | result, fields, frames and unused answers are those of the activation |
| `Iso14443.Driver.Open` | libs/nfc/iso14443.c:73-104 | returns 0 exactly when a card is selected, otherwise powers off; events, fields and counter are stated |
| `Iso14443.Driver.Close` | libs/nfc/iso14443.c:234-255 | powers off with one close of the device |
| `Activation.SakCheck` | libs/nfc/iso14443a.c:106-114 | a closing SAK is taken exactly when its frame has residue zero |
| `Activation.LevelPassed` | libs/nfc/iso14443a.c:83-121 | a level is passed exactly when both commands are answered, the check byte fits and the SAK has its cascade bit or residue zero; what it adds to the UID |
| `Activation.ActivationErrors` | libs/nfc/iso14443a.c:57-75 | which error activation returns when, by the bits of the ATQA, and what it has sent |
| `Activation.SakBits` | libs/nfc/iso14443a.c:106 | the cascade bit and the block protocol's bit of a SAK |
| `Activation.IdLength` | libs/nfc/iso14443a.c:79-122 | a complete run adds four bytes for each level, less one for each cascade bit |
| `Activation.IdFits` | libs/nfc/include/iso14443.h:11-14 | the UID fits its ten bytes exactly when there are fewer than three levels or at least two cascade bits |
| `Activation.IdOverflows` | libs/nfc/iso14443a.c:51-149 | three levels without a cascade bit: activation returns 0 with a UID of twelve bytes |
| `Activation.FscWritten` | libs/nfc/iso14443a.c:124-143 | `fsc` becomes the size of the low digit of the ATS's second byte exactly when the ATS has more than its length byte, and keeps its value otherwise |
| `Activation.UidRoundTrip` | libs/nfc/iso14443a.c:51-149 | whenever a conforming card is behind the answers, activation succeeds and reads its UID, SAK, ATQA and ATS |
| `Activation.ActivationSucceeds` | libs/nfc/iso14443a.c:51-149 | for every 4-, 7- or 10-byte UID, running activation against the card recovers it |
| `Activation.AtsDecoded` | libs/nfc/iso14443a.c:134-142 | a card's FSCI, a number from 0 to 15, and its FWI are read off every ATS, wherever the optional bytes put TB(1) |
| `Lifecycle.StaysSettled` | libs/nfc/iso14443.c:73-104 | between calls the driver is off or has a card selected |
| `Lifecycle.OpenSelects` | libs/nfc/iso14443.c:73-104 | what an open returns, leaves and does to the device in every case; a second one does nothing |
| `Lifecycle.DeviceNeverOpenedTwice` | libs/nfc/iso14443.c:73-104 | over any calls and results, two successful device opens have a close in between |
| `Lifecycle.AlternatesIffDisciplined` | libs/nfc/iso14443.c:234-255 | opens and closes strictly alternate exactly when callers close only what they opened |
| `TrfSend.GatherTakes` | drivers/trf797x/trf797x_lld.c:111-125 | the gathering loop writes the first 127 bytes of the list, or all of it |
| `TrfSend.LengthRoundTrip` | drivers/trf797x/trf797x_lld.c:105-106 | the length registers give back the number of bits exactly when it is below 2^15 |
| `TrfSend.SpiRoundTrip` | drivers/trf797x/trf797x_lld.c:92-130 | a chip-side parser of the byte stream recovers FIFO reset, command, length and payload |
| `TrfSend.FirstFill` | drivers/trf797x/trf797x_lld.c:111-129 | what is written and what the driver believes is left make up the list exactly when the fill stops inside an entry or at the end |
| `TrfSend.ConservedFromStart` | drivers/trf797x/trf797x_initiator.c:75-79 | conservation holds after the first fill exactly under that condition |
| `TrfSend.BoundaryGoesAstray` | drivers/trf797x/trf797x_initiator.c:75-79 | a list of 127 bytes and one byte: the count of what is left wraps, and conservation fails |
| `TrfSend.SendTurnConserves` | drivers/trf797x/trf797x_initiator.c:85-113 | under any move of the chip a turn keeps air, FIFO and unsent bytes equal to the list, with at most 127 in the FIFO |
| `TrfSend.SendTurnEnds` | drivers/trf797x/trf797x_initiator.c:86-113 | what a turn does about every end of a wait and every interrupt status, bit by bit |
| `TrfSend.SendDelivers` | drivers/trf797x/trf797x_initiator.c:75-113 | under any schedule, a normal end of the loop means that the whole list has gone out |
| `TrfSend.ListRespectedIffSingleFill` | drivers/trf797x/trf797x_initiator.c:96-111 | no schedule takes the driver beyond its list exactly when the list went out with the first fill |
| `TrfReceive.DrainTakesPrefix` | drivers/trf797x/trf797x_lld.c:141-161 | draining keeps the stream whole and the buffer its prefix, whatever arrives between status and data |
| `TrfReceive.ReceiveTakesPrefix` | drivers/trf797x/trf797x_initiator.c:116-141 | under any schedule the buffer holds a prefix of the stream, the longest there is room for when reception is over |
| `TrfReceive.ReceiveTurnEnds` | drivers/trf797x/trf797x_initiator.c:17-23 | what a turn does about every end of a wait and every interrupt status: the error that ends it, the drain, the end of reception |
| `TrfReceive.ReceptionComplete` | drivers/trf797x/trf797x_initiator.c:131-139 | if all has come in when the last status is read, the FIFO is empty afterwards and the buffer holds all there is room for |
| `TrfReceive.EmptyListRefused` | drivers/trf797x/trf797x_initiator.c:62 | an empty list is refused and the chip left alone |
| `TrfReceive.TransceiveDelivers` | drivers/trf797x/trf797x_initiator.c:60-142 | a call that returns a count has sent its whole list and received a prefix of the answer, all there is room for if it had come in by the end of reception |
| `TrfInitiator.Initiator.Transmit` | drivers/trf797x/trf797x_lld.c:92-130 | pointer, count and last size are those of the gathering, the chip has read the specified byte stream |
| `TrfInitiator.Initiator.FifoFill` | drivers/trf797x/trf797x_lld.c:132-139 | as much as has room is written, and its size returned |
| `TrfInitiator.Initiator.FifoDrain` | drivers/trf797x/trf797x_lld.c:141-161 | the bytes with room go to the buffer, the rest are read and dropped |
| `TrfInitiator.Initiator.ContinueSending` | drivers/trf797x/trf797x_initiator.c:78-113 | the loop runs the sending machine to its end |
| `TrfInitiator.Initiator.ReceiveAnswer` | drivers/trf797x/trf797x_initiator.c:81-141 | the loop runs the receiving machine to its end, the rest of the buffer is unchanged |
| `TrfInitiator.Initiator.Transceive` | drivers/trf797x/trf797x_initiator.c:60-142 | result, chip and buffer are those of the two machines in turn, after the read that clears old interrupts |
| `TrfSchedule.CallSucceeds` | drivers/trf797x/trf797x_initiator.c:60-142 | for every list that does not stop on a boundary and every answer there is a schedule under which the list goes out and the call returns the answer, cut at the room |
| `TrfSchedule.SendAll` | drivers/trf797x/trf797x_initiator.c:85-113 | however much is left to write, a schedule under which the loop ends normally |
| `TrfSchedule.TakeAll` | drivers/trf797x/trf797x_initiator.c:116-141 | however much is to come in, a schedule under which all of it is read |
| `FrameBudget.FrameListBytes` | libs/nfc/iso14443a.c:38-44 | the two-entry gather list is the frame with its checksum |
| `FrameBudget.BudgetKeptIff` | libs/nfc/iso14443.c:115-181 | no request, card or answers make a frame exceed `fsd`, `fsc` or 256 bytes exactly when `fsd` and `fsc` are above 3 |
| `FrameBudget.FramesAreFull` | libs/nfc/iso14443.c:115-161 | a request that fits the smallest of `fsd`, `fsc` and 256 goes out as one block; otherwise, above 3, every chained block with its checksum has exactly that size |
| `FrameBudget.SmallSizes` | libs/nfc/iso14443.c:115-161 | below 3 nothing is chained and the block is the whole request or overruns the buffer; at 3 empty blocks are chained |
| `FrameBudget.FrameGoesOut` | drivers/trf797x/trf797x_device.c:28-44 | every such frame is a single fill, goes out whole under any schedule, and never takes the driver beyond its list |
| `FrameBudget.AnnouncementKeepsAnswersSmall` | libs/nfc/iso14443a.c:126 | a card that keeps to the announced size fits the FIFO and the block buffer |
| `RadioLink.DriverIsADevice` | drivers/trf797x/trf797x_device.c:28-38 | for every block-protocol frame within the FIFO, every state and schedule of the chip, result and buffer are those of one device answer, and of the whole frame if it had come in when the last status was read |
| `RadioLink.AirIsLossless` | drivers/trf797x/trf797x_initiator.c:60-142 | a whole exchange over the transceiver in which the card's answers come in ends like one on a link that loses nothing |
| `RadioLink.AirCarries` | drivers/trf797x/trf797x_initiator.c:60-142 | every exchange on such a link can be had over the transceiver |
| `RadioLink.AirDeliversIff` | libs/nfc/iso14443.c:106-227 | a call over the transceiver does what it is for exactly under the condition of `CallDeliversIff` |
| `RadioLink.AirCallHappens` | libs/nfc/iso14443.c:106-227 | there are schedules for every such call |
| `Gpio.PackedIsRequested` | drivers/gpio/stm32/v2/gpio_lld.c:104-108 | the driver reads out of a mode word the five fields packed into it as `gpio_lld.h` does |
| `Gpio.OnePad` | drivers/gpio/stm32/v2/gpio_lld.c:112-140 | five writes give one pad what was requested, touch no other, and change its effect in one step |
| `Gpio.FieldWise` | drivers/gpio/stm32/v2/gpio_lld.c:100-151 | afterwards pads of the mask have the fields packed into the mode word, all others theirs |
| `Gpio.GlitchFree` | drivers/gpio/stm32/v2/gpio_lld.c:122-139 | in every state of the write trace a pad has its old or its final effect, changes over at most once, and pads outside the mask never change |
| `Gpio.OrderMatters` | drivers/gpio/stm32/v2/gpio_lld.c:122-139 | the other order of the last two writes glitches exactly when the function number changes while "alternate" is entered or left |
| `Gpio.ReservedBits` | drivers/gpio/stm32/v2/gpio_lld.c:119 | the bits of OTYPER that belong to no pad are kept |
| `Gpio.Port.SetPortMode` | drivers/gpio/stm32/v2/gpio_lld.c:100-151 | registers and recorded writes are exactly those of the trace, within 16 turns |
| `Gpio.Port.SetPad` | drivers/gpio/stm32/v2/gpio_lld.c:112-139 | the five writes of one turn, in their order |
| `Gpio.Port.WriteAf` | drivers/gpio/stm32/v2/gpio_lld.c:125-128 | the function number goes to the register of the pad's half |

## Hypotheses

- A conforming card's replies come in pieces that fit the largest frame. What the reader does with
  requests that have no room, or too much of it, is in `CallEndsIff` and `RequestSegmented`.
- A gather list has at least one bit in all: otherwise the size of the last write is never
  assigned (`trf797x_lld.c:94`). For conservation its total is below 2^15 bits, which is what
  the length registers hold, and only its last entry may end within a byte.
- `ReplyReassembled` asks that accepted reply blocks are long enough for header and checksum;
  `CopyIsInf` says what happens to one that is not.

## Left out

- Iso14443.Driver.ExchangeBlocks: a copy that would leave the 256-byte buffer ends the model with the outcome `Overrun`, because what the code does from there on is undefined.
- TrfInitiator.Initiator.Transceive: a read beyond the gather list ends the model with the result `BeyondList`, for the same reason.
- TclReader.CopyIsInf: an accepted block that is too short is not given a meaning for the whole run, only for the block, because later blocks may repeat the bytes it left in the buffer.
- Activation.IdOverflows: the copy beyond the ten bytes of `nfcid` (`iso14443.h:11-14`) is modelled as if there were room; in the source it overwrites what the structure holds behind them (`state`, perhaps more, `iso14443.h:23-30`), which depends on its layout, so that nothing is said of the driver after such a run.
- Damaged answers in what is said of replies: the code does not look at the checksums of reply blocks. `SessionInOrder` allows them, on the card's side.
- Timeouts, delays and the frame waiting time as time: a timeout is one of the failures a device may return.
- The chip's overflow: in the model a byte for which the FIFO has no room waits on the air.
- The anticollision command of higher levels carries seven bytes (`iso14443a.c:86`); the modelled card answers on the first two. Collisions and several cards in the field.
- `nfc_iso14443a_close` (HLTA), type B cards, and the dispatch in `nfc.c`.
- SPI clocking and chip select, power-up, RF level, the driver's start and stop sequence, event flags, and the kernel underneath.
- Board, clock and USB configuration, tracing and the LED thread.
