# Verified model of the streaming transport

A Dafny model of the transport core of the chiaki library, with proofs. It covers the code that has to behave like
something simple although packets are lost, repeated and reordered, counters wrap around and a background thread works
on the same buffers:

* the key stream of a connection: the 128 bit counter, direct generation, the ring buffer cache that a background thread
  fills while readers use it, decryption at any position, and the recovery of 64 bit positions from 32 bits
  (`Counter`, `KeyStream`, `GKCrypt`, `KeyState`, `TakionCrypt`);
* the receiving half of Takion's reliable data channel: the reorder queue on its ring, and the drain loop with its
  adaptive gap threshold (`ReorderQueue`, `TakionData`, `TakionRun`);
* the sending half: the retransmit buffer with its in-place compaction and its resend pass (`SendBuffer`);
* video: a frame is put together in place from units and erasure codes, and the receiver decides what is decoded, which
  references are held, which gaps are reported and when a key frame is requested (`FrameProcessor`, `FrameDelivery`,
  `VideoGap`, `VideoSpec`, `VideoReceiver`, `VideoRun`);
* the framing of the control connection, the search for the MTU, and base64 (`Ctrl`, `Senkusha`, `Base64`).

Objects that the library updates through pointers are classes here, with the library's fields and loops; ghost fields
hold what the state stands for. The main results are about whole runs: a method creates the objects, performs any
script of events on them, and its contract states what holds for every such script.

`dafny verify dfyconfig.toml` checks the project.

## Conventions

* Wrapping numbers. Sequence numbers, frame indices and the low halves of positions are residues; a ghost parameter
  gives the true number. Serial comparison of two numbers at exactly half the range apart tells nothing
  (`SerialOrderUndefined`), so true numbers are taken to be nearer than that. 64 bit positions are kept a ring's
  length below 2^64.
* The block number of the key stream passes through an `int` (`counter_offset`, lib/src/gkcrypt.c:247). Its overflow
  is taken to wrap in two's complement. `CounterBlockValue` proves exactly which blocks get the counter one expects:
  the first 2^31.
* Foreign calls are parameters: the block cipher is any function of a block; the erasure decoder any function that
  keeps the shape of the rows; clocks, MAC results, parser results and callback results are part of the script of a
  run.
* A lock region is one step. The one place where the library unlocks in the middle, the generation of a chunk, is cut
  into steps between which readers may run and the chunk being written may hold anything.
* Characters are their codes from 0 to 255: `char` is taken to be unsigned.
* A failing assertion of the library ends the run, and so does a write through a null pointer; both are outcomes of the
  operations concerned, and the contracts say exactly when they occur.

## What turned out not to hold

The code is modelled as it is. These are proved, each with its exact condition or a concrete case:

* Counter addition forms its first sum in 64 bits, which may wrap: it is addition modulo 2^128 if and only if that
  step does not wrap (`CounterIsSum`). Two blocks share a counter if and only if their numbers agree modulo 2^32
  (`CounterBlocksEqual`), so that two positions share a key stream byte if and only if they agree modulo 2^36
  (`SharedByte`). Two payloads of a session share one exactly when their stretches of positions meet modulo 2^36
  (`SharedIff`): never within the first 2^36 positions (`NoSharedByte`), but in a session of three packets beyond that
  (`SharedAfterWrap`).
* The size of a packet plus its remainder modulo 16 may wrap: fewer positions than bytes are reserved exactly for the
  eight greatest sizes (`SpentCovers`, `SpentWraps`).
* With a ring of a single chunk the cache window can start past the furthest request (`OneChunkOvertakes`).
* Recovery of a position fails beyond 2^31, with a few exceptions (`ReconstructIff`).
* Once the crypt is known, the held packets are to be checked again (lib/src/takion.c:1159), but the loop passes no
  place for the number to `peek`, which writes one without looking (lib/src/reorderqueue.c:209). So the recheck gets
  through if and only if nothing is held (`RecheckMacs`, `RecheckGetsThrough`); a packet one past the head and then a
  recheck is a run that ends there (`RecheckFaults`). As the code stands no packet is ever removed for its MAC.
  `Receive` holds for the code as it is, up to the fault, and for the call repaired.
* The sum of two 16 bit numbers is not reduced, as C adds them as `int` (lib/src/reorderqueue.c:53). The 16 bit queue
  calls a number by its residue only as long as counting up to it stays below 2^16 (`PlusIs`). A push fails the
  assertion of line 110 exactly if the window is not empty and the number is that of the head, which goes by 65536, or
  that of the end, which does not go by its residue (`Push`, `NextStumbles`, `HeadStumbles`). The scan for an offset
  misses exactly the number 0 unless the queue began there (`OffsetForSeq`, `ScanMisses`). A queue that stays below
  2^16 has none of this (`BelowModulus`).
* The first-set hint of the reorder queue can be wrong without Takion's discipline (`StaleHint`): `FindFirstSet` finds
  the first packet if and only if none lies before the point where its scan starts.
* A packet pulled is the first arrival of its number unless an earlier one came from beyond the window, or was removed
  for a bad MAC (`FirstArrivalPulled`, `SecondArrivalPulled`).
* A request to drain the data queue between packets has nothing to drain (`DropDataQueue`).
* A number is drawn under a lock that is released before the packet is pushed (lib/src/takion.c:667-687), so two
  senders can push in the opposite order. Under a monotone clock a packet given up is still the first of the list, so
  that stepping the index back passes over none (`NoneClashes`, `StepBack`); but its cumulative acknowledgement removes
  it alone, for which there is room, if and only if no other packet held is covered by its number (`GiveUpAlone`), and
  in one run it removes two (`OutOfOrderGiveUp`). A pass gets to its end if and only if that does not happen (`Resend`).
* A control message whose size is within 8 of 2^32 is dispatched with a payload beyond the end of the buffer, because
  the 32 bit sum of size and header wraps (`OverrunHeaders`, `Serve`).
* One erasure decoder can restore several frames if and only if any two of them with the same counts differ in more rows
  than there are parity rows, or in none (`RestoringDecoder`, `RestoredApart`).
* The range last reported as corrupt starts out as 0 to 0, so frame 0 alone is taken for reported until something has
  been reported (`FirstReportSkipped`, `FateOfGap`); gaps longer than 4096 frames are dropped unreported. The range
  last sent is never forgotten, so a gap that starts a multiple of 2^16 frames later is taken for reported
  (`RepeatsIff`, `SkippedAfterWrap`).
* Missing frames are found by a comparison of 16 bit numbers: not if there are 2^15 up to 2^16 of them (`GapFoundIff`).
* The outbound MTU search never tries the largest size unless the inbound result is that size: it then falls short by
  one (`Senkusha.Run`).

## Model
| member | source | states |
|---|---|---|
| SeqNum.SerialOrder | lib/include/chiaki/seqnum.h:17-40 | serial comparison of two residues orders the true numbers whenever they are less than half the range apart |
| SeqNum.SerialOrderUndefined | lib/include/chiaki/seqnum.h:17-40 | at exactly half the range neither comparison holds, though the numbers differ |
| Counter.CounterAdd | lib/src/gkcrypt.c:166-179 | the byte loop with early exit writes, at an offset and nowhere else, the little-endian sum of base and addend |
| Counter.CounterIsSum | lib/src/gkcrypt.c:166-179 | the result is addition modulo 2^128 if and only if the first 64 bit step does not wrap |
| Counter.SumValue | lib/src/gkcrypt.c:166-179 | bytewise carry addition is addition of the values modulo 256 to the length |
| Counter.ValueInjective | lib/src/gkcrypt.c:166-179 | equally long byte strings with equal values are equal, so the sum is determined |
| Bytes.Xor | lib/src/gkcrypt.c:333-353 | each bit of the result is the parity of the bits of the two bytes |
| Bytes.XorDetermined | lib/src/gkcrypt.c:333-353 | and no other byte has these bits |
| KeyStream.Cipher.CounterBlockValue | lib/src/gkcrypt.c:247-263 | the counter of block n is the IV plus n modulo 2^128 exactly for the first 2^31 blocks |
| KeyStream.Cipher.StreamBlocks | lib/src/gkcrypt.c:247-276 | the key stream of a block is the cipher applied to the one block whose value is the IV plus the block number as an int, modulo 2^128 |
| KeyStream.Cipher.CounterBlocksEqual | lib/src/gkcrypt.c:247-263 | two blocks share a counter if and only if their numbers agree modulo 2^32, because the block number is an int |
| KeyStream.Cipher.SharedByte | lib/src/gkcrypt.c:247-276 | two positions take the same byte of the same encrypted counter if and only if they agree modulo 2^36 |
| KeyStream.GenKeyStream | lib/src/gkcrypt.c:214-276 | generation in place, counters first and encryption second: the 16 bytes of each block are what the cipher makes of its counter, of value IV plus block number for the first 2^31 blocks; nothing else is touched |
| KeyStream.Cipher.CryptTwice | lib/src/gkcrypt.c:333-353 | decryption at a position is its own inverse |
| KeyStream.Cipher.CryptMasks | lib/src/gkcrypt.c:333-353 | encryption makes of each bit its parity with the bit of the encrypted counter at its place |
| KeyStream.Cipher.CryptSplit | lib/src/gkcrypt.c:333-353 | adjacent pieces decrypted separately equal the whole decrypted at once |
| GKCrypt.GKCrypt.GetKeyStream | lib/src/gkcrypt.c:283-331 | whatever the state of the ring, the bytes are those of direct generation, block by block the encrypted counters; the furthest position and the wake-up are exact |
| GKCrypt.GKCrypt.CopyOut | lib/src/gkcrypt.c:300-326 | a copy out of the ring, in one or two pieces, yields the key stream |
| GKCrypt.GKCrypt.Decrypt | lib/src/gkcrypt.c:333-353 | in place at any, also unaligned, position each bit of byte i becomes the parity of it and of key stream byte position plus i |
| GKCrypt.GKCrypt.FillerWake | lib/src/gkcrypt.c:462-541 | the background thread makes room as the code does, the window never moves back, and the chunk it begins fits (the assertion of line 479) |
| GKCrypt.GKCrypt.FillerScribble | lib/src/gkcrypt.c:484-491 | whatever the unlocked write leaves in its chunk, the window stays coherent |
| GKCrypt.GKCrypt.FillerFinish | lib/src/gkcrypt.c:486-496 | a completed chunk extends the window; a failed one ends the thread |
| GKCrypt.RunSchedule | lib/src/gkcrypt.c:278-331 | over every interleaving of readers and filler steps every request gets, block by block, the encrypted counters of its positions; the window start never decreases and, with two chunks, never passes the furthest request |
| GKCrypt.OneChunkOvertakes | lib/src/gkcrypt.c:516-541 | with one chunk the window does start past the furthest request |
| KeyState.KeyState.RequestPos | lib/src/gkcrypt.c:553-565 | returns and, if asked, commits the reconstructed position |
| KeyState.ReconstructExact | lib/src/gkcrypt.c:553-565 | every position less than 2^31 away is recovered, up and down and across 2^32 boundaries |
| KeyState.ReconstructIff | lib/src/gkcrypt.c:553-565 | exactly which positions are recovered |
| KeyState.Track | lib/src/gkcrypt.c:548-570 | in any run in which each position is less than 2^31 from the last committed one, every position is recovered |
| KeyState.ReconstructAgain | lib/src/gkcrypt.c:553-565 | a position recovered and committed is recovered once more, as the parser does |
| TakionCrypt.Sender.AdvanceKeyPos | lib/src/takion.c:532-556 | reserves the size plus its remainder in size_t arithmetic, or fails and reserves nothing; without a cipher it answers 0 |
| TakionCrypt.SpentCovers | lib/src/takion.c:534 | at least as many positions are reserved as there are bytes if and only if that sum does not wrap |
| TakionCrypt.SpentWraps | lib/src/takion.c:534 | it wraps exactly for the eight greatest sizes |
| TakionCrypt.Sender.SendEncrypted | lib/src/takion.c:785-869 | each bit of the payload is sent as its parity with the key stream one block past the reserved position, of which the low 32 bits are sent |
| TakionCrypt.Receiver.Receive | lib/src/takion.c:1322-1357 | the position is recovered, committed only after the MAC has been found right, recovered again and the payload decrypted one block past it; a wrong MAC changes nothing |
| TakionCrypt.Receiver.TakePlain | lib/src/takion.c:1322-1357 | a packet that is not encrypted commits its position as well, once its MAC has been found right |
| TakionCrypt.PositionsDisjoint | lib/src/takion.c:532-556 | the stretches of positions of the payloads of a session are disjoint |
| TakionCrypt.SharedIff | lib/src/gkcrypt.c:247-276 | two payloads share a key stream byte if and only if their stretches of positions meet modulo 2^36 |
| TakionCrypt.NoSharedByte | lib/src/takion.c:532-556 | no two payloads of a session share a key stream byte as long as it spends no more than 2^36 positions |
| TakionCrypt.SharedAfterWrap | lib/src/takion.c:532-556 | a session beyond that whose two payloads do share one |
| TakionCrypt.AnAdmissibleSession | lib/src/takion.c:785-869 | a session with an encrypted packet delivered twice meets what is asked of sessions |
| TakionCrypt.RunSession | lib/src/takion.c:785-869 | in every session with reordering below 2^31, loss and duplication, with packets that are not encrypted but commit their positions, any others of a wrong MAC and any steps of both caches: each payload sent is on the wire masked bit by bit with the key stream of its position, and each encrypted packet delivered yields its payload |
| ReorderQueue.ReorderQueue.Push | lib/src/reorderqueue.c:79-167 | which packets are let in, turned away or pushed out, the window moved just so far that the packet fits, the drops in order and the hint, for both drop strategies and both widths; and exactly when the assertion of line 110 fails, which takes 16 bits |
| ReorderQueue.ReorderQueue.Pull | lib/src/reorderqueue.c:169-197 | the packet at the head, if it is there, and nothing else is taken |
| ReorderQueue.ReorderQueue.Peek | lib/src/reorderqueue.c:199-212 | looks up an offset in the packets held, in spite of stale flags outside the window, and writes through a null pointer exactly when a packet is found and a place was not given |
| ReorderQueue.ReorderQueue.FindFirstSet | lib/src/reorderqueue.c:214-241 | finds a packet if and only if the window is not empty; it is the first one if and only if none lies before the hint |
| ReorderQueue.ReorderQueue.DropAt | lib/src/reorderqueue.c:243-288 | removes one packet, shortens the window and keeps an exact hint exact |
| ReorderQueue.ReorderQueue.SkipGap | lib/src/reorderqueue.c:290-322 | moves the head by one, handing what was there, or nothing, to the callback |
| ReorderQueue.ReorderQueue.Fini | lib/src/reorderqueue.c:64-77 | hands over all packets held, in order |
| ReorderQueue.DropsAreAll | lib/src/reorderqueue.c:64-77 | the packets dropped between two numbers are all those held there, once each and in order |
| ReorderQueue.ReorderQueue.OffsetForSeq | lib/src/reorderqueue.c:17-29 | the linear scan finds the offset of any number in the window, except the number 0 of a 16 bit queue that has not begun there |
| ReorderQueue.ReorderQueue.PlusIs | lib/src/reorderqueue.c:50-53 | the sum of two numbers leads to the right slot, and is the residue of the true sum if and only if sums are reduced or this one stays below the modulus |
| ReorderQueue.ReorderQueue.BelowModulus | lib/src/reorderqueue.c:50-53 | a 16 bit queue whose numbers stay below 2^16 has no failing assertion, no missed number and true names |
| ReorderQueue.NextStumbles | lib/src/reorderqueue.c:106-110 | in a 16 bit queue that begins at 65535 the packets 65535 and 0, in order, fail the assertion |
| ReorderQueue.HeadStumbles | lib/src/reorderqueue.c:106-110 | so does the missing packet 0 at the head after 65535 has been pulled |
| ReorderQueue.ScanMisses | lib/src/reorderqueue.c:17-29 | in a 16 bit queue that begins at 65534 the packet 0 is held but the hint stays invalid |
| ReorderQueue.ReorderQueue.CountIsExtent | lib/src/reorderqueue.c:243-269 | a window that is not empty ends with a packet, so the count is zero exactly when nothing is held |
| ReorderQueue.StaleHint | lib/src/reorderqueue.c:214-241 | after push 0, push 1, pull, push 2 the search returns 2 although 1 is held |
| TakionData.DataReceiver.FlushDataQueue | lib/src/takion.c:1470-1586 | the drain loop ends and is exactly the drain that pulls while it can and skips a gap if and only if the first packet behind it has waited longer than the threshold; the events are, one for one and in order, those of the packets pulled that have a known type, each with its type and the rest of its payload; the hint is exact again |
| TakionData.EventsMatch | lib/src/takion.c:1486-1514 | events correspond one for one, in order, to the pulled packets of at least 9 bytes and a type among 0, 7, 9 and 11, and tell that type and the rest of the payload |
| TakionData.DrainIs | lib/src/takion.c:1470-1586 | of the packets held, those below the new head are handed on; a missing number is passed only when the clock has shown the packet behind it to be older than the threshold, and the drain stops only when it has shown it not to be |
| TakionData.DataReceiver.GapExpired | lib/src/takion.c:1525-1561 | the hinted search finds the first packet held, whose age is compared with the clamped threshold |
| TakionData.ThresholdIs | lib/src/takion.c:1535-1544 | the threshold by cases: 2000, the maximum, or in between two and a half times the estimate |
| TakionData.DataReceiver.SkipMissing | lib/src/takion.c:1573-1577 | a gap is only ever skipped at an empty head slot, so the callback gets no packet |
| TakionData.DataReceiver.HandleData | lib/src/takion.c:1640-1704 | a packet is numbered, stamped, pushed and the queue drained; too short a one changes nothing |
| TakionData.EstimateMoves | lib/src/takion.c:1660-1693 | each packet moves the jitter estimate by an eighth, rounded down, towards the change of the time between packets that it brings |
| TakionData.ChangeIs | lib/src/takion.c:1660-1693 | with a clock that does not run backwards that change is the difference, either way, of the last two times between packets |
| TakionData.EstimateBounded | lib/src/takion.c:1660-1693 | the estimate never exceeds the greatest change so far, unless that is so great that the 64 bit sum wraps |
| TakionRun.RunJitter | lib/src/takion.c:1660-1693 | in every run the estimate is that of the arrival times on record |
| TakionRun.RunJitterBounded | lib/src/takion.c:1660-1693 | so in every run it stays below the greatest change between those |
| TakionData.DataReceiver.RecheckMacs | lib/src/takion.c:1152-1172 | the loop gets through if and only if nothing is held, as it gives no place for the number; given one, it removes exactly the packets held with a bad MAC, one after the other, and the hint stays exact |
| TakionRun.RecheckFaults | lib/src/takion.c:1152-1172 | a packet one past the head and a recheck: the run ends there |
| TakionRun.RecheckGetsThrough | lib/src/takion.c:1152-1172 | after any script a recheck gets through if and only if nothing is held |
| TakionData.DataReceiver.DropDataQueue | lib/src/takion.c:1588-1609 | the drain request; between packets it changes nothing |
| TakionData.FirstArrivalPulled | lib/src/takion.c:1640-1704 | a packet pulled is the first arrival of its number if and only if no earlier one was lost, coming from beyond the window or removed for its MAC |
| TakionRun.SecondArrivalPulled | lib/src/takion.c:1640-1704 | a script and a clock with which a second arrival is the one pulled |
| TakionRun.Receive | lib/src/takion.c:1470-1586 | over every run, up to the first recheck that faults: each action does just what is said of it, and in sum each arrival is exactly once pulled, dropped or still held; pulled numbers strictly increase, each the first arrival of its number that was not lost; the events are, one for one, those of the packets pulled that have a known type, with the bytes of their payloads; the acknowledgements name the last packet pulled and strictly increase; the packets handed to the drop callback are those dropped; without the repair nothing is removed for its MAC |
| TakionRun.RunMoves | lib/src/takion.c:1470-1704 | every run, as far as it gets, is made up of steps stated by the packets: let in if in the window and not held, then drained with the new threshold; purged; or nothing |
| SendBuffer.SendBuffer.Push | lib/src/takionsendbuffer.c:85-135 | appends, or refuses when full or when the number is held, freeing the buffer |
| SendBuffer.SendBuffer.Ack | lib/src/takionsendbuffer.c:137-197 | the multi-gap compaction in place leaves, by true numbers, exactly the packets numbered above the one acknowledged, in order; the numbers and freed buffers are those of all others, in order |
| SendBuffer.CoveredIff | lib/src/takionsendbuffer.c:151 | by true numbers, a packet is covered if and only if its number is not greater |
| SendBuffer.AckUpTo | lib/src/takionsendbuffer.c:137-197 | so of a list just the packets with greater numbers are left, and all others removed, both in order |
| SendBuffer.SendBuffer.Resend | lib/src/takionsendbuffer.c:241-270 | one pass over any array while it changes: every packet last sent more than 200 ms ago is sent again with one try more, or given up after ten tries, none is skipped, and it ends, unless the acknowledgement of a packet given up removes another one and overruns the room for one number, which is exactly when the packet clashes |
| SendBuffer.PassedAll | lib/src/takionsendbuffer.c:241-270 | what a pass that gets to the end does to every packet, by its time and its tries |
| SendBuffer.AloneInPass | lib/src/takionsendbuffer.c:250-262 | when its turn comes, that acknowledgement removes one packet if and only if the packet does not clash with one still held |
| SendBuffer.NoneClashes | lib/src/takionsendbuffer.c:250-262 | under a monotone clock the index is stepped back from 0 only, so no packet is passed over; with increasing numbers besides no packet clashes |
| SendBuffer.StepBack | lib/src/takionsendbuffer.c:261 | otherwise as many packets behind are passed over as have been removed before the one given up |
| SendBuffer.GiveUpEffect | lib/src/takionsendbuffer.c:241-270 | a packet given up is the first one left, and its cumulative acknowledgement removes exactly it |
| SendBuffer.GiveUpAlone | lib/src/takionsendbuffer.c:250-262 | that acknowledgement removes one packet, for which it has room, if and only if no other packet held is covered by the number |
| SendBuffer.OutOfOrderGiveUp | lib/src/takionsendbuffer.c:241-270 | a run of monotone time with two packets pushed in the opposite order in which it removes two |
| SendBuffer.RunInOrder | lib/src/takionsendbuffer.c:85-270 | over every run with a monotone clock earlier packets have more tries, or as many and no later a send time; and lower numbers if they are pushed in that order |
| SendBuffer.KeptInOrder | lib/src/takionsendbuffer.c:137-197 | acknowledgements keep that order |
| SendBuffer.KeptAndAcked | lib/src/takionsendbuffer.c:137-197 | an acknowledgement loses and duplicates nothing |
| SendBuffer.BuffersConserved | lib/src/takionsendbuffer.c:85-270 | over every run each buffer handed in is held or has been freed exactly once |
| SendBuffer.RunScript | lib/src/takionsendbuffer.c:85-270 | under a monotone clock and in whatever order packets are pushed, each action up to the first overrun does just what is said of it, by true numbers and times, and there is no overrun if numbers are pushed in increasing order; numbers stay distinct and the size bound is kept |
| SendBuffer.ObserveMoves | lib/src/takionsendbuffer.c:85-270 | the views of every run are made up of such pushes, acknowledgements and passes |
| SendBuffer.NeverFaults | lib/src/takionsendbuffer.c:241-270 | with numbers pushed in increasing order no pass overruns |
| FrameProcessor.FrameProcessor.AllocFrame | lib/src/frameprocessor.c:67-148 | the status of every error path in order, and an empty frame with the sizes its first packet tells, high byte first |
| FrameProcessor.FrameProcessor.PutUnit | lib/src/frameprocessor.c:150-211 | a unit is taken in, or found an identical copy, or refused; counters and slots keep agreeing with the units held |
| FrameProcessor.FrameProcessor.Erasures | lib/src/frameprocessor.c:227-249 | the list is exactly the empty slots in ascending order, as many as the counters say, so neither assertion can fire |
| FrameProcessor.FrameProcessor.FlushPossible | lib/include/chiaki/frameprocessor.h:67-71 | says whether no more units are missing than parity units were to come |
| FrameProcessor.FrameProcessor.Fec | lib/src/frameprocessor.c:220-285 | the rows are those the decoder gives back and the sizes those their headers tell; a failure changes neither |
| FrameProcessor.FrameProcessor.Compact | lib/src/frameprocessor.c:306-328 | moving the payloads together in place never overwrites a unit still to be read |
| FrameProcessor.FrameProcessor.Flush | lib/src/frameprocessor.c:287-335 | which of the four results, and the frame with its padding within the buffer |
| FrameDelivery.FlushIs | lib/src/frameprocessor.c:287-335 | a frame is flushed as complete if and only if enough distinct units arrived, and then is the payload |
| FrameDelivery.PayloadCarried | lib/src/frameprocessor.c:306-328 | the payload is the source units without their two bytes of header, one after the other |
| FrameDelivery.AssembleAll | lib/src/frameprocessor.c:67-335 | frame after frame through one processor: in any order, with duplicates, each frame with at least as many distinct units as sources comes out as the source units without their headers, byte by byte one after the other, and no other is passed off as complete |
| FrameDelivery.RestoringDecoder | lib/src/fec.c:17-75 | one decoder meets the assumption for all frames of a list, if any two with the same counts differ in more rows than there are parity rows, or in none |
| FrameDelivery.RestoredApart | lib/src/fec.c:17-75 | and only then |
| VideoGap.DistanceIs | lib/src/videoreceiver.c:53-62 | the distance by cases is the 16 bit difference the code masks out |
| VideoGap.GapReport.Update | lib/src/videoreceiver_gap.c:7-50 | what was held and what was seen is held or handed back; action, deadline and new range are exact |
| VideoGap.Run | lib/src/videoreceiver_gap.c:7-50 | over every run each gap seen is covered by the very range that leaves the report next after it, or by the one held at the end; each range is one of the gaps it answers for; and the held gap falls due its hold time after it was first seen |
| VideoGap.AllAnswered | lib/src/videoreceiver_gap.c:7-50 | so no gap is lost, whatever has been handed back before, and none invented |
| VideoReceiver.PutReference | lib/src/videoreceiver.c:22-38 | the array holds the latest references, the oldest going when there are sixteen |
| VideoReceiver.VideoReceiver.HaveRefFrame | lib/src/videoreceiver.c:40-46 | holds exactly for the latest up to sixteen frames accepted since the last reset |
| VideoSpec.ReferencesAre | lib/src/videoreceiver.c:22-46 | by the entries of the log: the references are the latest sixteen frames accepted since the last reset |
| VideoReceiver.VideoReceiver.ReportCorrupt | lib/src/videoreceiver.c:71-90 | a range is sent unless it repeats the last one sent |
| VideoReceiver.VideoReceiver.FlushGap | lib/src/videoreceiver.c:92-118 | when the held gap is kept, sent, skipped as reported already, or suppressed as absurdly long |
| VideoSpec.HeldInTime | lib/src/videoreceiver.c:92-118 | after any packet a gap is held only if it is not yet due and shorter than 12 frames |
| VideoSpec.HeldUntilDue | lib/src/videoreceiver.c:92-118 | and until then it is held, or the longer one of the same start, or the new one |
| VideoReceiver.VideoReceiver.DetectGap | lib/src/videoreceiver.c:289-319 | the gap a frame reveals is joined with what is held or takes its place, with the deadline that follows |
| VideoSpec.DueTime | lib/src/videoreceiver.c:289-319 | a gap falls due 24 ms after it is first held |
| VideoReceiver.VideoReceiver.MaybeRequestIdr | lib/src/videoreceiver.c:120-150 | exactly when a key frame is requested (none pending, or for more than 1000 ms, and the last request 100 ms back), which puts the time on record, and whether a request stays pending |
| VideoSpec.FailureAsks | lib/src/videoreceiver.c:358-414 | after a failed recovery or a cascade skip, if requests can be sent, the last one is less than 100 ms old or one is pending for at most a second |
| VideoSpec.WholeFrameAsks | lib/src/videoreceiver.c:429-455 | a key frame ends the wait for one; any other whole frame makes the request anew when its time has come |
| VideoReceiver.VideoReceiver.FlushFrame | lib/src/videoreceiver.c:358-514 | the effect of a flush, in all its branches, on references, submissions, the last complete frame, the loss counters, the key frame request and the reports; after a failed recovery or a cascade skip a request is fresh |
| VideoSpec.FlushSubmits | lib/src/videoreceiver.c:429-514 | a whole frame whose reference is held is submitted with it |
| VideoSpec.FlushRecovers | lib/src/videoreceiver.c:457-488 | one whose reference is not held is submitted with the nearest one held before that, or lost if there is none or it cannot be changed |
| VideoSpec.FlushWithout | lib/src/videoreceiver.c:358-427 | what a cascade skip, a failed recovery or a failed flush leaves |
| VideoSpec.FailureCounts | lib/src/videoreceiver.c:404-423 | by true frame numbers, the frames reported and counted as lost after a failed recovery |
| VideoReceiver.VideoReceiver.CheckReference | lib/src/videoreceiver.c:457-488 | a frame passes if its reference is held or the nearest one held before it can be put in its place |
| VideoReceiver.VideoReceiver.AvPacket | lib/src/videoreceiver.c:239-356 | the effect of a packet on the whole state: a due gap reported, old frames and unknown streams ignored, the frame before ended, the gap seen, the frame flushed when possible |
| VideoSpec.PacketFlushes | lib/src/videoreceiver.c:239-356 | a packet makes its frame the current one, and exactly when that has been flushed afterwards |
| VideoSpec.PacketSubmits | lib/src/videoreceiver.c:239-356 | a frame of which enough has arrived is submitted, if it needs no reference that is not held |
| VideoRun.LogArrived | lib/src/videoreceiver.c:239-356 | only frames of which a packet has arrived are ever submitted |
| VideoSpec.EachFollows | lib/src/videoreceiver.c:491-514 | in every log no frame follows itself or a later one, and each refers to none or to one of the latest accepted |
| VideoSpec.TrueReference | lib/src/videoreceiver.c:457-488 | by numbers that do not wrap: as long as no reference held is 2^16 frames old, the frame that a submitted frame refers to is held |
| VideoSpec.AllAccounted | lib/src/videoreceiver.c:92-118 | by 16 bit numbers, the frames found missing are those that became due to be reported and those still held |
| VideoSpec.AllKept | lib/src/videoreceiver.c:92-118 | in every ledger each gap seen is covered by the next one that becomes due after it, or else by the one held; each gap due is one of those seen since the one due before |
| VideoSpec.GapIsBetween | lib/src/videoreceiver.c:289-299 | by numbers that do not wrap: with the last complete frame less than 2^15 back, the gap found is just the frames in between |
| VideoSpec.GapFoundIff | lib/src/videoreceiver.c:289-292 | missing frames are found if and only if their number modulo 2^16 is neither 0 nor 2^15 or more; 32768 of them are not |
| VideoSpec.FateOfGap | lib/src/videoreceiver.c:71-118 | a gap that is due is sent, absurdly long, within a range sent before by its 16 bit numbers, which wrap, or frame 0 before anything was sent |
| VideoSpec.RepeatsIff | lib/src/videoreceiver.c:71-76 | by numbers that do not wrap: a range is skipped if and only if it starts a multiple of 2^16 after the last one sent and is shorter by less than 2^15, or as long |
| VideoSpec.SkippedAfterWrap | lib/src/videoreceiver.c:71-90 | frames 65541 to 65543 are never reported when 5 to 7 was the last range sent |
| VideoSpec.FirstReportSkipped | lib/src/videoreceiver.c:71-76 | with nothing sent yet just the range 0 to 0 is skipped |
| VideoRun.Receive | lib/src/videoreceiver.c:239-571 | over every run with frames within half the range the receiver is where the packets lead: frames are submitted in strictly increasing order and at most once, a dependent frame only with a reference held; the array holds the latest sixteen accepted since the last reset; every gap revealed is on record, and is covered by the next one due to be reported or else by the one held; the key frame requests made are those of the run, and at least 100 ms apart |
| VideoRun.RunAsks | lib/src/videoreceiver.c:120-150 | at the end of any run, a packet that leads to a failed recovery or a cascade skip leaves a fresh request, if requests can be sent |
| VideoRun.FirstRequest | lib/src/videoreceiver.c:404 | two packets that lead to exactly one request |
| VideoRun.RunHeldInTime | lib/src/videoreceiver.c:92-118 | after any run a gap that is held is not yet due and shorter than 12 frames |
| Ctrl.Ctrl.Parse | lib/src/ctrl.c:325-348 | all whole messages are dispatched in order, the rest stays at the start of the buffer, and there is room for more unless overflow is reported or a size wraps |
| Ctrl.OverrunHeaders | lib/src/ctrl.c:327-344 | exactly the sizes within 8 of 2^32 make the sum wrap, and are dispatched with a payload beyond the buffer |
| Ctrl.MessagesSplit | lib/src/ctrl.c:325-348 | it does not matter when the messages of a stream are taken out |
| Ctrl.ParsedBack | lib/src/ctrl.c:325-348 | messages framed one after the other, high bytes first, are parsed back into those messages |
| Ctrl.StreamCarries | lib/src/ctrl.c:325-348 | every stream is made up of the messages parsed from it and a tail that is none |
| Ctrl.Serve | lib/src/ctrl.c:323-354 | however the stream is cut into pieces it is the messages dispatched, each framed in its bytes, and a tail; overflow is reported exactly for a tail that is too long for the buffer, a payload beyond the buffer dispatched exactly for a size that wraps, and otherwise the buffer holds the tail |
| Senkusha.RunMtuIn | lib/src/senkusha.c:388-452 | the search ends for all answers; the result is the smallest size or one that worked and the next size did not; it is given up only for a request not sent or a stop; a threshold is found exactly |
| Senkusha.RunMtuOut | lib/src/senkusha.c:454-606 | the same with all error paths, except that a threshold at the largest size is missed by one unless the search begins there |
| Senkusha.Run | lib/src/senkusha.c:262-274 | both searches with the sizes they are run with |
| Base64.Encode | lib/src/base64.c:10-80 | succeeds if and only if there is room for 4 characters for every 3 bytes, rounded up, and the end mark; each four characters are the letters of the alphabet for the bits of three bytes |
| Base64.CharIs | lib/src/base64.c:12 | the character of each value is the one at its place in the alphabet |
| Base64.EncodingIs | lib/src/base64.c:23-78 | each three bytes become four letters of their bits, with padding for what is missing |
| Base64.Decode | lib/src/base64.c:100-153 | the status for every text and buffer size, and the bytes, whose bits are those of the letters read up to padding or another character |
| Base64.ClassIs | lib/src/base64.c:86-98 | the class of each character by the alphabet, newline and padding |
| Base64.DecodingPacks | lib/src/base64.c:100-153 | decoding packs the bits of the digits into as many bytes as they fill |
| Base64.RoundTrip | lib/src/base64.c:10-153 | decoding an encoding with newlines anywhere gives back the bytes, if and only if there is room for them |
| Base64.Transport | lib/src/base64.c:10-153 | encode, break into lines in any way, decode: the bytes are the same |

## Left out

- Sockets, threads, condition variables, stop pipes, logging, statistics and time sources: they decide nothing that is
  proved here except through the parameters named above.
- AES, HMAC, SHA, GCM, ECDH, the erasure code itself and protobuf: parameters or not modelled.
- The MAC of Takion packets (`chiaki_gkcrypt_gmac` and its key refresh): only its verdict appears, as a parameter.
- Allocation failures: every allocation succeeds.
- Null pointers for the optional results of `pull` and `find_first_set`, which test for them, an absent drop callback
  and an absent state in the gap report: such calls only do less.
- Distances of exactly half the number range, and 64 bit key stream positions within a ring's length of 2^64.
- GKCrypt.RunSchedule: a reader's whole call is one step; direct generation outside the lock touches only the reader's
  own buffer.
- SendBuffer.SendBuffer.Resend: the pass is atomic, though the code unlocks around an acknowledgement; the thread loop
  that waits between passes is not modelled.
- ReorderQueue.ReorderQueue.Push: with the strategy that drops from the front the hint is modelled as the code leaves
  it, but nothing is proved about it, as Takion does not use that strategy.
- TakionCrypt.Sender.SendEncrypted: packets with a cipher only, and sizes of objects that fit into memory, so that
  adding the block size does not wrap.
- TakionCrypt.Receiver.Receive: packets taken in without a cipher, which are postponed, are not part of the model.
- TakionRun.Receive: postponed packets and the log summaries are not part of the model.
- FrameDelivery.AssembleAll: the behaviour after a failed allocation, and units that arrive after the flush, are not
  covered.
- VideoReceiver.VideoReceiver.AvPacket: the frame processor and the parser are represented by what they answer; log
  and cadence statistics, video headers on a change of profile and the window counters are left out.
- Senkusha.RunMtuIn: the smallest size is taken to be no greater than the largest, as its one caller has it.
- Senkusha.RunMtuOut: the header formatting of the probe and the ping round trip test are not modelled.
- Base64.Decode: the text is indexed as unsigned (lib/src/base64.c:109); where `char` is signed, codes from 128 on would
  index outside the table.
- Ctrl.Ctrl.Parse: what the dispatcher does with a payload beyond the buffer is not modelled; the run ends there.
- The second receive path of the control connection (RUDP), its login, key exchange and keyboard messages: they exchange
  fixed message formats without state that spans messages.
- `rpcrypt.c`: key derivation from constant tables, and AES, which is a parameter elsewhere.
- `packetstats.c`: counters of packets received and lost and a running maximum of 16 bit numbers.
- Discovery and registration: request and reply texts; the AV headers: bit fields read at fixed offsets.
- Audio: hands decoded frames on one by one; controllers and front ends: input and display, outside the transport.
