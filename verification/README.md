# A verified model of the rusty-dilemma keyboard firmware core

rusty-dilemma is the firmware of a split keyboard with two halves. The halves talk over a half-duplex single wire. Each half:
- scans a key matrix and debounces it;
- runs a chording engine that turns pairs of keys into extra keys;
- drives a strip of per-switch and underglow LEDs with animations.

One half also has a Pinnacle trackpad. The firmware can log to the host, keep usage metrics in flash, update itself and enter the ROM's USB boot after a double tap of reset.

This project models the sequential logic at the heart of those pieces in Dafny and proves what each piece promises. It models:
- **The inter-board envelope and reliability layer.** Commands carry a uuid and an 8-bit XOR-folded checksum, and acknowledgements answer them. The receiver checks, acks and publishes each command. The sender waits for the ack and resends on a timeout.
- **The key pipeline.** This covers:
  - the integrating debouncer and the scan's event mapping;
  - the chording engine and the `chords!` macro's generated table;
  - the chord table data;
  - right-half mirroring and the key event and wire message mapping;
  - report de-duplication;
  - typing text as hex-code escapes for Linux and macOS.
- **The trackpad.** This covers:
  - glide (inertial scroll), in wrapping `i32` arithmetic with a floor square root;
  - the register byte layouts and defaults;
  - the register access protocol, as traces of SPI operations.
- **The small components:**
  - the PIO clock divisor and line-turnaround guard of both single-wire links;
  - flash page addressing and database mount;
  - the firmware-update command machine;
  - the logger's two-grant copy and chunked drain;
  - the metrics counters and their syncer;
  - the display's chunked SPI writes;
  - the double-tap boot check and the bootloader's jump;
  - host message side targeting.
- **The LED logic.** Values are fixed point, modelled as integers scaled by 2^16. This covers:
  - the layout tables;
  - the wrapping deltas and the ease-in-out fade;
  - the cross-fade hand-over;
  - gamma correction with error diffusion;
  - the snow and rain particle bookkeeping.

Time, randomness, the device's answers and the outcome of every I/O call are parameters. Channels and buses are sequences of what was sent on them. Integer widths are explicit: where the firmware's arithmetic overflows, the model wraps as a release build does.

## Model

| member | source | states |
|---|---|---|
| RgbLayout.Under | firmware/src/rgb/layout.rs:29-35 | an underglow light has its location, no matrix position and the underglow kind |
| RgbLayout.SwitchLight | firmware/src/rgb/layout.rs:37-43 | a switch light has its location, its matrix position and the switch kind |
| RgbLayout.IndexLights | firmware/src/rgb/layout.rs:46-62 | every light keeps its fields and gets its place in the chain as its index, `i as u16`, which is `i` itself for any table shorter than 65536 |
| RgbLayout.LeftU | firmware/src/rgb/layout.rs:70-72 | a left underglow location is mirrored about x = 90 |
| RgbLayout.LeftS | firmware/src/rgb/layout.rs:74-76 | a left switch location is mirrored about x = 90 and its matrix column counted from the right, 4 - mx |
| RgbLayout.RightU | firmware/src/rgb/layout.rs:136-138 | a right underglow location is shifted 180 mm along x |
| RgbLayout.RightS | firmware/src/rgb/layout.rs:140-142 | a right switch location is shifted 180 mm and its matrix column by 5 |
| RgbLayout.LeftUnindexed | firmware/src/rgb/layout.rs:81-122 | the left table lists 36 lights |
| RgbLayout.RightUnindexed | firmware/src/rgb/layout.rs:144-185 | the right table lists 36 lights |
| RgbLayout.TablesShape | firmware/src/rgb/layout.rs:81-185 | both tables hold 36 lights indexed in chain order, 18 underglow lights without a matrix position, then 18 switch lights with one |
| RgbLayout.HalvesMirror | firmware/src/rgb/layout.rs:81-185 | light i of the left half sits at 90 - x where light i of the right half sits at x + 180, at the same height |
| RgbLayout.SwitchColumns | firmware/src/rgb/layout.rs:100-122 | left switch lights use matrix columns 0 to 4, right ones 5 to 9, rows 0 to 3; in rows 0 to 2 the two columns of light i add up to 9 |
| RgbLayout.PositionsDistinct | firmware/src/rgb/layout.rs:100-122 | no two switch lights of one half share a matrix position |
| Cmd.LeBytes | shared/src/cmd.rs:113-127 | `to_le_bytes` of an n-byte integer gives exactly n bytes |
| Cmd.Pow256 | shared/src/cmd.rs:113-127 | the byte-width bound 256^n used by the integer writers is positive |
| Cmd.LeBytesRoundTrip | shared/src/cmd.rs:113-127 | reading the little-endian bytes back gives the value again whenever it fits in n bytes |
| Cmd.AsUnsigned | shared/src/cmd.rs:134-156 | the `as` cast of a signed integer to the unsigned type of the same width lands in that width |
| Cmd.WriteU8 | shared/src/cmd.rs:109-111 | a `u8` feeds the hasher the one byte itself |
| Cmd.WriteU16 | shared/src/cmd.rs:113-115 | a `u16` feeds two bytes that read back (little-endian) as the value |
| Cmd.WriteU32 | shared/src/cmd.rs:117-119 | a `u32` feeds four bytes that read back as the value |
| Cmd.WriteU64 | shared/src/cmd.rs:121-123 | a `u64` feeds eight bytes that read back as the value |
| Cmd.WriteU128 | shared/src/cmd.rs:125-127 | a `u128` feeds sixteen bytes that read back as the value |
| Cmd.WriteUsize | shared/src/cmd.rs:129-132 | a `usize` feeds one byte, and that byte is the same on a 64-bit host as on the 32-bit target: the XOR of the value's eight little-endian bytes |
| Cmd.UsizeWidthFree | shared/src/cmd.rs:129-132 | for a value below 2^32, XOR-folding its four little-endian bytes or its eight gives the same byte, since the high four are zero |
| Cmd.IsizeWidthFree | shared/src/cmd.rs:129-156 | for an `i32`-range value, XOR-folding its 4-byte or its 8-byte two's-complement form gives the same byte, since the four sign bytes are equal and cancel in pairs |
| Cmd.XorLowSymmetric | shared/src/cmd.rs:129 | XOR is commutative |
| Cmd.XorLowCancel | shared/src/cmd.rs:129 | XORing the same value in twice gives the start value back |
| Cmd.XorFacts | shared/src/cmd.rs:129 | on bytes, 0 is a right identity of XOR and XOR with a byte undoes itself |
| Cmd.LeBytesSplit | shared/src/cmd.rs:113-131 | the little-endian bytes of `lo + 256^n hi` are those of `lo` in n bytes followed by those of `hi` |
| Cmd.XorFoldFour | shared/src/cmd.rs:129 | folding four more bytes onto a sequence XORs them into its fold one by one |
| Cmd.LeBytesFour | shared/src/cmd.rs:129 | a value whose four bytes are all `v` has the little-endian bytes `[v, v, v, v]` |
| Cmd.WriteI8 | shared/src/cmd.rs:134-136 | an `i8` feeds what its unsigned cast feeds: one byte whose two's-complement little-endian reading is the value again, so the bytes determine it |
| Cmd.WriteI16 | shared/src/cmd.rs:138-140 | an `i16` feeds what its unsigned cast feeds: two bytes whose two's-complement little-endian reading is the value again, so the bytes determine it |
| Cmd.WriteI32 | shared/src/cmd.rs:142-144 | an `i32` feeds what its unsigned cast feeds: four bytes whose two's-complement little-endian reading is the value again, so the bytes determine it |
| Cmd.WriteI64 | shared/src/cmd.rs:146-148 | an `i64` feeds what its unsigned cast feeds: eight bytes whose two's-complement little-endian reading is the value again, so the bytes determine it |
| Cmd.WriteI128 | shared/src/cmd.rs:150-152 | an `i128` feeds what its unsigned cast feeds: sixteen bytes whose two's-complement little-endian reading is the value again, so the bytes determine it |
| Cmd.WriteIsize | shared/src/cmd.rs:154-156 | an `isize` feeds one byte, and that byte is the same on a 64-bit host as on the 32-bit target: the XOR of the eight two's-complement little-endian bytes of the value |
| Cmd.SignedWriteRecoverable | shared/src/cmd.rs:134-152 | for every width of 1, 2, 4, 8 or 16 bytes, reading the unsigned cast of an in-range signed value back in two's complement gives the value |
| Cmd.HashBytes | shared/src/cmd.rs:24-26 | the 64-bit hash splits into eight bytes |
| Cmd.CalcCsum | shared/src/cmd.rs:21-29 | the checksum is the XOR of the eight little-endian bytes of the hash of the stream |
| Cmd.XorFoldEight | shared/src/cmd.rs:28 | folding XOR over eight bytes from 0 is the XOR of all eight, in order |
| Cmd.XorFoldPrefix | shared/src/cmd.rs:28 | each further byte of the fold is XORed into the running value |
| Cmd.NewReliable | shared/src/cmd.rs:32-39 | a reliable command keeps its payload and uuid and always passes validation |
| Cmd.NewUnreliable | shared/src/cmd.rs:41-46 | an unreliable command keeps its payload and carries no checksum |
| Cmd.Validate | shared/src/cmd.rs:50-67 | an unreliable command always passes; a reliable one passes exactly when it equals the command rebuilt with the checksum recomputed from its payload and uuid |
| Cmd.AckOf | shared/src/cmd.rs:69-76 | exactly the reliable commands ask for an ack; it carries their uuid and passes `Ack::validate` |
| Cmd.AckValidate | shared/src/cmd.rs:92-100 | the ack comes back unchanged, and it is refused exactly when its checksum differs from the one of its uuid |
| Cmd.ValidIffRebuilt | shared/src/cmd.rs:32-67 | a reliable command validates exactly when it equals what `new_reliable` builds from its own payload and uuid |
| Cmd.CorruptedCsumRejected | shared/src/cmd.rs:50-67 | changing only the checksum of a valid reliable command makes it fail validation |
| Cmd.AckValidIffProduced | shared/src/cmd.rs:69-100 | an ack validates exactly when it is the ack a reliable command with its uuid produces |
| Transmissions.RxEffects | firmware/src/messages/transmissions.rs:87-116 | a corrupted or unreliable command has no effect; a valid reliable one is acked, then published; an ack wakes its waiter only when it validates |
| Transmissions.Receive | firmware/src/messages/transmissions.rs:87-116 | handling one frame: an ack removes its waiter and sets its event and changes nothing else; commands never touch the waiters; only a valid reliable command is acked on the mix channel and published |
| Transmissions.ReceiveFollowsEffects | firmware/src/messages/transmissions.rs:90-97 | receiving a frame applies its effects in order, the ack being enqueued before the payload is published |
| Transmissions.ReceiveAll | firmware/src/messages/transmissions.rs:67-120 | over any stream of frames the receiver only adds to what it published and to the set events, only removes waiters, never registers a handle, and enqueues only acks |
| Transmissions.Payloads | firmware/src/messages/transmissions.rs:91-97 | the payloads of a stream of frames are at most one per frame |
| Transmissions.PayloadsAppend | firmware/src/messages/transmissions.rs:70-119 | the payloads of two stretches of frames are those of each, in order |
| Transmissions.ReceiveAllPublishes | firmware/src/messages/transmissions.rs:67-120 | over any stream of frames exactly the payloads of the valid reliable commands are published, in arrival order, duplicates included |
| Transmissions.RetransmissionDeliveredTwice | firmware/src/messages/transmissions.rs:91-97 | a valid reliable command that arrives twice is acked twice and published twice |
| Transmissions.UnreliableNeverPublished | firmware/src/messages/transmissions.rs:92-97 | an unreliable command leaves the receiver unchanged, since publishing sits inside the ack branch |
| Transmissions.RegisterWaiter | firmware/src/messages/transmissions.rs:173-181 | inserting a waiter panics exactly when its uuid is new and all 128 slots are taken; otherwise the uuid maps to a fresh, unset event and nothing else changes |
| Transmissions.DeregisterWaiter | firmware/src/messages/transmissions.rs:183-185 | the uuid is removed from the waiter map, every other entry stays, and nothing else changes |
| Transmissions.SendUnreliable | firmware/src/messages/transmissions.rs:149-152 | one unreliable command with the payload is appended to the mix channel and nothing else changes |
| Transmissions.BeginAttempt | firmware/src/messages/transmissions.rs:155-158 | an attempt registers its waiter before enqueueing a reliable command under the given uuid, and panics exactly when registration does |
| Transmissions.Resume | firmware/src/messages/transmissions.rs:160-169 | the call can resume only once its event is set or the deadline has passed; a set event ends the call with the node unchanged, even past the deadline, because the waiter is polled first; only an unset event at the deadline deregisters the uuid and resends the same payload, with the same timeout, under the next uuid |
| Transmissions.Dispatch | firmware/src/messages/transmissions.rs:234-243 | a queued message with a timeout is sent reliably, one without unreliably |
| Transmissions.FreshInv | firmware/src/messages/transmissions.rs:188-196 | a new node with no call in progress satisfies the sender invariant |
| Transmissions.DispatchPreservesInv | firmware/src/messages/transmissions.rs:154-181 | from an idle sender no dispatch panics, the invariant holds after it, and the sender waits exactly when the message was reliable |
| Transmissions.WaitingAfterBegin | firmware/src/messages/transmissions.rs:155-158 | an attempt on an empty waiter map cannot panic and leaves a single waiter, its own |
| Transmissions.ResumePreservesInv | firmware/src/messages/transmissions.rs:160-169 | ending a wait, by success or by timeout and retry, never panics and keeps the invariant |
| Transmissions.ReceivePreservesInv | firmware/src/messages/transmissions.rs:102-112 | whatever frame arrives, the sender invariant survives it |
| Transmissions.OutFrames | firmware/src/messages/transmissions.rs:135-145 | each dequeued item whose encoding fits the 128-byte buffer gives one frame, the part of its encoding that the pipe accepted; an item that does not fit gives none |
| Transmissions.OutFramesAppend | firmware/src/messages/transmissions.rs:135-145 | draining the channel in pieces writes the same frames as draining it at once, in dequeue order |
| Transmissions.OutFramesAllFit | firmware/src/messages/transmissions.rs:139-143 | when every item fits the buffer there is one frame per item, the accepted prefix of its encoding, and it is the whole encoding exactly when the pipe took all of it |
| Transmissions.OversizedDropped | firmware/src/messages/transmissions.rs:139-143 | an item whose encoding does not fit the buffer is dropped without trace, whatever the pipe would accept |
| Transmissions.Delivered | firmware/src/messages/transmissions.rs:141 | what one `write` puts on the pipe is a prefix of the frame, all of it when the count covers the frame |
| Transmissions.LongFrameTruncated | firmware/src/messages/transmissions.rs:139-143 | a frame longer than the 16-byte pipe, written once, is cut to the count the pipe took and never goes out whole |
| Transmissions.WriteAll | firmware/src/messages/transmissions.rs:141 | repeated writes that each take at least one byte put a prefix of the frame on the pipe |
| Transmissions.WriteAllDelivers | firmware/src/messages/transmissions.rs:141 | with at least as many writes as the frame has bytes, the whole frame goes out |
| Transmissions.OutFramesWriteAll | firmware/src/messages/transmissions.rs:135-145 | the transmit loop with the write repeated until done writes at most one frame per dequeued item |
| Transmissions.OutFramesWriteAllWhole | firmware/src/messages/transmissions.rs:135-145 | when the writes are repeated until done and every item fits, each item goes out as its whole encoding, one frame per item, in order |
| Transmissions.ReliableRoundTrip | firmware/src/messages/transmissions.rs:154-171 | a reliable message whose frame and ack both arrive is published exactly once by the peer, and the sender's call returns |
| Transmissions.FirstAttempt | firmware/src/messages/transmissions.rs:155-158 | the first attempt from a fresh node queues one reliable frame and registers one waiter |
| Transmissions.PeerAcks | firmware/src/messages/transmissions.rs:91-97 | a fresh peer receiving a valid reliable command queues its ack and publishes the payload |
| Transmissions.LostAckDuplicates | firmware/src/messages/transmissions.rs:160-169 | when the ack is lost the timeout resends the payload under the next uuid, and a peer receiving both frames publishes the payload twice |
| Transmissions.SecondAttempt | firmware/src/messages/transmissions.rs:160-168 | after a timeout the waiter is deregistered and the same payload is queued again under the next uuid with the next handle, the node waiting on it |
| Transmissions.PeerPublishesBoth | firmware/src/messages/transmissions.rs:91-97 | a fresh peer receiving two valid reliable commands publishes both payloads, in the order received |
| Onewire.DivisorParts | firmware/src/interboard/onewire.rs:101-107 | the divisor computation fails exactly on a zero divisor or a `rem * 256` that overflows `u32`; otherwise the fraction is `(rem * 256) / div`, below 256, and an integer part of 65536 is written as 0 |
| Onewire.PioDivisor | firmware/src/interboard/onewire.rs:101-107 | the same, with the integer part cast to `u16` |
| Onewire.Fraction | firmware/src/interboard/onewire.rs:104 | the fraction of a remainder below the divisor fits a `u8` |
| Onewire.DivisorIsFixedPointQuotient | firmware/src/interboard/onewire.rs:101-107 | when the integer part fits, integer part times 256 plus the fraction is the floor of 256 * freq / div: the pair is the 8.8 fixed-point quotient |
| Onewire.PioFreqValue | firmware/src/interboard/onewire.rs:99-109 | at 125 MHz and 8 * 19200 the divisor is (813, 205) |
| Onewire.GuardMicros | firmware/src/interboard/onewire.rs:39 | the turnaround guard is eleven bit-times at the line speed, rounded down to whole microseconds |
| Onewire.GuardValue | firmware/src/interboard/onewire.rs:22-39 | at 19200 baud the guard is 572 microseconds |
| Onewire.Pushes | firmware/src/interboard/onewire.rs:84-86 | a burst hands each of its bytes to the TX FIFO, one push per byte, in order |
| Onewire.RxByte | firmware/src/interboard/onewire.rs:90-94 | the delivered byte is the top byte of the pulled word, inverted |
| Onewire.PushedAppend | firmware/src/interboard/onewire.rs:78-96 | the bytes pushed by two stretches of the link task are those of each, in order |
| Onewire.CountAppend | firmware/src/interboard/onewire.rs:78-96 | operation counts over two stretches of the link task add up |
| Onewire.PushesOnlyPush | firmware/src/interboard/onewire.rs:84-86 | pushing a burst performs only pushes, and pushes exactly its bytes |
| Onewire.BurstFraming | firmware/src/interboard/onewire.rs:29-62 | a burst starts with the switch to TX, pushes its bytes in order and ends by waiting for the FIFO, the 572 us guard and the switch back to RX, each switch happening once |
| Onewire.SentByteDelivered | firmware/src/interboard/onewire.rs:90-94 | with a line that the RX program samples inverted into the top byte, a byte sent by one half is delivered unchanged by the other |
| OnewireLegacy.PioDivisor | firmware/src/onewire.rs:84-90 | the packed divisor fails on the same inputs as the pair version; its low byte is the fraction and the rest is the integer part (65536 written as 0) cut to 24 bits by the 32-bit shift |
| OnewireLegacy.Pack | firmware/src/onewire.rs:89 | `(int << 8) \| frac` in 32 bits keeps the fraction in the low byte and the low 24 bits of the integer part above it |
| OnewireLegacy.ShiftWraps | firmware/src/onewire.rs:89 | a left shift by 8 in 32 bits keeps the low 24 bits of the value |
| OnewireLegacy.PackedAgreesWithPair | firmware/src/onewire.rs:84-90 | when the integer part fits 16 bits, the packed value is the interboard version's pair with the integer part in the upper byte |
| OnewireLegacy.PioFreqValue | firmware/src/onewire.rs:82-92 | at 125 MHz and 8 * 19200 the packed divisor is 208333, that is 813 * 256 + 205 |
| OnewireLegacy.RxByte | firmware/src/onewire.rs:75-77 | a received word is forwarded as its low byte, unchanged |
| OnewireLegacy.SendMatchesInterboard | firmware/src/onewire.rs:29-74 | a burst is framed exactly as in the interboard link: `leave_rx`, the pushes, then the FIFO wait, the 572 us guard and the return to RX |
| OnewireLegacy.ReceiveDiffersFromInterboard | firmware/src/onewire.rs:75-77 | the two links deliver the same byte for a word exactly when its low byte is the complement of its top byte |
| Scan.Decrement | firmware/src/keys/scan.rs:153-162 | a low sample steps the integrator down, saturating at 0; the key is reported released exactly when it reaches 0, and never reported pressed |
| Scan.Increment | firmware/src/keys/scan.rs:164-173 | a high sample at or above the bound reports a press and leaves the integrator alone; below it the integrator steps up and nothing is reported |
| Scan.Update | firmware/src/keys/scan.rs:145-151 | a report always matches the sample and the stored level, and the integrator never passes the bound |
| Scan.Feed | firmware/src/keys/scan.rs:145-151 | a debouncer fed n samples gives n reports and stays within the bound |
| Scan.FeedAppend | firmware/src/keys/scan.rs:145-151 | feeding two runs of samples is feeding one after the other |
| Scan.RisingRun | firmware/src/keys/scan.rs:164-173 | below the bound each high sample raises the integrator by one and reports nothing |
| Scan.FirstPressAfterBound | firmware/src/keys/scan.rs:124-173 | from reset a held key is first reported pressed on sample `MAX + 1`, after `MAX` silent samples |
| Scan.FifthSamplePresses | firmware/src/keys/scan.rs:56-67 | with the scanner's bound 4 the press is reported on the fifth high sample |
| Scan.HeldHighReportsEverySample | firmware/src/keys/scan.rs:164-167 | the debouncer is not edge-triggered: at the bound every further high sample reports a press again |
| Scan.HeldLowReportsEverySample | firmware/src/keys/scan.rs:153-159 | likewise with the integrator at 0 or 1 every low sample reports a release |
| Scan.RowEvents | firmware/src/keys/scan.rs:33-45 | one row's events: exactly one per cell that reported, press or release as reported, by ascending column |
| Scan.Events | firmware/src/keys/scan.rs:30-46 | a scan's events: exactly one per reporting cell, carrying its row and column, in row-major order |
| Scan.ReportedEvents | firmware/src/keys/scan.rs:36-42 | a cell that reported pressed (released) shows in the scan's events as exactly a press (release) at its row and column |
| Scan.RowMajorConcat | firmware/src/keys/scan.rs:33 | events of earlier rows followed by one sorted row's stay in row-major order |
| Scan.ScanMatrix | firmware/src/keys/scan.rs:58-117 | every one of the 4 x 5 debouncers takes its own switch's sample, and the scan reports a press (release) of a key exactly when its debouncer reported one, in row-major order |
| Chording.Lookup | firmware/src/keys/chord.rs:17 | looking a key up in a chord's key map finds its slot exactly when the key is in the map |
| Chording.ProcessChord | firmware/src/keys/chord.rs:14-29 | a key outside the chord changes nothing; one inside records press or release in its slot; the chord reports its new activity exactly when it changed, and is active exactly when every slot is pressed |
| Chording.ClearIfInactive | firmware/src/keys/chord.rs:31-35 | an incomplete chord forgets every pressed slot; a complete one is left as it is |
| Chording.NewEngine | firmware/src/keys/chord.rs:53-60 | a new engine holds no key, ignores no release and takes the current time as its last press |
| Chording.PushCapped | firmware/src/keys/chord.rs:130-155 | pushing onto a full 16-slot vector is ignored; otherwise the key is appended |
| Chording.PushAllCapped | firmware/src/keys/chord.rs:128-132 | pushing several keys appends them all when they fit; otherwise the vector ends full, holding its old contents followed by the first keys that fit |
| Chording.RemoveAll | firmware/src/keys/chord.rs:101-104 | `retain` drops every copy of the key and keeps every other key |
| Chording.FirstIndex | firmware/src/keys/chord.rs:157-167 | `position` finds the first occurrence of the key |
| Chording.RemoveFirst | firmware/src/keys/chord.rs:157-170 | removing at that position takes away one copy of the key and keeps every other element |
| Chording.StillPressed | firmware/src/keys/chord.rs:128-132 | the keys listed are exactly the chord's input keys whose slot is still pressed |
| Chording.PressedEntries | firmware/src/keys/chord.rs:128-132 | the same, over a stretch of the key map |
| Chording.ChordLoop | firmware/src/keys/chord.rs:106-146 | the loop keeps the chord table's shape and leaves the chords of other keys untouched; a chord it reports is one of the key's, holds the key, and is complete on a press or broken on a release |
| Chording.FirstFiring | firmware/src/keys/chord.rs:106-146 | the position at which the loop over the key's chords stops, never past the list's length |
| Chording.FirstFiringIsFirst | firmware/src/keys/chord.rs:106-146 | no chord before the first firing position completes on a press or breaks on a release, and the one at that position does |
| Chording.FirstFiringAgree | firmware/src/keys/chord.rs:106-146 | the first firing position depends only on the chords the list names |
| Chording.ChordLoopFiresFirst | firmware/src/keys/chord.rs:106-146 | with each chord listed once, the loop reports a chord exactly when one of the key's chords fires, and then the first one; that chord and every chord before it have processed the event, and the ones after it are as they were |
| Chording.ChordLoopUnfold | firmware/src/keys/chord.rs:106-146 | when the first listed chord does not fire, the loop and the first firing position both carry on over the rest of the list |
| Chording.ChordLoopFiresFirstStep | firmware/src/keys/chord.rs:106-146 | the inductive step of the firing rule past a chord that does not fire |
| Chording.AssembleFiresFirst | firmware/src/keys/chord.rs:106-146 | the firing rule over the rest of the list, after a first chord that processed the event without firing, is the firing rule over the whole list |
| Chording.AfterAllShift | firmware/src/keys/chord.rs:106-146 | the chords after the first see the event from the same states whether or not the first chord has already processed it |
| Chording.OutcomeShift | firmware/src/keys/chord.rs:106-146 | a loop outcome over the rest of the list, once the first chord holds its processed value, is the outcome over the whole list with the stop one position later |
| Chording.ProcessTwice | firmware/src/keys/chord.rs:14-29 | a chord processing the same event twice ends as after once |
| Chording.ReleaseIn | firmware/src/keys/chord.rs:64-70 | every chord listed for a held key ends as after processing that key's release, and every other chord is untouched |
| Chording.ReleaseHeld | firmware/src/keys/chord.rs:63-71 | after all held keys' releases, a slot is pressed exactly when it was pressed and no held key that the index lists for that chord sits in it |
| Chording.ReleaseStep | firmware/src/keys/chord.rs:63-71 | releasing the first held key and then the rest clears the same slots as releasing them all |
| Chording.ReleaseSlot | firmware/src/keys/chord.rs:14-29 | a release clears exactly the slot of the released key, if the chord has it |
| Chording.HeldReleaseCons | firmware/src/keys/chord.rs:63-71 | a slot is released by a list of keys exactly when its first key or one of the rest releases it |
| Chording.ClearAll | firmware/src/keys/chord.rs:73-75 | afterwards every incomplete chord has no pressed slot, and no chord's activity changed |
| Chording.Purge | firmware/src/keys/chord.rs:62-78 | the held keys are handed back and the held list emptied; a chord is left complete exactly when every slot was pressed and no held key of it sits in it, and then it keeps those slots; every other chord has no pressed slot |
| Chording.PurgeSlots | firmware/src/keys/chord.rs:62-78 | clearing the incomplete chords after the held releases leaves each slot pressed exactly when its chord is complete and the slot survived the releases |
| Chording.Tick | firmware/src/keys/chord.rs:80-90 | the engine purges exactly when more than 40 ms passed since the last noted press, and otherwise does nothing |
| Chording.Collect | firmware/src/keys/chord.rs:117-187 | collecting into a 16-slot vector succeeds exactly when the events fit, and keeps them |
| Chording.Process | firmware/src/keys/chord.rs:93-189 | a key in no chord first releases and purges the held keys, panicking when that overflows; a press completing a chord emits its action's presses and drops the held keys; a release breaking one emits its releases and ignores the later releases of its keys still down; other presses are held back; the release of a held key taps it; an ignored release is consumed once; any other release passes through; a press always clears the key's ignored releases |
| ChordMacro.IndexAdd | macros/src/lib.rs:79-81 | each input key of chord i gets i appended to its list, keys not in the chord keep theirs |
| ChordMacro.KeyChordMap | macros/src/lib.rs:73-84 | the index lists, for every key, exactly the chords that use it as an input, in ascending order |
| ChordMacro.KeyChordMapDistinct | macros/src/lib.rs:73-84 | the index lists each chord at most once under a key |
| ChordMacro.IndexUpTo | macros/src/lib.rs:78-84 | after the first n definitions the index lists exactly those of them using each key, ascending |
| ChordMacro.ExtendIndex | macros/src/lib.rs:78-84 | adding one chord keeps the index exact and ascending |
| ChordMacro.Generate | macros/src/lib.rs:86-110 | the generated chord puts input j in slot j, starts with every slot released and the chord inactive, and has the outputs as its action in written order |
| ChordMacro.Expand | macros/src/lib.rs:47-135 | the expansion succeeds exactly when every definition has inputs and outputs and no repeated input; it then yields the index and one generated chord per definition, a well-formed engine |
| ChordMacro.SoleChord | macros/src/lib.rs:78-84 | a key used by exactly one chord indexes that chord alone |
| ChordMacro.AscendingBounded | macros/src/lib.rs:78-84 | an ascending list of chord numbers within a range is no longer than the range |
| ChordMacro.GeneratedLookup | macros/src/lib.rs:89-91 | in the generated key map input j is found in slot j |
| KeyLayout.ChordTableShape | firmware/src/keys/layout.rs:2-14 | the table has eleven chords, each of two horizontally adjacent keys of one row, each producing one key |
| KeyLayout.ChordOutputs | firmware/src/keys/layout.rs:2-16 | every output is a key of row 4 or 5 inside the 6 x 10 keymap, and no two chords produce the same key |
| KeyLayout.ChordTableExpands | firmware/src/keys/layout.rs:1-15 | the macro accepts the table |
| KeyLayout.Chorder | firmware/src/keys/layout.rs:1-15 | the engine built from the table is well formed, holds and ignores nothing, and has eleven chords |
| KeyLayout.FirstChordTapped | firmware/src/keys/layout.rs:3 | pressing (0, 0) then (0, 1) emits only the press of (4, 0); releasing (0, 0) emits its release; the later release of (0, 1) emits nothing |
| KeyLayout.TapFirstChord | firmware/src/keys/chord.rs:93-189 | the same run from any engine in which the two keys belong to that chord alone and nothing is held or ignored |
| KeyLayout.FirstChordInitially | firmware/src/keys/layout.rs:3 | in the generated engine (0, 0) and (0, 1) index the first chord alone, which starts released |
| KeyLayout.FirstChordKeys | firmware/src/keys/layout.rs:3-13 | (0, 0) and (0, 1) index only chord 0 |
| KeyLayout.InputsDistinct | firmware/src/keys/layout.rs:3-13 | no chord repeats an input |
| KeyLayout.FirstChordKeysUnshared | firmware/src/keys/layout.rs:3-13 | no other chord uses (0, 0) or (0, 1) |
| KeyLayout.FirstChord | firmware/src/keys/layout.rs:3 | the chord the macro generates for the first definition |
| KeyLayout.Step | firmware/src/keys/chord.rs:93-179 | one event on a key of that chord alone: its slot takes the event, and the output and the held and ignored lists are as `process` prescribes for a firing or non-firing event |
| Keys.Mirror | firmware/src/keys/mod.rs:82-86 | mirroring keeps the kind and the row and maps column y to 9 - y |
| Keys.MirrorInvolution | firmware/src/keys/mod.rs:82-86 | mirroring twice gives the event back, for every column, the `u8` subtraction wrapping |
| Keys.ScannedEvents | firmware/src/keys/mod.rs:73-93 | the scanner task publishes each event of a scan in order, mirrored on the right half |
| Keys.RightHalfColumns | firmware/src/keys/mod.rs:57-86 | the right half's five columns become columns 5..9, so the halves together cover 0..9 |
| Keys.ProcessorStep | firmware/src/keys/mod.rs:95-122 | a matrix event goes through the chording engine; a tick never fails and, after the timeout, sends the held keys as presses and empties the held list, otherwise sends nothing |
| Keys.ToWire | firmware/src/keys/mod.rs:124-134 | a press becomes `KeyPress`, a release `KeyRelease`, with the same coordinates |
| Keys.FromWire | firmware/src/keys/mod.rs:136-154 | exactly the key messages become events, each the inverse of `ToWire`; every other message is skipped |
| Keys.WireRoundTrip | firmware/src/keys/mod.rs:124-154 | an event sent to the other half is received as itself |
| Keys.ReceivedEvents | firmware/src/keys/mod.rs:143-153 | the receiver publishes at most one event per message |
| Keys.EventsCrossUnchanged | firmware/src/keys/mod.rs:124-154 | a stream of events crossing to the other half arrives with nothing added, lost or reordered |
| Keys.Map | firmware/src/keys/mod.rs:127-132 | each event of a stream is sent as its own message, in order |
| Keys.HandleCustom | firmware/src/keys/mod.rs:179-188 | each mouse custom event sets its own flag to the press state and leaves the others; a unicode event changes no flag and hands its text to the unicode task only on release |
| Keys.CustomMessages | firmware/src/keys/mod.rs:190-193 | every custom event sends one mouse-state message, unchanged by a unicode event and with only the left flag set from a left-button event |
| Keys.ReportStep | firmware/src/keys/mod.rs:198-207 | collecting the keycodes panics exactly past 24; when they differ from the last published list they replace it and a report is published, built from their usages; otherwise nothing is published |
| Keys.ReportsNeverRepeat | firmware/src/keys/mod.rs:198-207 | over a run every report is built from its keycode list, no two consecutive keycode lists behind the reports are equal, and the first differs from the list before |
| Keys.Usages | firmware/src/keys/mod.rs:203-205 | a usage is in the report's input exactly when some keycode, cast to `u8`, maps to it in the usage table; unknown codes are dropped |
| Keys.EqualReportsPossible | firmware/src/keys/mod.rs:198-207 | two different keycode lists can give equal reports: a code the usage table does not know changes the list but not the report, so a published report can repeat the one before |
| Unicode.HexKey | firmware/src/keys/unicode.rs:42-59 | digit n is the key `0`..`9` for n below 10 and `A`..`F` above |
| Unicode.HexValue | firmware/src/keys/unicode.rs:42-59 | a key read back as a digit is one whose hex key is that key |
| Unicode.HexKeysDistinct | firmware/src/keys/unicode.rs:42-59 | the sixteen hex keys are distinct: each reads back as its own digit |
| Unicode.Digits | firmware/src/keys/unicode.rs:66-72 | the nibble closure emits at most one key per nibble and never starts with `0` before a nonzero nibble is seen |
| Unicode.DigitsSpell | firmware/src/keys/unicode.rs:66-79 | the emitted keys spell the low nibbles of the character, leading zeros dropped |
| Unicode.ToEscape | firmware/src/keys/unicode.rs:61-82 | a code point becomes at most six hex keys, none for 0, with no leading `0`, which read back as the code point |
| Unicode.ToEscapeSurrogate | firmware/src/keys/unicode.rs:96-114 | a UTF-16 unit becomes at most four hex keys, none for 0, with no leading `0`, which read back as the unit |
| Unicode.Held | firmware/src/keys/unicode.rs:88-90 | each digit key is reported held together with the chord |
| Unicode.LinuxChar | firmware/src/keys/unicode.rs:85-93 | a character on Linux is Ctrl+Shift+U, then each escape digit with the chord, then an empty report |
| Unicode.CodePoints | firmware/src/keys/unicode.rs:85 | the characters of the text, in order, each a code point |
| Unicode.EmitLinux | firmware/src/keys/unicode.rs:84-94 | every report of the Linux sequence holds Ctrl+Shift+U or is empty, at least two per character |
| Unicode.Utf16Units | firmware/src/keys/unicode.rs:119 | a basic-plane code point is one unit; any other is a high then a low surrogate |
| Unicode.SurrogatePairDecodes | firmware/src/keys/unicode.rs:119 | a surrogate pair decodes to the code point it came from |
| Unicode.MacUnit | firmware/src/keys/unicode.rs:120-124 | a unit on macOS is both Alts, then each digit pressed with them and lifted back to them |
| Unicode.Taps | firmware/src/keys/unicode.rs:121-124 | the digit taps take two reports per digit, each holding both Alts |
| Unicode.TapsAt | firmware/src/keys/unicode.rs:121-124 | digit i is pressed at report 2i and lifted at 2i + 1 |
| Unicode.MacUnits | firmware/src/keys/unicode.rs:119-125 | every report of the unit sequence holds both Alts |
| Unicode.EmitMac | firmware/src/keys/unicode.rs:116-127 | Right Alt alone, a 50 ms pause, the units of the text's UTF-16 encoding, and an empty report last |
| Unicode.Emit | firmware/src/keys/unicode.rs:16-30 | Linux escapes exactly when the host was guessed to be Linux, macOS escapes otherwise |
| Glide.SaturateI8 | firmware/src/trackpad/glide.rs:46-48 | an `i8` value is kept; anything outside saturates to the nearer end |
| Glide.Update | firmware/src/trackpad/glide.rs:127-131 | only the motion and the pressure change |
| Glide.Displacement | firmware/src/trackpad/glide.rs:76-80 | the displacement v0 c - coefficient c^2 / 2 is computed in `i32`, every product and the subtraction wrapping; only coefficient * c never wraps, and when none of the others do, the result is the exact value |
| Glide.Generate | firmware/src/trackpad/glide.rs:69-99 | a zero speed resets and reports nothing; otherwise the counter advances, the position is the displacement shared out over the motion, the step is its change, reported saturated to `i8`; the glide resets exactly when both steps lie in [-1, 1), and otherwise records the position, the counter and the step time and changes nothing else |
| Glide.GlidePositionExact | firmware/src/trackpad/glide.rs:75-83 | when no product wraps, the recorded position is the exact kinematic one: (v0 c - coefficient c^2 / 2) times the motion over v0, divisions truncating |
| Glide.Check | firmware/src/trackpad/glide.rs:58-67 | nothing happens while the finger is down, without motion, or before the interval; otherwise it is one `generate` |
| Glide.SpeedSquared | firmware/src/trackpad/glide.rs:105 | the wrapped `i32` sum of the two squared scaled motions |
| Glide.Speed | firmware/src/trackpad/glide.rs:102-106 | 0 without motion; otherwise the floor root of the square, a panic exactly when the wrapped square is negative |
| Glide.Start | firmware/src/trackpad/glide.rs:101-125 | below the trigger speed the glide is cancelled; otherwise a fresh glide at the current motion takes its first step; it panics exactly when the root does |
| Glide.ResetIsQuiet | firmware/src/trackpad/glide.rs:26-67 | after a reset `check` reports nothing and changes nothing |
| Glide.SmallMotionSpeed | firmware/src/trackpad/glide.rs:105 | for motions of at most 127 pixels per axis the square does not wrap |
| Glide.SmallMotionStarts | firmware/src/trackpad/glide.rs:101-106 | for motions of at most 127 pixels per axis `start` never panics |
| Glide.DiagonalMotionPanics | firmware/src/trackpad/glide.rs:105 | a motion of (128, 128) wraps the square to -2^31, so `start` panics |
| Glide.FlickFirstStep | firmware/src/trackpad/glide.rs:69-125 | a (3, 4) flick has speed 1280 and first steps by (2, 3) |
| Regs.DefaultValues | firmware/src/trackpad/regs.rs:176-180 | the calibration default is the five compensation bits, 0x3E, and the port-B default the three control bits, 0x38 |
| Regs.FromBitsOfBits | firmware/src/trackpad/regs.rs:66-83 | a byte viewed as bits and packed again is the byte |
| Regs.BitsOfFromBits | firmware/src/trackpad/regs.rs:66-83 | bits packed into a byte and viewed again are the bits |
| Regs.BitAt | firmware/src/trackpad/regs.rs:66-83 | bit i of the view is bit i of the number |
| Regs.PlainFromByte | firmware/src/trackpad/regs.rs:45-64 | a plain register holds its byte as is |
| Regs.PlainToByte | firmware/src/trackpad/regs.rs:45-64 | writing a plain register and reading it back gives the register |
| Regs.StatusFromByte | firmware/src/trackpad/regs.rs:102-109 | `data_ready` is bit 2 and `command_complete` bit 3, the padding kept |
| Regs.StatusDefault | firmware/src/trackpad/regs.rs:102-109 | the default status has both flags clear |
| Regs.StatusByteRoundTrip | firmware/src/trackpad/regs.rs:66-109 | any byte read as a status and written back is the same byte |
| Regs.StatusFieldRoundTrip | firmware/src/trackpad/regs.rs:66-109 | any status written as a byte and read back is the same status |
| Regs.ClearedStatusByte | firmware/src/trackpad/regs.rs:102-109 | the default with both flags cleared is the byte 0 |
| Regs.FeedConfigFromByte | firmware/src/trackpad/regs.rs:129-138 | `feed_enable` is bit 0 and `y_data_invert` bit 7 |
| Regs.FeedConfigByteRoundTrip | firmware/src/trackpad/regs.rs:66-138 | any byte read as a feed configuration and written back is the same byte |
| Regs.FeedConfigFieldRoundTrip | firmware/src/trackpad/regs.rs:66-138 | any feed configuration written and read back is the same |
| Regs.SetFeedEnable | firmware/src/trackpad/regs.rs:129-138 | setting `feed_enable` changes bit 0 to the flag and leaves the other seven bits |
| TrackpadDriver.CommandBytes | firmware/src/trackpad/driver.rs:88-102 | for the host registers a read command is the address plus 0xA0 and a write command the address plus 0x80 |
| TrackpadDriver.RapRead | firmware/src/trackpad/driver.rs:88-97 | the read command with two filler bytes, then one filler transfer per byte, the buffer holding what the device answered |
| TrackpadDriver.Transfers | firmware/src/trackpad/driver.rs:91-96 | one filler transfer per buffer byte, in order |
| TrackpadDriver.RapWrite | firmware/src/trackpad/driver.rs:99-102 | a register write is a single operation, which writes the write command then the data and reads nothing |
| TrackpadDriver.RapReadByte | firmware/src/trackpad/driver.rs:78-82 | the byte read is the device's answer |
| TrackpadDriver.WritesAppend | firmware/src/trackpad/driver.rs:88-102 | the writes and the reads of two traces in a row are those of each, in order |
| TrackpadDriver.TransfersAreSilent | firmware/src/trackpad/driver.rs:91-96 | filler transfers issue no command |
| TrackpadDriver.RapReadEffect | firmware/src/trackpad/driver.rs:88-97 | a read issues exactly its read command and writes nothing |
| TrackpadDriver.SetFeedEnable | firmware/src/trackpad/driver.rs:16-20 | read the feed configuration, then write it back with only bit 0 changed to the flag |
| TrackpadDriver.ClearFlags | firmware/src/trackpad/driver.rs:22-30 | one write of 0 to the status register, then a 50 us pause |
| TrackpadDriver.PollEffect | firmware/src/trackpad/driver.rs:51-59 | the busy-wait writes nothing and reads the control register once per answer, up to and including the first 0 |
| TrackpadDriver.Poll | firmware/src/trackpad/driver.rs:51-59 | the busy-wait is two operations per answer consumed, never a write transaction or a delay |
| TrackpadDriver.PolledCount | firmware/src/trackpad/driver.rs:52-57 | the wait consumes the answers up to and including the first 0, or all of them |
| TrackpadDriver.EraReadControl | firmware/src/trackpad/driver.rs:47 | the auto-incrementing read request is 0x05 |
| TrackpadDriver.EraBytesWrites | firmware/src/trackpad/driver.rs:44-62 | the byte loop writes one read request per byte and nothing else |
| TrackpadDriver.EraRead | firmware/src/trackpad/driver.rs:35-63 | the feed is disabled first, and the buffer holds what the value register answered |
| TrackpadDriver.EraReadWrites | firmware/src/trackpad/driver.rs:35-63 | all that `era_read` writes: the feed disabled, the address high byte then the low byte, one read request per byte |
| TrackpadDriver.FeedDisableWrites | firmware/src/trackpad/driver.rs:16-20 | disabling the feed writes exactly one byte, the answered configuration with bit 0 cleared |
| HostToDevice.TargetsSide | shared/src/host_to_device.rs:16-18 | a message without a target is for both sides; one with a target is for that side alone |
| HostToDevice.TargetsExactly | shared/src/host_to_device.rs:9-18 | the sides a message is for are both or exactly its target, never the other side, whatever the body |
| Metrics.DefaultIsZero | firmware/src/metrics.rs:25-32 | the default metrics count nothing |
| Metrics.KeyCounter | firmware/src/metrics.rs:76-91 | a release is skipped; a press adds one to the key count, wrapping, leaves the distance and publishes the new metrics |
| Metrics.SignExtend | firmware/src/metrics.rs:64-65 | an `i8` cast to `u16` keeps a non-negative value and adds 2^16 to a negative one |
| Metrics.MouseDistance | firmware/src/metrics.rs:64-67 | despite the casts and the wrapping `u16` arithmetic, the distance is the floor root of x^2 + y^2, at most 181 |
| Metrics.WrappedSquare | firmware/src/metrics.rs:64-67 | the wrapped `u16` square of a sign-extended `i8` is its true square |
| Metrics.MouseCounter | firmware/src/metrics.rs:55-74 | a forwarded mouse report adds its distance to the trackpad total, wrapping, leaves the key count and publishes; every other message is skipped |
| Metrics.SyncStep | firmware/src/metrics.rs:101-109 | a write of the metrics is attempted exactly when they differ from the last seen, and they become the last seen whatever the write does |
| Metrics.Sync | firmware/src/metrics.rs:93-111 | with each period's write outcome as a parameter, after some periods the last seen is the latest sample, whether or not the writes succeeded; with no period nothing changes |
| Metrics.SyncKeepsFlashCurrent | firmware/src/metrics.rs:93-111 | the flash ends up holding the latest metrics; or nothing ever changed and nothing was written; or the write of the last change failed and no later period changed the metrics again |
| Metrics.FailedWriteNotRetried | firmware/src/metrics.rs:101-109 | once a change's write fails, periods that see the same metrics write nothing, so the flash keeps its old contents whatever later writes would do |
| Metrics.UnchangedWritesNothing | firmware/src/metrics.rs:101-109 | periods that all see the last metrics again leave the flash and the last seen as they were |
| Metrics.LostUpdate | firmware/src/metrics.rs:101-109 | the metrics change once, the first write fails and the second would succeed: as written the flash is never updated, with retrying it is |
| Metrics.SyncRetrying | firmware/src/metrics.rs:101-109 | with the last seen moved on only after a successful write, the flash always holds the last seen, or nothing was ever written |
| Metrics.SyncRetryingCatchesUp | firmware/src/metrics.rs:93-111 | with retrying, whenever the final period's write would succeed, the flash holds the latest metrics, unless nothing was ever written and they equal the starting last seen |
| Logger.Fill | firmware/src/logger.rs:52-53 | formatting keeps a prefix of the pieces that fits 128 bytes, and all of them when they fit |
| Logger.Format | firmware/src/logger.rs:52-54 | a record is its text and CRLF when that fits 128 bytes, otherwise a prefix of it |
| Logger.Log | firmware/src/logger.rs:48-72 | what the two grants take of the record is a prefix, appended to the queue: nothing without a first grant, at most its room with one, at most both rooms with two |
| Logger.Drain | firmware/src/logger.rs:81-97 | a grant goes out in chunks of 1 to 32 bytes, in order, up to the first refused send; the released count is what was sent |
| Logger.SentCovers | firmware/src/logger.rs:83-95 | the bytes sent are the first k chunks, k being the accepted sends up to the chunk count |
| Logger.Flush | firmware/src/logger.rs:78-99 | flushing never grows the queue |
| Logger.FlushPreservesOrder | firmware/src/logger.rs:78-99 | what is sent followed by what stays queued is the queue: no byte lost, repeated or reordered, each message 1 to 32 bytes |
| Logger.MessagesAppend | firmware/src/logger.rs:83-95 | messages of 1 to 32 bytes stay so when two batches are joined |
| Logger.RefusedFlushMakesNoProgress | firmware/src/logger.rs:81-97 | when every send is refused nothing is sent and the queue stays as it was |
| Logger.DrainAll | firmware/src/logger.rs:83-96 | with enough sends accepted the whole grant is released |
| Logger.AcceptedFlushEmpties | firmware/src/logger.rs:78-99 | with the queue read in two parts and every send accepted, the flush empties it |
| Flash.PageCount | firmware/src/flash/mod.rs:91-93 | the page count is always the configured maximum, whatever the device |
| Flash.Address | firmware/src/flash/mod.rs:110-125 | the address of an offset in a page is the region start plus the page's bytes plus the offset, when it fits 32 bits |
| Flash.EraseRange | firmware/src/flash/mod.rs:95-102 | a page's erase range runs from its first address to one page further |
| Flash.Erase | firmware/src/flash/mod.rs:95-102 | the device's error is passed on; otherwise exactly the page's bytes are erased |
| Flash.Read | firmware/src/flash/mod.rs:104-117 | a read longer than a page panics on the staging slice; a device error is passed on; otherwise the data is the bytes at the page's address |
| Flash.Write | firmware/src/flash/mod.rs:119-129 | a write longer than a page panics; a device error is passed on; otherwise exactly the data's bytes at the page's address change, to the data |
| Flash.ReadAfterWrite | firmware/src/flash/mod.rs:104-129 | reading back what was just written returns it |
| Flash.PagesTileRegion | firmware/src/flash/mod.rs:91-99 | every address of the region lies in the erase range of exactly one page |
| Flash.PageEndFits | firmware/src/flash/mod.rs:98-99 | a page below the count ends inside the 32-bit address space, so its `as u32` casts do not truncate |
| Flash.ErasePagesDisjoint | firmware/src/flash/mod.rs:95-102 | distinct pages have disjoint erase ranges |
| Flash.EraseThenRead | firmware/src/flash/mod.rs:95-117 | erasing a page and reading it back gives erased bytes |
| Flash.Init | firmware/src/flash/mod.rs:20-36 | it mounts, and formats only when mounting fails; the database is installed exactly when one succeeds, and installing twice panics |
| FwUpdate.Startup | firmware/src/fw_update/updater_task.rs:15-34 | reading the boot state panics exactly on a flash error; a pending swap is marked booted and nothing else is done; no update is prepared and the buffer is zero past its scratch byte |
| FwUpdate.Stage | firmware/src/fw_update/updater_task.rs:55 | the chunk is copied into the front of the buffer and the rest of the buffer is kept |
| FwUpdate.Step | firmware/src/fw_update/updater_task.rs:36-65 | a timeout only feeds the watchdog; commit marks the update, waits 500 ms and resets, ending the loop; prepare opens the partition; a chunk over 32 bytes panics, and a chunk is written, as the whole buffer, only once prepared; any flash error panics |
| FwUpdate.Run | firmware/src/fw_update/updater_task.rs:36-65 | the buffer stays 32 bytes over any run |
| FwUpdate.NoWriteBeforePrepare | firmware/src/fw_update/updater_task.rs:24-60 | until an update is prepared no chunk reaches the flash |
| FwUpdate.FedEveryIteration | firmware/src/fw_update/updater_task.rs:36-65 | a run that never commits feeds the watchdog once per wake-up, command or timeout |
| FwUpdate.ShortChunkCarriesLeftovers | firmware/src/fw_update/updater_task.rs:54-60 | the whole buffer is written whatever the chunk's length: a shorter chunk after a longer one goes out with the longer one's tail |
| FwUpdate.CommitEndsRun | firmware/src/fw_update/updater_task.rs:42-49 | after a commit the trace ends with the mark, the pause and the reset, and later commands are never processed |
| DisplayInterface.WordBytes | firmware/src/display/display_interface.rs:26-41 | a value's two bytes, high byte first when big-endian and low byte first otherwise, spell the value |
| DisplayInterface.WordsBytes | firmware/src/display/display_interface.rs:21-41 | a value buffer viewed as bytes has two per value |
| DisplayInterface.WordsRoundTrip | firmware/src/display/display_interface.rs:21-41 | reading the bytes back in the same order gives the values |
| DisplayInterface.WordsBytesAppend | firmware/src/display/display_interface.rs:63-108 | the byte view of two buffers in a row is the byte views in a row |
| DisplayInterface.Buffered | firmware/src/display/display_interface.rs:42-62 | the iterator loop writes the input in full buffers and a final remainder, stopping at the failing write, which is the error returned |
| DisplayInterface.FullPrefix | firmware/src/display/display_interface.rs:46-54 | the buffers written so far are the first chunks of the input |
| DisplayInterface.WordWrites | firmware/src/display/display_interface.rs:63-108 | each buffer of values goes out as its converted bytes |
| DisplayInterface.WordWritesConcat | firmware/src/display/display_interface.rs:63-108 | the converted buffers back to back are the converted input |
| DisplayInterface.SendU8 | firmware/src/display/display_interface.rs:15-112 | the writes and error are those of `Outcome`: a slice is one write, of its bytes in the format's order; an iterator is buffered in 32 bytes, 32 words little-endian or 64 words big-endian; a bus error ends the writes and is returned; any other format panics; a `U16BE` slice is left byte-swapped in the caller's hands, every other input unchanged |
| DisplayInterface.Attempted | firmware/src/display/display_interface.rs:42-108 | the writes up to and including the first rejected one, and then the bus error |
| DisplayInterface.SwapBytes | firmware/src/display/display_interface.rs:36-38 | `to_be` on the little-endian target swaps a value's bytes: its low-byte-first view is the original's high-byte-first view |
| DisplayInterface.ToBe | firmware/src/display/display_interface.rs:36-38 | the in-place conversion swaps every value of the slice and keeps its length |
| DisplayInterface.ToBeBytes | firmware/src/display/display_interface.rs:34-41 | the swapped slice viewed as bytes is the original's big-endian bytes, which is what the bus receives |
| DisplayInterface.IterWritesCoverInput | firmware/src/display/display_interface.rs:42-109 | with no bus error an iterator's writes are exactly its bytes: nothing lost, repeated or reordered |
| DisplayInterface.EmptyIterWritesNothing | firmware/src/display/display_interface.rs:56-59 | empty iterator input writes nothing at all |
| DisplayInterface.Send | firmware/src/display/display_interface.rs:138-162 | a failed pin write returns `DCError`, writes nothing and leaves the data alone; otherwise the pin is set (low for commands, high for data), then come exactly the writes of `Outcome`, and its error is the call's; the data is left as `send_u8` leaves it |
| Boot.CheckBootloader | firmware/src/lib.rs:84-101 | it returns exactly when the token was absent, having stored the token and waited 100 ms; otherwise it enters USB boot with the GPIO 17 activity mask; either way it leaves 0 stored |
| Boot.DoubleTap | firmware/src/lib.rs:80-101 | a reset during the wait leaves the token, so the next boot enters USB boot; a boot that runs through leaves 0, so the next boot returns normally |
| Boot.InterruptedCheck | firmware/src/lib.rs:86-101 | a reset at any point leaves the old value, the token or 0, nothing else |
| Boot.DetectSide | firmware/src/lib.rs:58-66 | the side is the right one exactly when pin 29 reads high |
| Boot.DetectUsb | firmware/src/lib.rs:52-56 | USB counts as connected exactly when pin 19 reads high |
| Boot.BootloaderMain | bootloader/src/bin.rs:41-56 | the activity pin is raised, the check runs, and only when it returns is the pin lowered, VTOR set and the application entered at the flash base plus its start, wrapping |
| Boot.JumpUsesVtor | bootloader/src/bin.rs:41-56 | the application is entered exactly when the token was absent, and always right after VTOR is set to the address entered |
| MathUtils.WrappingDelta | firmware/src/rgb/math_utils.rs:11-21 | as written: the direct difference when it is at most half the range, otherwise the difference minus the range, whichever way round the points lie |
| MathUtils.WrappingDeltaOvershoots | firmware/src/rgb/math_utils.rs:16-20 | when b lies more than half the range below a, the result is the difference minus the range, further from 0 than the difference itself |
| MathUtils.WrappingDeltaCounterexample | firmware/src/rgb/math_utils.rs:11-21 | on [0, 10), from 9 to 1 the result is -18 where the way round is +2 |
| MathUtils.ShortestDelta | firmware/src/rgb/math_utils.rs:11-21 | the intended delta differs from b - a by a multiple of the range, is at most half the range in size, and agrees with the code whenever b does not lie more than half the range below a |
| MathUtils.WrappingDeltaU | firmware/src/rgb/math_utils.rs:23-33 | the distance when it is at most half the range; otherwise half the range minus the distance, wrapping in 32 bits |
| MathUtils.TickDelta | firmware/src/rgb/animations/snow.rs:52-54 | for ticks less than half the clock's range apart the delta is their distance |
| MathUtils.TickDeltaAfterWrap | firmware/src/rgb/math_utils.rs:28-32 | past half the range the result is 2^31 more than the circular distance: just after the clock wraps, a stamp taken half a tick earlier reads as 32768.5 ticks old |
| MathUtils.Sqr | firmware/src/rgb/math_utils.rs:35-37 | a fixed-point square is the exact square truncated to 16 fractional bits when it fits, and always an `I16F16` |
| MathUtils.SqrEven | firmware/src/rgb/math_utils.rs:35-37 | a square does not depend on the sign |
| MathUtils.EaseIn | firmware/src/rgb/math_utils.rs:66-68 | the first half's mix stays below 0.5 |
| MathUtils.EaseOut | firmware/src/rgb/math_utils.rs:69-74 | the second half's mix lies between 0.5 and 1 |
| MathUtils.EaseFade | firmware/src/rgb/math_utils.rs:65-79 | the first half of the fade gives levels up to 127, the second half from 127 |
| MathUtils.LevelBounds | firmware/src/rgb/math_utils.rs:76-78 | the lerp to 0..255 stays within a `u8` and keeps the halves apart at 127 |
| MathUtils.EaseFadeEnds | firmware/src/rgb/math_utils.rs:65-79 | the fade starts at level 0 and ends at 255 |
| MathUtils.EaseFadeMonotone | firmware/src/rgb/math_utils.rs:65-79 | a later fraction never gives a lower level |
| MathUtils.EaseInMonotone | firmware/src/rgb/math_utils.rs:66-68 | the first half's mix never decreases |
| MathUtils.EaseOutMonotone | firmware/src/rgb/math_utils.rs:69-74 | the second half's mix never decreases |
| Runner.FadeFraction | firmware/src/rgb/runner.rs:49-51 | the fraction of the fade elapsed stays below 1 and never exceeds the true ratio |
| Runner.EaseFadeOnTime | firmware/src/rgb/runner.rs:45-53 | past the three-second fade the level is full; before, it is the eased fraction elapsed |
| Runner.FadeEnds | firmware/src/rgb/runner.rs:45-53 | a fade starts at level 0 and reaches 255 at three seconds |
| Runner.FadeMonotone | firmware/src/rgb/runner.rs:45-53 | the cross-fade weight never decreases as time passes |
| Runner.HandOver | firmware/src/rgb/runner.rs:149-151 | the pending animation replaces the current one exactly when its fade has run for more than three seconds; otherwise both stay |
| Runner.HandOverAtFullBlend | firmware/src/rgb/runner.rs:149-198 | the hand-over happens only once the blend weight has reached 255, so the switch is seamless |
| Runner.RowIncreasing | firmware/src/rgb/runner.rs:252-510 | each of the gamma table's sixteen rows holds sixteen strictly increasing entries |
| Runner.RowsChained | firmware/src/rgb/runner.rs:252-510 | each row of the gamma table starts above the last entry of the row before |
| Runner.GammaStep | firmware/src/rgb/runner.rs:252-510 | each gamma entry is below the next |
| Runner.GammaIncreasing | firmware/src/rgb/runner.rs:252-510 | the gamma table is strictly increasing |
| Runner.GammaEnds | firmware/src/rgb/runner.rs:252-510 | black maps to 0 and full level to exactly 255, so no entry exceeds 255 |
| Runner.DefaultTracker | firmware/src/rgb/runner.rs:224-229 | a fresh tracker carries no residual |
| Runner.ProcessChannel | firmware/src/rgb/runner.rs:236-238 | the level sent plus the fraction carried is the corrected level plus the fraction that came in, the carry below one level |
| Runner.Process | firmware/src/rgb/runner.rs:231-250 | each channel of a colour is corrected that way, the residuals staying below one level |
| Runner.Diffuse | firmware/src/rgb/runner.rs:178-220 | one level per frame, the carry below one level |
| Runner.DiffuseConserves | firmware/src/rgb/runner.rs:178-250 | over any run of frames the levels sent plus the final carry equal the corrected levels plus the first carry, so the light sent trails the light asked for by less than one level |
| Snow.Bins | firmware/src/rgb/animations/snow.rs:21-27 | the column of each flake, in deque order |
| Snow.Default | firmware/src/rgb/animations/snow.rs:39-50 | a fresh animation has no flake and zero weights, so the invariant holds |
| Snow.CountRepeat | firmware/src/rgb/animations/snow.rs:65-69 | a column repeated n times appears n times |
| Snow.WeightedFrom | firmware/src/rgb/animations/snow.rs:64-70 | each chained entry pairs a column from i on with its x-position, every column at least once |
| Snow.Entries | firmware/src/rgb/animations/snow.rs:65-69 | each column gets at least one entry |
| Snow.WeightedFromSorted | firmware/src/rgb/animations/snow.rs:64-70 | the chain lists the columns in order |
| Snow.WeightedFromCounts | firmware/src/rgb/animations/snow.rs:64-70 | column j appears exactly its number of entries |
| Snow.CountAbsent | firmware/src/rgb/animations/snow.rs:64-70 | a column absent from the rest of the chain counts 0 there |
| Snow.WeightedIter | firmware/src/rgb/animations/snow.rs:56-71 | every column appears, paired with its x-position, so `choose` always finds an entry |
| Snow.WeightedIterCounts | firmware/src/rgb/animations/snow.rs:56-71 | the entries come in column order, column j exactly 1 + (total - weight j) times in `u8` arithmetic |
| Snow.LighterColumnsFavoured | firmware/src/rgb/animations/snow.rs:62-70 | with at most 255 flakes in all nothing wraps, and a column with fewer flakes has at least as many entries |
| Snow.TotalCovers | firmware/src/rgb/animations/snow.rs:62 | no single weight exceeds the unwrapped total |
| Snow.Choose | firmware/src/rgb/animations/snow.rs:102-112 | the chosen column is an entry of the weighted iterator, with its own x-position, so the early return is never taken |
| Snow.Expire | firmware/src/rgb/animations/snow.rs:83-91 | the oldest flake goes exactly when it is below the bottom, and its column's weight drops by one in `u8` |
| Snow.Kept | firmware/src/rgb/animations/snow.rs:83-91 | expiry removes at most one flake |
| Snow.Drop | firmware/src/rgb/animations/snow.rs:94 | a flake falls by 0.7, wrapping, and nothing else of it changes |
| Snow.Fall | firmware/src/rgb/animations/snow.rs:93-95 | every flake falls, the deque keeping its order |
| Snow.Spawn | firmware/src/rgb/animations/snow.rs:97-125 | without room or before the gap nothing changes; otherwise a flake appears at the front, at the top of its column, stamped with the tick, and that column's weight grows |
| Snow.Tick | firmware/src/rgb/animations/snow.rs:80-126 | the clock moves on by 0.5, wrapping, and every bin names a column |
| Snow.Advance | firmware/src/rgb/animations/snow.rs:80-95 | the clock moves on, at most the oldest flake goes, the others fall in order, and the invariant is kept |
| Snow.TickBookkeeping | firmware/src/rgb/animations/snow.rs:80-126 | after a tick the survivors, fallen, stay in order, alone or behind exactly one new flake |
| Snow.SurvivorsFall | firmware/src/rgb/animations/snow.rs:83-95 | expiry then fall leaves the first survivors, each fallen |
| Snow.SpawnShifts | firmware/src/rgb/animations/snow.rs:97-125 | a spawn keeps the flakes there were, behind at most one new one |
| Snow.TickSpawnsAtTop | firmware/src/rgb/animations/snow.rs:97-125 | a new flake appears only when there was room, at the top, stamped with the new tick |
| Snow.TickPreservesWf | firmware/src/rgb/animations/snow.rs:80-126 | every tick keeps at most 16 flakes and each weight equal to its column's live flakes, so no `u8` weight ever wraps |
| Snow.ExpireKeepsCounts | firmware/src/rgb/animations/snow.rs:83-91 | expiry keeps the weights counting the flakes |
| Snow.SpawnKeepsCounts | firmware/src/rgb/animations/snow.rs:97-125 | a spawn keeps the weights counting the flakes and the deque within 16 |
| Rain.GenRange | firmware/src/rgb/animations/rain.rs:70-72 | a drawn coordinate lies in its half-open range |
| Rain.Tick | firmware/src/rgb/animations/rain.rs:58-81 | the clock moves on by 0.5, wrapping, the colour stays, and the deque never holds more than four splashes |
| Rain.TickBookkeeping | firmware/src/rgb/animations/rain.rs:58-81 | the oldest splash goes exactly when it is over 200 ticks old; the rest stay in order behind at most one new splash, which comes exactly when one is due and there is room, lies in the bounds at whole coordinates and carries the new tick |
| Rain.ConstructSync | firmware/src/rgb/animations/rain.rs:135-137 | the sync message is the colour: a half built from it shows that colour, and syncing a half from its own message changes nothing |
| Rain.Sync | firmware/src/rgb/animations/rain.rs:139-141 | syncing takes the given colour and keeps the splashes and the clock, so the deque stays within its capacity |
| Rain.NewFromSync | firmware/src/rgb/animations/rain.rs:143-147 | a half built from a sync message has that colour, no splash and its clock at 0 |
| Rain.SyncRoundTrip | firmware/src/rgb/animations/rain.rs:135-147 | syncing changes only the colour, syncing from a half's own message changes nothing, and a half built from a message starts empty at tick 0 in that colour |

## Left out

- COBS framing and postcard serialisation: frames arrive already decoded, and an outbound item's encoded size is a given number.
- The FNV hash behind `calc_csum`: it is a parameter. Only the bytes it is fed and the XOR fold after it are modelled.
- Concurrency and async scheduling: tasks are step functions, and channels are sequences. The interleaving of tasks, and how embassy wakes them, are not modelled.
- The PIO programs, pin electrical settings, USB, the display's drawing, and the ROM calls: these are hardware or foreign code. Their effects appear as trace entries.
- keyberon's `Layout`, which turns events into keycodes and custom events: its outputs are inputs of the key event processor. The actions inside `LAYERS` are not modelled; only the dimensions of `LAYERS` are.
- The animations' per-light rendering:
  - the colour math of snow and rain;
  - the rainbow and noise animations;
  - `fsqrt`;
  - cichlid's blend;
  - the `MAX_LEVEL` and `COLOUR_CORRECTION` scaling.
  Only their bookkeeping, the fade weights and the gamma correction are modelled, because the rest is floating-point or library rendering.
- `reconstruct_from` of the animations: only the sync message's construction and its effect are modelled.
- A snow flake's colour: it does not affect the bookkeeping.
- Random draws: each draw is a parameter reduced into range, as `gen_range` would. The generator itself is not modelled.
- The ekv database's own storage (`get`/`set` of metrics): only the flash backend's address arithmetic and the mount/format fallback are modelled. The NOR device is a map from address to byte.
- Page size and page count of the flash backend: they come from the database's build configuration, which is not part of this model, so they are fields.
- `COLUMNS` of the LED layout: the layout file has no column table, so the snow animation takes the columns as a parameter. `NUM_COLS` is 5, the length of `column_weights`.
- `send_unicode` takes only the text in firmware/src/keys/unicode.rs, while firmware/src/keys/mod.rs also passes a mode. The model follows the unicode file, where `unicode_task` picks the Linux or the Mac sequence from the host guess, and the extra mode argument is dropped.
- `new_reliable` in firmware/src/messages/transmissions.rs is called with one argument, while shared/src/cmd.rs takes the uuid too. The uuid of each attempt is therefore an input.
- The timer rate: durations assume embassy's 1 MHz RP2040 tick, so the 3-second fade is 3,000,000 ticks.
- Overflow in general: arithmetic that overflows is modelled as a release build's wrap-around. A debug build would panic instead.
- Snow.Tick: does not prove that a flake's `y` never wraps round past `I16F16::MIN`. The fall is modelled as the wrapping subtraction it is, and expiry removes only the oldest flake.
- Rain.TickBookkeeping: does not prove that the deque never fills. A splash due on a full deque is dropped, as the ignored `push_front` result does.
- Logger.Flush: the source's `flush` loops until the queue is empty and spins forever when every send is refused. The model runs for a given sequence of rounds, and `RefusedFlushMakesNoProgress` shows that a refused round releases nothing.
- FwUpdate.Startup: the scratch byte that `mark_booted` leaves in the buffer's first byte is a parameter, since its value is the bootloader library's.
- Boot.BootloaderMain: `FLASH_BASE` is taken as the RP2040's execute-in-place base, 0x1000_0000. The application start is a linker symbol, so it is a parameter.
- The single-wire pipe's own behaviour: how many bytes each `write` takes is a parameter. Transmissions.OutFrames admits any count. Only two places assume what embassy-sync's `Pipe` promises: Transmissions.LongFrameTruncated assumes the count is at most the 16 bytes the pipe holds, and Transmissions.WriteAll, WriteAllDelivers, OutFramesWriteAll and OutFramesWriteAllWhole assume every count is at least one. The pipe's reader side is the link task.
- TrackpadDriver.Poll: the 20 ms timeout round the busy-wait is taken to fall between two reads; a read that the timeout cancels half-way is not modelled.
- The HID usage table and `NKROBootKeyboardReport::new`: both belong to the HID crate, which is not part of this model, so they are parameters of `Keys.ReportStep`. The report is that constructor applied to the usages in keycode order.
- NOR programming only clears bits, so a real write ANDs the data into the old contents. The model's write overwrites, as the driver assumes after an erase, which is why reading back after a write gives the data without an erase in between.
- The glide's clock: it is a tick count, with `Instant::MIN` as 0. The glide task that polls `check` and forwards its reports is not modelled, since it is scheduling.

## Findings

| source | as written | input that shows it | evidently intended | confidence | as-written member | corrected member |
|---|---|---|---|---|---|---|
| firmware/src/rgb/math_utils.rs:11-21 | taking the way round, `wrapping_delta` returns `(b - max) + (min - a)`, which subtracts the range even when b lies below a | range [0, 10), a = 9, b = 1: returns -18 | the way round, +2, that is `(b - a) + (max - min)` when b lies below a | not executed | MathUtils.WrappingDelta (counterexample MathUtils.WrappingDeltaCounterexample) | MathUtils.ShortestDelta |
| firmware/src/messages/transmissions.rs:139-143 | the link task calls `write` once per frame and ignores how many bytes it took | a frame of 17 or more bytes into the 16-byte pipe, of which one `write` takes at most 16 | `write_all`, repeating the write until the whole frame is on the pipe | not executed; relies on embassy-sync's `Pipe::write` taking at most what fits, which is not part of this model | Transmissions.OutFrames (counterexample Transmissions.LongFrameTruncated) | Transmissions.OutFramesWriteAll (with Transmissions.WriteAllDelivers and Transmissions.OutFramesWriteAllWhole) |
| firmware/src/metrics.rs:101-109 | the syncer discards the result of `flash::set` and sets `last = current` whether or not the write succeeded | the metrics change once, the write in that period fails, and the next period sees the same metrics: it does not write, so the flash keeps its old value until the metrics change again | move `last` on only once the write succeeded, so that the next period tries again | not executed; whether the authors accept losing an update until the next change is not stated | Metrics.Sync (counterexample Metrics.LostUpdate, with Metrics.FailedWriteNotRetried) | Metrics.SyncRetrying (with Metrics.SyncRetryingCatchesUp) |
