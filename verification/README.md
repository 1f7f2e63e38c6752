# Verified model of the HiKey HALs

A Dafny model of the parts of the HiKey device repository that hold state or arithmetic, with
proofs of what they keep over every run. `dafny verify dfyconfig.toml` checks all of it.

| module | models |
|---|---|
| `Power` | the boost and deboost protocol of the power HAL: hints and a background thread over one lock, one semaphore and one deadline, as single statements in any interleaving, and the two critical sections as methods |
| `Hci` | the Bluetooth H4 transport (Bluetooth Core Specification, Volume 4, Part A, section 2, and Volume 2, Part E, sections 5.4.1 to 5.4.4): a pure frame parser, the incremental reassembler, the sender with partial writes, and both ends joined |
| `UbxFrame` | the UBX frame writer with its segmented checksum, and a frame decoder |
| `AidingDb` | the format of the aiding database file |
| `Aiding` | all operations on the aiding database, its file and the dirty flag, and runs of them |
| `Alp` | the AssistNow Offline chunk server and a client of it |
| `GpsState` | the class that does this in place: file cursors, buffers replaced, the port and the UDP copy written |
| `Session` | start, stop and shutdown of the receiver by any number of clients, and the report gate |
| `Align`, `Geometry` | the alignment bit trick, and sizes as sums over rows |
| `Gralloc`, `Gralloc960` | buffer sizes at allocation against plane addresses at locking, in both gralloc modules |
| `Afbc` | compressed buffers: sizes, type selection over a batch, and the header writer |
| `FbSlots` | the framebuffer slot allocator and panning |
| `Nmea` | the NMEA line assembler and tokenizer |
| `Ephemeris` | the assistance repacker: time rollover, week choice and the subframes of IS-GPS-200 (sections 20.3.3.3 and 20.3.3.4) |
| `Bytes`, `Prelude` | little-endian fields and small shared helpers |

What the outside world does is an argument: the bytes a read returns and how many, what each write
takes, the clock, whether memory, files and drivers are there. Classes have the fields of the
source's classes and structures; their methods are proved against specification functions on
values, and the properties are proved about those.

## Where the code keeps less than it seems to

Each of these has a lemma with the failing input and the exact condition.

- Power: a deadline that comes out as exactly 0 reads as "no deadline". It can happen only when
  start time plus the configured boost time is not positive. The thread does not look at the
  result of sem_wait: each time a signal ends it, one token more can be left behind for good.
- H4: a packet without payload aborts the receiver, as does a command packet. Bytes of type 0
  between packets are skipped; a type above 4 indexes past the length tables, which the model
  treats as fatal at the next readiness. A read that fails inside a packet takes back the byte
  before it. A send that fails half-way leaves the receiver out of step with the next frame.
- gralloc, YV12: for odd heights the Cb plane begins inside the Cr plane.
- gralloc960: a buffer allocated with 128-byte alignment and then locked for software access is
  given a chroma stride aligned to 16, which differs unless the luma stride is a multiple of 256.
  All samples stay inside the buffer and apart either way.
- gralloc960: the allocation type carries over from one descriptor of a batch to the next.
- gralloc960: `init_afbc` counts blocks from the unaligned dimensions, so it covers every block
  that the size helpers count only when they are aligned already and no extra row was added.
- gralloc960: the body of a 10-bit 4:2:0 buffer is computed from half the height, cut down, so it
  has no room for the last row of an odd height whose half is a whole number of blocks.
- Framebuffer: the slot mask has 32 bits while the shifts have more where `1LU` is 64 bits wide,
  as taken here, so with 33 or more slots the last bit never sticks and slot 32 is handed out for
  ever.
- NMEA: a newline that is byte 256 of its line is itself the dropped byte, and takes the next line
  with it.
- UBX and ALP: lengths are 16 bits wide; longer payloads produce frames that do not decode. ALP
  offsets count 16-bit words in 16 bits, so files over 128 KiB cannot be fetched by every split,
  nor files over 196588 bytes by any.
- Aiding: a failed load leaves a part of the file in memory without setting the dirty flag, and at
  the start the flag is clear over whatever file there is. A load does not look at the flag and
  drops unsaved changes. A buffer longer than an int can express is saved as its length alone.
- Sessions: a set-initiated stop silences the position reports of the clients that remain, though
  not their satellite reports. A reset acknowledgement does not say which reset it answers, so one
  for another reset can end the stopping phase.
- Ephemeris: fields wider than their places in the subframes are cut.

## Model

| member | source | states |
|---|---|---|
| Power.HintKeepsInv | power/power_hikey.c:295-311 | Every single statement of a hint, between any statements of the thread, keeps the invariant that ties lock, semaphore, deadline, boost and both program counters together |
| Power.ThreadKeepsInv | power/power_hikey.c:267-293 | So does every statement of the deboost thread, with a clock that moves between any two statements; the signals that cut its sleep or its sem_wait short are steps of their own |
| Power.RunKeepsInv | power/power_hikey.c:267-319 | So does every finite interleaving of hints, thread, clock and signals, from any state that satisfies it, with one token more in the invariant for each sem_wait that a signal ended |
| Power.NoLostWakeup | power/power_hikey.c:267-319 | In every interleaving in which signals end sem_wait k times, tokens plus "thread past sem_wait" is at least 1 while a deadline is set, at most 1 + k while none is, never above 2 + k; with the lock free the boost is on exactly while a deadline is set |
| Power.BoostCoversTheWindow | power/power_hikey.c:295-311 | The boost is on at every instant less than the boost time after the latest hint that reached schedtune_boost |
| Power.FrequencyFollowsMode | power/power_hikey.c:212-228 | Over every run without mode hints: in low power mode the frequencies are never raised, and in normal mode they are up exactly while the boost is on, outside the critical sections |
| Power.ZeroDeadlinePilesUpTokens | power/power_hikey.c:303-308 | When a deadline comes out as exactly 0, n hints in a row leave n tokens too many: the concrete run |
| Power.WakesPileUpTokens | power/power_hikey.c:272-290 | So do n times a hint, a signal that ends sem_wait, and the pass that drops the boost, with positive deadlines: the bounds with k are reached for every k |
| Power.TokenBoundsExactly | power/power_hikey.c:303-308 | With m tokens to spare, the bounds hold over all runs with at most k interrupted waits if and only if start time plus boost time is positive and k is at most m; with m = k = 0 these are the bare bounds |
| Power.QuietStepRanks | power/power_hikey.c:272-290 | With no hint pending, each thread statement lowers the rank while a deadline is set, no tick and no signal that ends sem_wait raises it, and a signal that ends the sleep raises it by at most five |
| Power.QuietRunRanks | power/power_hikey.c:272-290 | Over a run without hints the rank, and five for each cut sleep, pay for every thread statement, and a cleared deadline stays cleared |
| Power.BoostEnds | power/power_hikey.c:267-293 | From every reachable state, fourteen thread statements without a hint, and five more for each signal that cuts the sleep short, end the boost at any pace of the clock |
| Power.ThreadNeverStuck | power/power_hikey.c:272-283 | While a deadline is set the thread can always run after some finite wait |
| Power.BoostCanEnd | power/power_hikey.c:267-293 | From every reachable state some hint-free run of at most rank many thread statements ends the boost |
| Power.OneHintAlone | power/power_hikey.c:295-311 | The statements of one hint, run without interference, add up to the effect that the methods are specified by |
| Power.OnePassAlone | power/power_hikey.c:276-289 | The same for one pass of the inner loop of the thread, on either way out |
| Power.OtherHintsAlone | power/power_hikey.c:419-443 | A hint that changes the mode changes that field only, and one that does nothing leaves everything as it was |
| Power.HikeyPowerModule.constructor | power/power_hikey.c:313-319 | The initial fields are those of the initial state of the step system, with one token |
| Power.HikeyPowerModule.DevfreqSetInteractive | power/power_hikey.c:212-228 | The frequency files hold the boosted values afterwards exactly when switched on outside low power mode |
| Power.HikeyPowerModule.SchedtuneBoost | power/power_hikey.c:295-311 | Without a boost file nothing changes and its error is returned; otherwise the fields change by exactly the hint effect that OneHintAlone ties to the step system |
| Power.HikeyPowerModule.PowerHint | power/power_hikey.c:419-443 | Which hints reach schedtune_boost: interactions that the boostpulse file did not take; low power only sets the mode |
| Power.HikeyPowerModule.DeboostPass | power/power_hikey.c:276-289 | One pass keeps all fields and returns the remaining time, or drops boost and deadline and returns 0, by the pass effect that OnePassAlone ties to the step system |
| Hci.HciPacketizer.ReadPreamble | bluetooth/hci_packetizer.cc:52-68 | From any point of a preamble: reads what is wanted, offered and allowed, and the bytes seen grow by exactly the chunk; a complete preamble sizes the packet |
| Hci.HciPacketizer.ReadPayload | bluetooth/hci_packetizer.cc:70-83 | The same in the payload, keeping preamble size + bytes read + bytes remaining = packet size; the packet is ready exactly when whole, and then is all the bytes seen |
| Hci.HciPacketizer.OnDataReady | bluetooth/hci_packetizer.cc:50-86 | Any read of at least one byte extends the bytes seen by exactly that chunk, is ready exactly when they make a whole packet, and aborts exactly when no payload is wanted |
| Hci.HciPacketizer.OnReadFailed | bluetooth/hci_packetizer.cc:50-86 | A read that returns -1 behind the first byte of a preamble or payload passes the check on an unsigned count and takes the last byte seen back |
| Hci.FailedReadStealsByte | bluetooth/hci_packetizer.cc:70-75 | Such a read in the payload of a frame costs its last byte: the rest moves up, the next byte of the stream completes the packet, and the packet is right if and only if that happens to give the same bytes |
| Hci.ParseResumes | bluetooth/hci_packetizer.cc:50-86 | Parsing any two-part stream equals parsing the first part and resuming at its unfinished rest: chunk boundaries do not matter |
| Hci.DeadStaysDead | bluetooth/hci_packetizer.cc:50-86 | Once the receiver would abort, no later byte changes that or the frames before it |
| Hci.RestIsUnfinished | bluetooth/hci_packetizer.cc:50-86 | What the parser leaves over is at most one unfinished frame |
| Hci.ParsedFramesDeliverable | bluetooth/hci_packetizer.cc:35-39 | Every frame the parser yields, for any byte stream, has the length its header says and a non-empty payload |
| Hci.H4Protocol.constructor | bluetooth/h4_protocol.cc:57-66 | The receiver starts with nothing consumed and no callback made |
| Hci.H4Protocol.OnPacketReady | bluetooth/h4_protocol.cc:37-55 | The packet goes to the callback of its type and the type is reset; a command aborts |
| Hci.H4Protocol.OnDataReady | bluetooth/h4_protocol.cc:57-66 | One readiness consumes at least one byte; the callbacks made so far are always those of the parser on everything consumed, or the receiver has aborted where the parser is dead |
| Hci.H4Protocol.OnReadFailed | bluetooth/h4_protocol.cc:57-66 | A read that returns -1 is fatal where a type byte is wanted, and otherwise leaves the receiver as if the last byte had never come |
| Hci.H4Protocol.OnPacketBytes | bluetooth/h4_protocol.cc:63-65 | The same for the branch that passes bytes to the packetizer |
| Hci.PacketBytesArrive | bluetooth/h4_protocol.cc:57-66 | What each outcome of a packetizer read means for the parser |
| Hci.Pump | bluetooth/h4_protocol.cc:57-66 | For every stream and every choice of read sizes, the callbacks made, in order and by type, are the frames of the pure parser |
| Hci.ParseOneFrame | bluetooth/h4_protocol.cc:37-66 | A whole frame in front of anything is parsed as itself, and a command kills the receiver |
| Hci.ParseEncodeAll | bluetooth/h4_protocol.cc:29-35 | The parser undoes the encoder on every list of acceptable frames |
| Hci.PacketsDelivered | bluetooth/h4_protocol.cc:37-66 | Any sequence of events, ACL and SCO packets, written out byte by byte from their fields, makes exactly the calls that belong to them, with their contents |
| Hci.EventDelivered | bluetooth/h4_protocol.cc:37-66 | The bytes 4, code, length, data make the event callback with code, length, data |
| Hci.ScoDelivered | bluetooth/h4_protocol.cc:37-66 | The bytes 3, handle, length, data make the SCO callback with all but the 3 |
| Hci.AclDelivered | bluetooth/h4_protocol.cc:37-66 | The bytes 2, handle, low and high byte of the length, data make the ACL callback with all but the 2 |
| Hci.SurvivesExactly | bluetooth/hci_packetizer.cc:70-75 | For every value of the type byte: the receiver survives what is sent behind it and one byte more if and only if the type is the filler, or an event, ACL or SCO with a non-empty payload |
| Hci.SurvivesExactlyInStream | bluetooth/hci_packetizer.cc:70-75 | The same behind any acceptable frames, all of which are delivered either way |
| Hci.EmptyPacketsAreFatal | bluetooth/hci_packetizer.cc:70-75 | An event, ACL or SCO packet that announces no payload is fatal at the next byte and not before, by its bytes |
| Hci.ErrorFreeTransmitsAll | bluetooth/hci_protocol.cc:47-69 | Under every schedule of partial and EAGAIN writes everything gets out |
| Hci.TransmitsExactly | bluetooth/hci_protocol.cc:47-69 | For every schedule: what gets out is what the outcomes take before the first failure or write of 0 bytes, cut at the length, and everything if none comes |
| Hci.Uart.Write | bluetooth/hci_protocol.cc:50-62 | One write call puts a prefix of its data on the wire, as its outcome says |
| Hci.Uart.WriteSafely | bluetooth/hci_protocol.cc:47-69 | The loop puts exactly the first transmitted bytes on the wire and consumes exactly the outcomes the specification says, on errors too |
| Hci.Uart.Send | bluetooth/h4_protocol.cc:29-35 | Without errors the wire grows by the type byte and the packet; otherwise by exactly the part that the schedule let through, which is a prefix of the encoded frame, and nothing behind a lost type byte |
| Hci.CutFrameWaits | bluetooth/h4_protocol.cc:29-35 | After a send that failed half-way the receiver has all frames before it and waits with exactly the part that came |
| Hci.DeliveredBehindCutExactly | bluetooth/h4_protocol.cc:29-66 | The next frame sent behind the part is delivered at all if and only if part and frame together happen to start like that frame |
| Hci.InStepBehindCutExactly | bluetooth/h4_protocol.cc:29-66 | The receiver is in step behind that frame, with nothing left over, if and only if the part was empty |
| Hci.Loopback | bluetooth/h4_protocol.cc:29-66 | Everything sent over an error-free UART comes out of the receiver: same packets, same order, each at its own callback |
| Hci.CommandIsFatal | bluetooth/h4_protocol.cc:37-55 | A whole command packet is fatal, by its bytes |
| Hci.BadTypeAndFiller | bluetooth/h4_protocol.cc:57-66 | A type byte above 4 is fatal at the next byte; a type byte of 0 is skipped |
| UbxFrame.CrcUbx | ublox_gps_hal/ubxgpsstate.cpp:1305-1320 | The loop over 32-bit wrapping accumulators computes the mod-256 checksum of the bytes, from any seed |
| UbxFrame.WrappedStep | ublox_gps_hal/ubxgpsstate.cpp:1312-1317 | The wrap of the accumulators cannot be seen in their low bytes |
| UbxFrame.CrcIsSums | ublox_gps_hal/ubxgpsstate.cpp:1305-1320 | From seed 0 the two bytes are the plain sum and the position-weighted sum, mod 256 |
| UbxFrame.CrcSegments | ublox_gps_hal/ubxgpsstate.cpp:1355-1375 | Running the checksum segment by segment is one run over the concatenation |
| UbxFrame.OneByteChangeDetected | ublox_gps_hal/ubxgpsstate.cpp:1305-1320 | Changing any one byte changes the first checksum byte |
| UbxFrame.SwapDetectedExactly | ublox_gps_hal/ubxgpsstate.cpp:1305-1320 | Swapping two bytes goes unnoticed if and only if distance times difference is a multiple of 256 |
| UbxFrame.AdjacentSwapDetected | ublox_gps_hal/ubxgpsstate.cpp:1305-1320 | So swapping unequal neighbours never does |
| UbxFrame.DecodeEncodeExactly | ublox_gps_hal/ubxgpsstate.cpp:1333-1397 | A frame decodes to its class, id and payload exactly when the payload is shorter than 65536 bytes |
| UbxFrame.EncodeIsFrame | ublox_gps_hal/ubxgpsstate.cpp:1343-1392 | The frame spelled out: sync bytes, class, id, little-endian length, payload, the sum and then the weighted sum modulo 256 |
| UbxFrame.DecodesExactly | ublox_gps_hal/ubxgpsstate.cpp:1343-1392 | A byte string decodes to a message if and only if it is its frame, spelled out, and the length fits |
| UbxFrame.StartFrame | ublox_gps_hal/ubxgpsstate.cpp:1244-1266 | The bytes of the command that starts the receiver |
| UbxFrame.DecodedIsEncoded | ublox_gps_hal/ubxgpsstate.cpp:1333-1397 | Whatever decodes is the encoding of what it decodes to: the frame format has no other members |
| UbxFrame.CorruptFrameRejected | ublox_gps_hal/ubxgpsstate.cpp:1305-1320 | A frame with one byte of its checked part changed is rejected |
| UbxFrame.SwappedFrameRejected | ublox_gps_hal/ubxgpsstate.cpp:1305-1320 | So is one with two unequal neighbours swapped |
| UbxFrame.SerialPort.WriteSerial | ublox_gps_hal/ubxgpsstate.cpp:1351-1379 | The port takes the first bytes of a piece, as many as its plan says |
| UbxFrame.PutPiece | ublox_gps_hal/ubxgpsstate.cpp:1360-1375 | One conditional write and copy: the port gets a prefix, the UDP copy grows only on success |
| UbxFrame.PutFront | ublox_gps_hal/ubxgpsstate.cpp:1351-1375 | Header and both payload parts, with the checksum carried along piece by piece |
| UbxFrame.PutParts | ublox_gps_hal/ubxgpsstate.cpp:1351-1382 | All four writes: success exactly when every piece is taken whole |
| UbxFrame.PiecesMakeFrame | ublox_gps_hal/ubxgpsstate.cpp:1354-1392 | The pieces handed to the serial port make up the frame |
| UbxFrame.AllTakenExactly | ublox_gps_hal/ubxgpsstate.cpp:1354-1392 | The pieces are all taken if and only if no write takes less than its piece |
| UbxFrame.WriteUbx | ublox_gps_hal/ubxgpsstate.cpp:1333-1397 | Success if and only if the port takes every piece; then the serial bytes and the UDP copy are the same frame; otherwise the port has a prefix of it and UDP nothing |
| AidingDb.BufRoundTrip | ublox_gps_hal/ubxgpsstate.cpp:1517-1560 | A length-prefixed buffer is read back from what saveBuffer wrote, and the rest of the file is left |
| AidingDb.BufSavedExactly | ublox_gps_hal/ubxgpsstate.cpp:1838-1847 | A block of any length the heap holds, up to the unsigned 32 bits of its length field, is read back from what was saved if and only if an int can express its length; otherwise loading that fails and leaves the block in use alone |
| AidingDb.BlockBytes | ublox_gps_hal/ubxgpsstate.cpp:1776-1795 | A block in the file is its length in four bytes, lowest first, and its data if an int can express the length |
| AidingDb.FileLayout | ublox_gps_hal/ubxgpsstate.cpp:1691-1740 | The order of the parts of the file |
| AidingDb.SatelliteLayout | ublox_gps_hal/ubxgpsstate.cpp:1721-1768 | Each satellite in its place, as ephemeris, almanac and AssistNow block |
| AidingDb.AlpRoundTrip | ublox_gps_hal/ubxgpsstate.cpp:1562-1594 | The same for the ALP entry |
| AidingDb.SvRoundTrip | ublox_gps_hal/ubxgpsstate.cpp:1596-1629 | The same for one satellite |
| AidingDb.SvsRoundTrip | ublox_gps_hal/ubxgpsstate.cpp:1496-1512 | The same for all satellites in order |
| AidingDb.SaveThenLoad | ublox_gps_hal/ubxgpsstate.cpp:1464-1515 | Loading what was saved restores hui, alp, pos, time and every satellite over any memory, and consumes the whole file |
| AidingDb.DbExtends | ublox_gps_hal/ubxgpsstate.cpp:1464-1515 | A successful load of a prefix is the same load on the longer file |
| AidingDb.SavedFileLoadsExactly | ublox_gps_hal/ubxgpsstate.cpp:1464-1515 | A database is read back from its own file if and only if an int can express every length in it |
| AidingDb.OwnDb | ublox_gps_hal/ubxgpsstate.cpp:1464-1515 | Loading the file of a database over that database leaves it as it is, also when the load fails on a length |
| AidingDb.LoadAgain | ublox_gps_hal/ubxgpsstate.cpp:1464-1515 | Loading the same file once more changes nothing, whether the load succeeds or fails |
| AidingDb.TruncatedFileRejected | ublox_gps_hal/ubxgpsstate.cpp:1464-1515 | Loading any strict prefix of a saved file fails, for databases with any lengths |
| AidingDb.LoadKeepsStored | ublox_gps_hal/ubxgpsstate.cpp:1464-1638 | After any load of any bytes, failed ones included, every buffer is well formed and none is longer than it was or than heap and int allow |
| AidingDb.LoadIgnoresOld | ublox_gps_hal/ubxgpsstate.cpp:1464-1638 | Whether a load succeeds, and with what result, does not depend on what memory held |
| Aiding.ReplaceKeepsStored | ublox_gps_hal/ubxgpsstate.cpp:1159-1183 | Replacing a buffer leaves it well formed, and unchanged when it reports no change |
| Aiding.MsgKeepsStored | ublox_gps_hal/ubxgpsstate.cpp:482-546 | A message of any 32-bit length keeps all buffers well formed, and one that leaves the dirty flag clear leaves the database alone |
| Aiding.MessageGoesToItsSlot | ublox_gps_hal/ubxgpsstate.cpp:482-546 | A routed message ends up whole in its own slot and no other buffer changes; the flag is set exactly when something changed |
| Aiding.SatelliteStored | ublox_gps_hal/ubxgpsstate.cpp:510-546 | By the bytes of the message: id 0x30, 0x31 or 0x33 for satellite k replaces exactly the almanac, ephemeris or AssistNow block of entry k - 1 |
| Aiding.HuiStored | ublox_gps_hal/ubxgpsstate.cpp:497-504 | Id 0x02 replaces exactly the ionosphere block |
| Aiding.OtherMessageIgnored | ublox_gps_hal/ubxgpsstate.cpp:482-546 | Every other message that is not for the ALP server changes nothing, and so does one that the heap has no room for |
| Aiding.AlpMessageStored | ublox_gps_hal/ubxgpsstate.cpp:505-509 | A message for the ALP server changes no field but the stored file, as the ALP handler does, and sets the flag exactly for an update that applies |
| Aiding.DeleteKeepsStored | ublox_gps_hal/ubxgpsstate.cpp:578-617 | Deleting by any flags keeps the remaining buffers well formed |
| Aiding.DeletesExactly | ublox_gps_hal/ubxgpsstate.cpp:578-617 | Which flag deletes which data, field by field, and that all else is kept |
| Aiding.SavedFileHolds | ublox_gps_hal/ubxgpsstate.cpp:1691-1740 | The file a save writes holds a database if and only if it is the one saved and an int can express every length in it |
| Aiding.SaveWorks | ublox_gps_hal/ubxgpsstate.cpp:1644-1681 | A save either leaves the flag set, or leaves a file that holds the database if and only if an int can express every length |
| Aiding.SavesExactly | ublox_gps_hal/ubxgpsstate.cpp:1644-1681 | When a save is tried, and that it then leaves the whole encoding and a clear flag, or no file and the flag set |
| Aiding.SaveKeepsInv | ublox_gps_hal/ubxgpsstate.cpp:1644-1681 | Saving keeps "clean means that loading the file over memory changes nothing, and succeeds if every length is an int", when the disk is full too |
| Aiding.LoadKeepsInv | ublox_gps_hal/ubxgpsstate.cpp:1410-1454 | Loading keeps it |
| Aiding.ApplyKeepsInv | ublox_gps_hal/ubxgpsstate.cpp:482-617 | Every operation keeps it: messages, injections, deletions, time, position and ALP updates, saves, loads |
| Aiding.RunKeepsInv | ublox_gps_hal/ubxgpsstate.cpp:482-617 | So does every sequence of operations |
| Aiding.CleanMeansSaved | ublox_gps_hal/ubxgpsstate.cpp:1410-1454 | Over every run, with messages of any length, once a save or load has succeeded: if the dirty flag is clear, the file decodes to the database in memory if and only if an int can express every length in it |
| Aiding.RestartRestores | ublox_gps_hal/ubxgpsstate.cpp:1410-1454 | So a process that has not loaded yet and finds that file gets the whole database back, if and only if an int can express every length in it |
| Aiding.FailedLoadLeavesParts | ublox_gps_hal/ubxgpsstate.cpp:1464-1480 | A concrete foreign file whose failed load leaves a part of it in memory with the flag clear |
| Aiding.LoadWorks | ublox_gps_hal/ubxgpsstate.cpp:1410-1454 | A load that succeeds leaves what the file holds, and loading a file that holds the database changes nothing |
| Aiding.LoadDropsUnsaved | ublox_gps_hal/ubxgpsstate.cpp:1410-1454 | Over every run that has neither loaded nor saved: the first load of a decodable file drops every change made before, whatever it was, and leaves the flag as it is |
| Aiding.TimePutTooEarly | ublox_gps_hal/ubxgpsstate.cpp:209-220 | The concrete case: a time put between restart and first load is gone, with the flag set |
| Aiding.UnsavedSurvivesExactly | ublox_gps_hal/ubxgpsstate.cpp:1410-1454 | Unsaved changes reach the file with the next save, over any loads and failed opens before it, if and only if every length is an int and no load was tried, or the load would leave memory as it is |
| Aiding.OverwrittenBy | ublox_gps_hal/ubxgpsstate.cpp:1410-1454 | A load of a decodable file leaves memory as it is if and only if the file holds it already |
| Aiding.LongMessageIsLost | ublox_gps_hal/ubxgpsstate.cpp:482-502 | The concrete run of a message over INT_MAX bytes: stored, saved as its length alone, and the flag clear over a file that does not decode |
| Aiding.RunKeepsPristine | ublox_gps_hal/ubxgpsstate.cpp:1410-1454 | Until the first save or load succeeds, clean memory is empty or holds parts of a file that does not decode, and the file is the one found at the start |
| Aiding.CleanMeansSavedInRun | ublox_gps_hal/ubxgpsstate.cpp:1410-1454 | In every clean state of every run, the file holds the database if and only if, once a save or load has succeeded, an int can express every length, and before that, the file found at the start holds the empty database |
| Aiding.CleanMeansSavedExactly | ublox_gps_hal/ubxgpsstate.cpp:1410-1454 | "A clear flag means that the file holds the database" is true of all runs if and only if the file found at the start holds the empty database and no block can be too long, because the heap allows none or nothing is saved |
| Aiding.TimeImageHolds | ublox_gps_hal/ubxgpsstate.cpp:666-668 | The three fields read back from the time image, and its padding is kept |
| Aiding.PosImageHolds | ublox_gps_hal/ubxgpsstate.cpp:685-688 | The four fields read back from the position image, and its padding is kept |
| Aiding.AlpFileTakenExactly | ublox_gps_hal/ubxgpsstate.cpp:882-902 | A file is stored if and only if it is acceptable, new and finds room; it gets the next number, 0 after 65535, and the time stamp |
| Aiding.LateUpdateIgnored | ublox_gps_hal/ubxgpsstate.cpp:848-857 | An update for the file before does not touch the new one |
| GpsState.FileReader.Read | ublox_gps_hal/ubxgpsstate.cpp:1631-1638 | A read takes what is there up to the length wanted, and moves the cursor by it |
| GpsState.FileWriter.SaveBuf | ublox_gps_hal/ubxgpsstate.cpp:1776-1801 | For buffers of any length: success exactly when the encoding fits; then it is appended |
| GpsState.FileWriter.SaveAlp | ublox_gps_hal/ubxgpsstate.cpp:1803-1836 | The same for the ALP entry |
| GpsState.FileWriter.SaveSv | ublox_gps_hal/ubxgpsstate.cpp:1742-1774 | The same for a satellite |
| GpsState.FileWriter.SaveDatabase | ublox_gps_hal/ubxgpsstate.cpp:1691-1740 | Success exactly when the encoding of the database fits the disk; then the file is that encoding |
| GpsState.LoadBufField | ublox_gps_hal/ubxgpsstate.cpp:1517-1560 | The method reads what the specification of the buffer format reads |
| GpsState.LoadAlpField | ublox_gps_hal/ubxgpsstate.cpp:1562-1594 | The same for the ALP entry, field by field |
| GpsState.LoadSvField | ublox_gps_hal/ubxgpsstate.cpp:1596-1629 | The same for a satellite |
| GpsState.CUbxGpsState.constructor | ublox_gps_hal/ubxgpsstate.cpp:95-158 | An empty database, flag clear, nothing loaded |
| GpsState.CUbxGpsState.OnNewUbxMsg | ublox_gps_hal/ubxgpsstate.cpp:482-546 | The branches by class, id, length and satellite number change memory as the message specification says, on which the runs of Aiding are built |
| GpsState.CUbxGpsState.StoreAt | ublox_gps_hal/ubxgpsstate.cpp:1159-1183 | One buffer replaced and the flag set, nothing else |
| GpsState.CUbxGpsState.OnNewUbxAlpMsg | ublox_gps_hal/ubxgpsstate.cpp:821-871 | Memory changes as specified; the port receives the reply, or a prefix of it when it fails; only ignored messages and updates get none |
| GpsState.CUbxGpsState.WriteChunk | ublox_gps_hal/ubxgpsstate.cpp:851-869 | The chunk reply that goes out |
| GpsState.CUbxGpsState.WriteUbxAlpHeader | ublox_gps_hal/ubxgpsstate.cpp:931-951 | The header reply that goes out |
| GpsState.CUbxGpsState.DeleteAidData | ublox_gps_hal/ubxgpsstate.cpp:578-617 | Each flag clears its own data in the loop over the satellites, and the dirty flag is set |
| GpsState.CUbxGpsState.PutTime | ublox_gps_hal/ubxgpsstate.cpp:659-680 | The fields put in read back from the image, its padding and everything else are kept, and the flag is set |
| GpsState.CUbxGpsState.PutPos | ublox_gps_hal/ubxgpsstate.cpp:682-699 | The same for the position, stamped with the time now |
| GpsState.CUbxGpsState.PutAlpFile | ublox_gps_hal/ubxgpsstate.cpp:882-905 | Acceptable files only; the new file gets the next 16-bit id |
| GpsState.CUbxGpsState.LoadDatabase | ublox_gps_hal/ubxgpsstate.cpp:1464-1515 | Reads by cursor what the pure decoder decodes, up to the first failure |
| GpsState.CUbxGpsState.LoadAllSvs | ublox_gps_hal/ubxgpsstate.cpp:1496-1512 | The loop over the satellites reads what the recursive decoder decodes |
| GpsState.CUbxGpsState.LoadAiding | ublox_gps_hal/ubxgpsstate.cpp:1410-1454 | When a load is tried, and what memory holds afterwards |
| GpsState.CUbxGpsState.SaveAiding | ublox_gps_hal/ubxgpsstate.cpp:1644-1681 | When a save is tried, what the file is afterwards, and that a file cut short is removed |
| Alp.DecisionInBounds | ublox_gps_hal/ubxgpsstate.cpp:829-850 | Updates and chunks stay inside the file and updates need the right file id |
| Alp.AcceptableExactly | ublox_gps_hal/ubxgpsstate.cpp:882-893 | By its bytes: at least 84, beginning with B5 62 50 01, the length in words of four bytes at byte 68 |
| Alp.AnswersExactly | ublox_gps_hal/ubxgpsstate.cpp:821-871 | By the bytes of the message: which are not answered, which get the header, and which get a chunk, and which one |
| Alp.HeaderReplyBytes | ublox_gps_hal/ubxgpsstate.cpp:931-947 | The header reply byte by byte, with the header of the file behind it |
| Alp.UpdateTouchesOnlyItsRange | ublox_gps_hal/ubxgpsstate.cpp:835-846 | Byte by byte: an update writes its data in its clipped range when type and file id match, and nothing else ever changes, not even the length |
| Alp.ChunkReplyBytes | ublox_gps_hal/ubxgpsstate.cpp:860-868 | The chunk reply byte by byte: the identifier asked with, the number of the file and the count of data bytes written over, then the data |
| Alp.ChunkPayload | ublox_gps_hal/ubxgpsstate.cpp:851-869 | The reply carries the identifier, the file id and the chunk; its 16-bit size field is right below 65536 bytes |
| Alp.ExchangeExactly | ublox_gps_hal/ubxgpsstate.cpp:821-871 | Over the wire and back, a chunk request yields exactly the bytes asked for, clipped to the file, if and only if the reply fits a frame |
| Alp.EveryPlanFetchesExactly | ublox_gps_hal/ubxgpsstate.cpp:829-833 | With any server of the file, every split into fitting chunks that is long enough fetches it byte for byte if and only if it has at most 128 KiB |
| Alp.SomePlanFetchesExactly | ublox_gps_hal/ubxgpsstate.cpp:829-833 | Some split does if and only if the longest chunk at the last 16-bit word offset reaches its end, at 196588 bytes |
| Alp.HandlerServesFile | ublox_gps_hal/ubxgpsstate.cpp:821-871 | The handler with its framing, on the other end of the wire, is such a server |
| Alp.FetchReconstructsExactly | ublox_gps_hal/ubxgpsstate.cpp:821-871 | So both are exact for a client of the handler |
| Alp.FarEndOutOfReach | ublox_gps_hal/ubxgpsstate.cpp:829-833 | Whatever the size of a request, no reply covers byte 0x30000 |
| Alp.ReadsWhatWasAsked | ublox_gps_hal/ubxgpsstate.cpp:826-831 | The handler reads from a framed request the fields the client put in |
| Session.StepKeepsInv | ublox_gps_hal/gps_thread.cpp:129-258 | Each event keeps the session invariant |
| Session.SessionsConsistent | ublox_gps_hal/gps_thread.cpp:129-258 | Over every sequence of events: started exactly while there are clients, an acknowledgement held only while stopping or stopped, at most one publication and none without clients, no more shutdowns than startups |
| Session.ClientCountExactly | ublox_gps_hal/gps_thread.cpp:129-258 | Over every sequence of events, with unmatched stops too: the number of clients is the largest excess of starts over stops at its end |
| Session.MatchedClients | ublox_gps_hal/gps_thread.cpp:129-258 | As long as there were never more stops than starts it is the difference, and the engine is started if and only if that is positive |
| Session.CountStep | ublox_gps_hal/gps_thread.cpp:129-258 | A start adds a client; the last stop begins the stopping phase with its timeout; a stop without a client leaves count, engine and timeout alone |
| Session.StartupsJustified | ublox_gps_hal/gps_thread.cpp:192-258 | The engine is started by a start that finds no client and by nothing else |
| Session.ShutdownJustified | ublox_gps_hal/gps_thread.cpp:303-316 | A shutdown happens only without clients, and only after some reset acknowledgement that came after this stop, or after the whole timeout |
| Session.StopStaysPending | ublox_gps_hal/gps_thread.cpp:303-316 | While a stop is pending, events other than commands leave its timeout alone; if its own acknowledgement is the next one due and nothing gets lost, that stays so until it has come |
| Session.StoppingEnds | ublox_gps_hal/gps_thread.cpp:689-692 | A pass of the loop after either of them ends the stopping phase |
| Session.ControlThread.constructor | ublox_gps_hal/gps_thread.cpp:171-176 | The initial session |
| Session.ControlThread.EngineStart | ublox_gps_hal/gps_thread.cpp:192-258 | The first client starts the engine, clears the acknowledgement and publishes; the fields change as the session step says |
| Session.ControlThread.EngineStop | ublox_gps_hal/gps_thread.cpp:129-169 | The last client begins the stopping phase with its timeout; the same tie |
| Session.ControlThread.HandleStopped | ublox_gps_hal/gps_thread.cpp:178-190 | Shut down once, stopped |
| Session.ControlThread.HandleDeviceShutdown | ublox_gps_hal/gps_thread.cpp:303-316 | Stopped exactly on acknowledgement or timeout |
| Session.ControlThread.Handle | ublox_gps_hal/gps_thread.cpp:260-291 | Every event of the main loop, unknown commands included |
| Session.OwnAcknowledgementExactly | ublox_gps_hal/ubxgpsstate.cpp:547-563 | A pending stop ends only on its own acknowledgement or its timeout, whatever else comes and as long as nothing more gets lost, if and only if the next acknowledgement due is its own; resets and acknowledgements may have got lost before |
| Session.LossMisleads | ublox_gps_hal/ubxgpsstate.cpp:547-563 | From every pending stop, losses and another reset make a foreign acknowledgement end it: the events are given |
| Session.ControlThread.OnResetAck | ublox_gps_hal/ubxgpsstate.cpp:547-563 | An acknowledged reset counts only while stopping |
| Session.PublishesExactly | ublox_gps_hal/ubx_localDb.cpp:313-327 | Positions are published if and only if there is a client and no set-initiated stop came since the engine started |
| Session.ActiveButSilent | ublox_gps_hal/ubx_localDb.cpp:313-327 | So not always while a client is active: the concrete three events |
| Session.PublishedSinceStartExactly | ublox_gps_hal/ubx_localDb.cpp:313-327 | The same by the events alone: some start of the engine has no set-initiated stop behind it |
| Session.EpochHolds | ublox_gps_hal/ubx_localDb.cpp:138-148 | After a report the next epoch is an interval away and stays so, whatever commits follow, until a new setting |
| Session.ReportsSpaced | ublox_gps_hal/ubx_localDb.cpp:138-148 | While an interval is in force, any two reports are at least that far apart |
| Session.ReportsExactly | ublox_gps_hal/ubx_localDb.cpp:133-148 | Under a long setting a commit reports if and only if every report since the setting is at least the interval ago |
| Session.ReportGate.constructor | ublox_gps_hal/ubx_localDb.cpp:54-55 | No epoch at first |
| Session.ReportGate.Commit | ublox_gps_hal/ubx_localDb.cpp:133-275 | The position is reported exactly when due, started, fixed and published; the satellites when due and started, published or not |
| Session.SettingDecides | ublox_gps_hal/gps_thread.cpp:782-815 | After a setting, reports keep the interval set if it is longer than the receiver can keep, and otherwise every commit reports |
| Session.ReportGate.SetMinInterval | ublox_gps_hal/gps_thread.cpp:782-815 | An interval over two seconds sets an epoch now, any other clears it |
| Align.LeastMultiple | gralloc960/gralloc_helper.h:42 | Rounding up by steps gives a multiple, not below the value, and no smaller multiple is |
| Align.AndClearsLowBits | gralloc960/gralloc_helper.h:42 | Masking with the complement of 2^k - 1 clears exactly the low k bits, in words of any width |
| Align.TrickIsAlignUp | gralloc960/gralloc_helper.h:42 | For every power of two the bit trick is the least multiple, as long as the sum fits the word |
| Align.TrickRoundsUpExactly | gralloc960/gralloc_helper.h:42 | Its result is at or above the value if and only if the sum fits the word |
| Align.UsedTrick | gralloc960/gralloc_helper.h:46-49 | So for every base the modules use, pages included |
| Gralloc.Yv12Sized | gralloc/gralloc_module.cpp:370-382 | Strides, size and plane addresses as least multiples of the constants, by the class of the height |
| Gralloc.Nv21Sized | gralloc/gralloc_module.cpp:360-368 | The same for the interleaved format |
| Gralloc.Yv12Strides | gralloc/gralloc_module.cpp:370-374 | Luma and chroma stride hold a row each, and their alignment by height class |
| Gralloc.Yv12TilesExactly | gralloc/gralloc_module.cpp:370-382 | The planes that locking reports tile the size computed at allocation if and only if the height is even; for odd heights Cb starts inside Cr, and still nothing leaves the buffer |
| Gralloc.Yv12ChromaAligned | gralloc/gralloc_module.cpp:370-382 | For even heights both chroma planes start on 64-byte boundaries in all three height classes |
| Gralloc.Nv21InBounds | gralloc/gralloc_module.cpp:360-368 | The interleaved plane starts right behind the luma rows, holds every sample, and ends inside the allocation |
| Gralloc960.AllocHolds | gralloc960/mali_gralloc_bufferallocation.cpp:289-324 | The uncompressed size has room for the luma rows and both ways of storing chroma, for every width, height and alignment |
| Gralloc960.AllocatedExactly | gralloc960/mali_gralloc_bufferallocation.cpp:289-324 | Stride and size of an uncompressed allocation as least multiples |
| Gralloc960.InheritedHolds | gralloc960/mali_gralloc_bufferallocation.cpp:197-274 | So has the compressed 4:2:0 size that an uncompressed buffer gets behind a compressed one, with or without the extra row of blocks |
| Gralloc960.AllocationHasRoom | gralloc960/mali_gralloc_bufferallocation.cpp:289-298 | So has every 4:2:0 allocation that succeeds, whatever its type |
| Gralloc960.ChromaStrideAgreesExactly | gralloc960/mali_gralloc_bufferallocation.cpp:302-311 | The chroma stride assumed when locking is the allocated one if and only if the alignment is 16 or the luma stride is a multiple of 256 |
| Gralloc960.SamplesInBounds | gralloc960/mali_gralloc_bufferaccess.cpp:99-158 | Every Y, Cb and Cr sample of every picture lies inside the allocation, for all three formats, both alignments and every type left by the batch |
| Gralloc960.SamplesApart | gralloc960/mali_gralloc_bufferaccess.cpp:99-158 | No two samples share a byte, odd sizes included |
| Gralloc960.PlanesApart | gralloc960/mali_gralloc_bufferaccess.cpp:108-157 | Different planes do not overlap |
| Gralloc960.PlanesByFormat | gralloc960/mali_gralloc_bufferaccess.cpp:99-158 | Where each format has Cb and Cr, and when locking fails |
| Gralloc960.FlexAgrees | gralloc960/mali_gralloc_bufferaccess.cpp:248-401 | lock_flex and lock_ycbcr succeed for the same handles and put every sample at the same address |
| Gralloc960.FlexPlanesInOrder | gralloc960/mali_gralloc_bufferaccess.cpp:248-401 | The flexible planes come in the order of memory, luma first, chroma with every other row and column |
| Afbc.CountedBlocks | gralloc960/mali_gralloc_bufferallocation.cpp:216-262 | The aligned picture has at least as many header entries as init_afbc writes from the unaligned size |
| Afbc.HeadersFit | gralloc960/mali_gralloc_bufferallocation.cpp:103-274 | For every compressed type and each of the five size helpers, the headers fit the header region, which is part of the size |
| Afbc.RgbSized | gralloc960/mali_gralloc_bufferallocation.cpp:103-183 | For every compressed type: the strides and the size as header region plus rows, from least multiples of the pixels and bytes of the type |
| Afbc.PlainRgbSized | gralloc960/mali_gralloc_bufferallocation.cpp:103-130 | The same without compression |
| Afbc.Yuv420Sized | gralloc960/mali_gralloc_bufferallocation.cpp:197-274 | The same for 8-bit 4:2:0, with the extra row |
| Afbc.Yuv422Sized | gralloc960/mali_gralloc_bufferallocation.cpp:375-435 | The same for 8-bit 4:2:2 |
| Afbc.Yuv420TenSized | gralloc960/mali_gralloc_bufferallocation.cpp:645-720 | The same for 10-bit 4:2:0: 8 bytes for 2 by 2 pixels, a byte stride that counts pixels |
| Afbc.Yuv422TenSized | gralloc960/mali_gralloc_bufferallocation.cpp:738-804 | The same for 10-bit 4:2:2 |
| Afbc.HelpersRefuseExactly | gralloc960/mali_gralloc_bufferallocation.cpp:375-804 | The YUV helpers refuse exactly uncompressed and padded types, and the 10-bit ones widths that are no multiple of 4 |
| Afbc.RgbPictureFits | gralloc960/mali_gralloc_bufferallocation.cpp:103-183 | Behind the headers of an RGB buffer every row of the picture has room, for every type |
| Afbc.Yuv420PictureFits | gralloc960/mali_gralloc_bufferallocation.cpp:197-274 | Behind those of 8-bit 4:2:0, luma and both planes of chroma |
| Afbc.Yuv422PictureFits | gralloc960/mali_gralloc_bufferallocation.cpp:375-435 | Behind those of 8-bit 4:2:2, luma and as much chroma |
| Afbc.Yuv422TenPictureFits | gralloc960/mali_gralloc_bufferallocation.cpp:738-804 | Behind those of 10-bit 4:2:2, four bytes for every pixel |
| Afbc.Yuv420TenPictureFitsExactly | gralloc960/mali_gralloc_bufferallocation.cpp:645-720 | Behind those of 10-bit 4:2:0, all whole pairs of rows, and the last row of an odd height if and only if half the height, cut down, is not a whole number of blocks |
| Afbc.EveryBlockHeadedExactly | gralloc960/mali_gralloc_bufferallocation.cpp:216-262 | Every block counted gets a header if and only if the requested dimensions are aligned already and no extra row of blocks is added |
| Afbc.TypeInNext | gralloc960/mali_gralloc_bufferallocation.cpp:911-945 | A descriptor is allocated with its own type if compressed, else with the one before |
| Afbc.ShapeForDescriptor | gralloc960/mali_gralloc_bufferallocation.cpp:911-945 | The blocks that the modifiers of a descriptor ask for are the ones its buffer is laid out in |
| Afbc.SelectTypes | gralloc960/mali_gralloc_bufferallocation.cpp:888-945 | The choice of the types by the loop over the descriptors: it refuses exactly tiled split blocks, and otherwise assigns the type of the latest compressed descriptor |
| Afbc.HeadersFitInBatch | gralloc960/mali_gralloc_bufferallocation.cpp:911-945 | So in a batch, too, the headers fit wherever init_afbc runs |
| Afbc.BatchMatchesAloneExactly | gralloc960/mali_gralloc_bufferallocation.cpp:892-945 | Each descriptor gets the type it would get alone if and only if no uncompressed one comes behind a compressed one |
| Afbc.TenBitHeadedExactly | gralloc960/mali_gralloc_bufferallocation.cpp:658-715 | For the 10-bit 4:2:0 helper: if and only if the pixels added to the picture do not complete another block, which with the extra row they always do |
| Afbc.HeaderOfLayoutOne | gralloc960/mali_gralloc_ion.cpp:60-70 | A header of layout 1, byte by byte |
| Afbc.HeaderOfLayoutZero | gralloc960/mali_gralloc_ion.cpp:60-70 | A header of layout 0, byte by byte |
| Afbc.TiledHeaderOfLayoutZero | gralloc960/mali_gralloc_ion.cpp:72-76 | A tiled one is all zero |
| Afbc.CopyAt | gralloc960/mali_gralloc_ion.cpp:99-104 | Every copy is in its place |
| Afbc.PutHeaders | gralloc960/mali_gralloc_ion.cpp:99-104 | The copy loop writes identical headers back to back and not a byte behind them |
| Afbc.InitAfbc | gralloc960/mali_gralloc_ion.cpp:60-105 | Headers of the layout of the format, with the body offset behind all of them, and nothing behind them |
| FbSlots.BitOfOnes | gralloc/alloc_device.cpp:364 | The mask tests find exactly the lowest slots taken |
| FbSlots.SetFirstClear | gralloc/alloc_device.cpp:366 | Setting the first clear bit in a field of w bits takes one more slot, except at the width, where it is lost |
| FbSlots.RoundRobin | gralloc/alloc_device.cpp:352-371 | The k-th allocation gets slot k mod n |
| FbSlots.StuckSlot | gralloc/alloc_device.cpp:352-371 | With more slots than mask bits the allocator sticks at slot 32 for ever |
| FbSlots.RoundRobinExactly | gralloc/alloc_device.cpp:338-371 | Round-robin if and only if there are at most 32 slots, where the shifts are 64 bits wide |
| FbSlots.WindowsDistinctExactly | gralloc/alloc_device.cpp:338-371 | Any n consecutive allocations get n different slots if and only if there are at most 32 |
| FbSlots.MappedExactly | gralloc/framebuffer_device.cpp:373-392 | The mapping is the least multiple of 4096 bytes; slots follow each other in steps of yres lines |
| FbSlots.SlotIsItsLines | gralloc/framebuffer_device.cpp:373-392 | A slot is its own yres lines of the virtual screen, inside the page-rounded mapping, and its offset divides to its first line |
| FbSlots.ConsecutiveBuffersApart | gralloc960/framebuffer_device.cpp:455-502 | Any two of numBuffers consecutive allocations are disjoint parts of the mapping |
| FbSlots.FramebufferModule.constructor | gralloc960/framebuffer_device.cpp:361-377 | The mapping and the number of slots from what the driver reports |
| FbSlots.FramebufferModule.FindFree | gralloc960/framebuffer_device.cpp:487-497 | The search finds the first clear bit and moves by one slot size per slot passed |
| FbSlots.FramebufferModule.TakeSlot | gralloc960/framebuffer_device.cpp:478-497 | The mask keeps standing for the number of slots taken, and the offset is that of the next slot of the sequence |
| FbSlots.FramebufferModule.AllocFramebuffer | gralloc960/framebuffer_device.cpp:440-522 | A flip buffer inside the mapping, or with one slot or without dmabuf a regular buffer of all its padded lines; a failed export still uses up its slot |
| FbSlots.FramebufferModule.Post | gralloc960/framebuffer_device.cpp:83-172 | The display pans to the first line of the slot and all its lines exist; a regular buffer is copied so that the screen shows its lines and not a byte behind them changes; the current buffer is held exactly when the driver took it |
| FbSlots.FramebufferModule.CopyToScreen | gralloc960/framebuffer_device.cpp:145-166 | Both ways of copying, all at once and line by line, leave the lines of the buffer on the screen |
| FbSlots.LineShown | gralloc960/framebuffer_device.cpp:151-165 | Each line of the picture is that line of the buffer, whatever lies between its lines |
| FbSlots.OneCopyExactly | gralloc960/framebuffer_device.cpp:145-150 | One copy of everything shows every picture if and only if the buffer has no gap between its lines, or one line only: the branch is taken just when it may be |
| Nmea.ParsedLinesFit | gps/gps.c:734-747 | Everything parsed is one line of at most 255 bytes, so that the NUL fits; while skipping nothing is kept |
| Nmea.ScanNext | gps/gps.c:726-748 | One more byte changes the outcome of splitting the whole stream as the byte-wise states do |
| Nmea.LinesOfStream | gps/gps.c:726-748 | For lines of any lengths, exactly which arrive: those up to 255 bytes, except one right behind a line of 256 that was not itself skipped |
| Nmea.ShortLinesArrive | gps/gps.c:729-738 | Over-long lines cost only themselves when none has 256 bytes |
| Nmea.SplitConcat | gps/gps.c:726-748 | Splitting undoes joining, with nothing left over |
| Nmea.GoodLineSurvivesExactly | gps/gps.c:734-738 | A good line survives the line before it if and only if that one is not 256 bytes long, newline included |
| Nmea.NmeaReader.constructor | gps/gps.c:269-277 | Nothing buffered, not skipping |
| Nmea.NmeaReader.AddC | gps/gps.c:726-748 | After every byte of every stream, lines parsed, bytes buffered and the overflow flag are those of the splitter on all bytes fed; a parsed line is NUL-terminated inside the buffer |
| Nmea.NmeaReader.AddAll | gps/gps.c:926-932 | So the lines do not depend on how the stream is cut into reads |
| Nmea.JoinOfFields | gps/gps.c:112-128 | Joining the fields gives back the body but for at most one trailing comma; no field has a comma |
| Nmea.FieldsOfJoinExactly | gps/gps.c:112-128 | The fields of joined fields are those fields if and only if the last is not empty; an empty last one is lost |
| Nmea.BodyOfSentence | gps/gps.c:96-110 | From a sentence with dollar sign, checksum and line end exactly the body is left |
| Nmea.BodyExactly | gps/gps.c:91-113 | For lines with or without a dollar sign, checksum and either line end: what is taken for the body is the body if and only if an unchecked one does not end like a checksum and no return is in front of a bare newline |
| Nmea.DollarIsOptional | gps/gps.c:95-97 | A dollar sign in front is cut off |
| Nmea.NmeaTokenizer.Keep | gps/gps.c:119-123 | The first 32 fields are kept, later ones are not |
| Nmea.NmeaTokenizer.Init | gps/gps.c:90-132 | The tokens are the first 32 fields of the trimmed line |
| Nmea.NmeaTokenizer.Get | gps/gps.c:135-146 | Each index among them gives its own field, every other index the empty token |
| Nmea.SentencesRoundTrip | gps/gps.c:726-748 | The lines of a stream of sentences have the fields that were sent, but for an empty last one |
| Nmea.ReadLines | gps/gps.c:926-932 | Through the reader, in pieces of any size: the lines of the whole stream |
| Nmea.ReadBack | gps/gps.c:90-146 | So any of the first 32 fields of any sentence is read back through reader and tokenizer, and any other index gives the empty token |
| Ephemeris.RolloverKeepsTime | ublox_gps_hal/ubx_rilIf.cpp:580-586 | The rollover moves no time, and leaves a time inside the week if and only if less than two weeks came in |
| Ephemeris.ToeFromHow | ublox_gps_hal/ubx_rilIf.cpp:651 | The reference time read back from the hand-over word is a multiple of 6 in (16 t_oe - 6, 16 t_oe], for every 16-bit t_oe |
| Ephemeris.WeekIsNearExactly | ublox_gps_hal/ubx_rilIf.cpp:698-702 | The week chosen puts the ephemeris within 302401 s of now if and only if the times of week differ by less than 907201 s |
| Ephemeris.ValidTimesAreNear | ublox_gps_hal/ubx_rilIf.cpp:698-702 | So for every t_oe below 37800 and every reference time below two weeks |
| Ephemeris.NoWeekMuchNearer | ublox_gps_hal/ubx_rilIf.cpp:698-702 | And then no other week is nearer by more than the second lost to truncation |
| Ephemeris.TenBitsAreEnough | ublox_gps_hal/ubx_rilIf.cpp:519 | The ten bits stored identify the week, given the current one |
| Ephemeris.PackedField | ublox_gps_hal/ubx_rilIf.cpp:514-549 | Every bit field of a word is where the widths before it put it and keeps its low bits |
| Ephemeris.ClockRead | ublox_gps_hal/ubx_rilIf.cpp:653-668 | Subframe 1 as a receiver reads it, field by field |
| Ephemeris.OrbitRead | ublox_gps_hal/ubx_rilIf.cpp:670-683 | Subframe 2, with the split M0, e and square root of A joined again |
| Ephemeris.PlaneRead | ublox_gps_hal/ubx_rilIf.cpp:685-696 | Subframe 3, with the split OMEGA0, i0 and omega joined again |
| Ephemeris.WordsHave24Bits | ublox_gps_hal/ubx_rilIf.cpp:653-696 | No word has anything above its 24 bits |
| Ephemeris.UnusedBitsAreZero | ublox_gps_hal/ubx_rilIf.cpp:653-696 | The places that are not filled are zero |
| Ephemeris.SubframesExactly | ublox_gps_hal/ubx_rilIf.cpp:653-702 | A receiver gets back every parameter if and only if each fits its place (10-bit IODC, 6-bit health, 4-bit URA, 22-bit af0, 1-bit fit, 24-bit OMEGADOT, 14-bit IDOT); the week to ten bits; and always matching IODC and IODEs |
| Ephemeris.RepackMeans | ublox_gps_hal/ubx_rilIf.cpp:647-702 | What a repacked message means to the receiver: svId one above the id, every parameter if and only if each fits, matching issues, the ten bits of the chosen week, t_oe from the hand-over word to less than 6 s |
| Ephemeris.BuildEph | ublox_gps_hal/ubx_rilIf.cpp:647-702 | The message built for one satellite has that meaning |
| Ephemeris.SendEph | ublox_gps_hal/ubx_rilIf.cpp:642-716 | A satellite gets its one message exactly when its id is below 32 and its status 0 or 2 |
| Ephemeris.SendModel | ublox_gps_hal/ubx_rilIf.cpp:638-716 | Exactly the satellites below 32 with status 0 or 2, in order |
| Ephemeris.AgpsAssistMessage | ublox_gps_hal/ubx_rilIf.cpp:554-718 | The time message from the rolled-over time, and the ephemeris messages |
| Ephemeris.MessagesAreOfTaken | ublox_gps_hal/ubx_rilIf.cpp:642-645 | Each message sent belongs to one accepted satellite, the one that as many accepted ones precede |
| Ephemeris.TakenAreSent | ublox_gps_hal/ubx_rilIf.cpp:642-645 | And every accepted satellite has its message |
| Ephemeris.SentMessageMeans | ublox_gps_hal/ubx_rilIf.cpp:554-718 | Every message that goes out means the parameters of an accepted satellite, and for a time below two weeks and a t_oe below 37800 its ten bits are those of a week that puts the ephemeris within 302401 s of now |

## Left out

- Ephemeris.AgpsAssistMessage: does not model binary floating point, because times are exact reals here; the source multiplies by 0.001 and back, which may truncate to the millisecond before. The position part of UBX-AID-INI is reduced to its flag.
- Ephemeris.SendModel: does not model a satellite count larger than the array it counts.
- Hci.HciPacketizer.OnReadFailed, Hci.H4Protocol.OnReadFailed: do not model a failed read before the first byte of a preamble or payload. The count then wraps around, and the next read begins one byte before that preamble or payload.
- Alp.UpdateTouchesOnlyItsRange: does not model identifiers longer than the reply structure, which the handler copies over its end. The handler does not look at the length of a message, so messages here are the memory from their first byte on; the predicate `Alp.Complete` says how much of it must be there.
- AidingDb.BufSavedExactly: takes reads and writes of any int length to be possible in one call, where Linux moves at most 0x7FFFF000 bytes.
- AidingDb.LoadIgnoresOld: does not model a read that fails, where -1 equals a stored length of 0xFFFFFFFF.
- Session.OwnAcknowledgementExactly: takes the acknowledgements that come to come in the order of the resets. A reset whose write fails is one that gets lost.
- Afbc.SelectTypes: models the choice of the type; the same loop also fails on a format it does not know and on a size that a helper refuses for the type, such as padded AFBC with YUV.
- Session.ReportGate.Commit: the contents of the reports, and the report to control-plane assistance, are not part of this model.
- FbSlots.FramebufferModule.Post: does not model the wait for the vsync. A regular buffer is copied in the newer module, which knows the byte stride; the older one always copies all at once.
- FbSlots.RoundRobinExactly: takes `1LU` to be 64 bits wide. Where it has 32, the shift for 32 slots is undefined already.
- FbSlots.FramebufferModule.AllocFramebuffer: does not model 64 or more slots, for which the shift is undefined, nor a line length and height whose product exceeds 32 bits. With no slot at all (a virtual screen shorter than the screen) it gives offset 0 and promises nothing about bounds.
- Power.HikeyPowerModule.DeboostPass: models one pass under the lock; the waiting around it is in the step system. Writes to the boost and frequency files are taken to succeed.
- GpsState.CUbxGpsState.OnNewUbxMsg: models storing and the ALP server; which messages are logged or answered with new requests is not part of this model. Buffers are values, so aliasing of heap blocks and their release are not captured.
- Session.ControlThread.Handle: models the build without SUPL; the power and device calls inside startup and shutdown are counted, not modelled.
- The older gralloc hands a framebuffer handle the size its caller computed; the model uses the slot size, as the newer module does.
- Machine overflow of sizes and times outside the places named above: integers are unbounded here.
- Several threads in the GPS code: its methods are modelled as run under the lock that the source takes around them.
- The lock, register and reference counting life cycle of gralloc buffers.
- Format capability selection, vsync, dumps, logging and code behind build flags that are off.
- Uncompressed sizes of the RGB, packed YUV, 10-bit and camera formats, which have no second computation to agree with.
- sysfs, ioctl, mmap, ION, sockets, select and the HIDL layer.
- HTTP download of assistance, SUPL sessions, the receiver's own parser buffer and the UDP client table.
- The contents of NMEA sentences: positions, times and satellite status.
- Location to earth-centred conversion, uncertainty codes and frame rates, which are floating point throughout.
- audio, broadcastradio, camd, liblight, memtrack, sensorhal, usbaudio and the boot layout scripts.
