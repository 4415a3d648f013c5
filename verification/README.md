# Transports and interlocks of a model vehicle's firmware

The firmware drives a model vehicle; a Python program on a host commands it over a serial line. This
project models the parts of it that are hard to get right by reading: the byte transports between the
vehicle, the host, its two processors and its Ethernet DMA engine, and two small pieces that the vehicle's
safety and position depend on.

* **Serial link to the host** (`Crc16`, `CrcDetection`, `LmsMsg`, `LmsStream`, `HostLink`, `LmsTyped`).
  The specification of the checksum is bit-serial division by x^16+x^12+x^5+1 with a preset of ones; the C
  and Python byte-at-a-time forms are proved equal to it, and its detection of bursts and of odd numbers of
  errors is proved for messages of every length. On it rest the receiver over whole streams, its
  comparison with the host's independently written receiver, and the typed commands from host method to
  vehicle decoder.
* **Ethernet descriptor rings** (`EmacTx`, `EmacTxInterleaving`, `EmacRx`, `EmacRxSteps`,
  `EmacRxInterleaving`). The driver's code, and over it state machines in which the DMA engine completes
  or fills descriptors between any two accesses of the driver's tasks.
* **Ring between two processors** (`IpcRing`, `IpcInterleaving`, `Serdes`, `SerdesEndToEnd`). Single
  memory accesses of writer and reader interleaved; above that, framed messages with one reservation each.
* **Serial port rings** (`UartRing`, `UartHandler`, `UartWakeup`, `UartTxInterleaving`,
  `UartTxStall`). Interrupt and task on the same rings, the edge-triggered wake-up of the main loop, the
  transmit path, and exactly which transmit calls can go wrong.
* **Emergency stop and rotary encoder** (`Motor`, `EmergencyStop`, `HostToMotor`, `Rotenc`). `HostToMotor` takes
  a speed from the host's method over the link to the motor's pins.

`Words` has machine words as natural numbers and their bits, `Modular` places round a ring, `Options` an
optional value.

The code that works in place is modelled in place: a class with the source's fields, whose methods state
their whole effect as a function of the old state. Those functions are then the steps of the state
machines, about which the lemmas speak over every run. Ring lengths and descriptor counts are symbolic; the
values 128, 64 and 121 appear only where a bound depends on them.

Six properties that one might expect turn out false of the code; each is stated with a case that shows it
and with the exact condition that decides it:

* A frame directly behind noise is not always received. Behind noise that has no start in it, it is if and
  only if the run of start bytes at the end of the noise is even (`LmsStream.NoiseDecidesFrame`).
* The host's receiver does not check the length field. It agrees with the vehicle's after every byte of a
  stream if and only if the length fields in it are 1 to 64 (`HostLink.LockStep`); a frame of length 0 stops it
  for good (`HostLink.ZeroLengthFrame`).
* The LED decoder's countdown ends if and only if the length is 2 modulo 4 (`LmsTyped.LedLoopEnds`).
* A transmit call can leave bytes in the ring that the transmitter will not ask for: under some schedule of
  interrupts if and only if the ring has no room for all of the call's bytes when it begins
  (`UartTxStall.CallsStallExactly`); then only another call gets them out (`UartTxStall.StallIsForGood`).
* A transmit call can send another byte in place of one of its own, since the write index moves before the
  byte is stored: for some data and schedule, under the same condition (`UartTxStall.CallsSpoilExactly`). Over
  whole runs, what goes out is what the calls accepted if and only if no interrupt falls so
  (`UartTxInterleaving.SentAndQueuedAreAccepted`).
* `motorSpeed` keeps the speed within 100 throughout a run if and only if it is never asked for the least int,
  whose absolute value is negative (`EmergencyStop.BoundsExactly`, `EmergencyStop.LeastIntIsAccepted`). The
  link cannot ask for it, having 16 bits; the console command can, which takes any number that strtol gives
  (m4/App/ui.c:636-645).

## Model

| member | source | states |
|---|---|---|
| Crc16.CrcIsPolynomialRemainder | m4/App/lmsMsg.c:66-82 | For every byte string, the checksum register is the remainder of the message polynomial, preset with ones and extended by 16 zeros, modulo x^16+x^12+x^5+1 |
| Crc16.GeneratorTerms | m4/App/lmsMsg.c:68 | The generator's terms are x^16, x^12, x^5 and 1 |
| Crc16.FoldIsFeed | m4/App/lmsMsg.c:74-79 | One turn of the byte-at-a-time fold is eight turns of the bit-serial shift register, for every register and byte |
| Crc16.PyFoldIsFold | python/vehicleif.py:200-203 | The host's fold, which never masks its temporary, equals the vehicle's on every register and byte |
| Crc16.ComputeCrc | m4/App/lmsMsg.c:66-82 | The C loop computes the specified checksum of the bytes it is given, for every length a byte can express |
| Crc16.PyCrc16 | python/vehicleif.py:197-204 | The Python loop computes the same checksum, for every length |
| Crc16.ReceiverTestIsResidue | m4/App/lmsMsg.c:206-210 | The receiver's comparison succeeds exactly if the checksum of payload and footer together is 0, and exactly if the footer is the sender's |
| CrcDetection.BurstsAreDetected | m4/App/lmsMsg.c:66-82 | Two strings of equal length that differ by a burst of at most 16 bits, aligned or not, cannot both pass |
| CrcDetection.SeventeenBitBurstUndetected | m4/App/lmsMsg.c:66-82 | The bound is tight: the generator itself, a burst of 17 bits, goes unseen |
| CrcDetection.OddErrorsAreDetected | m4/App/lmsMsg.c:66-82 | Two strings of equal length that differ in an odd number of bits cannot both pass |
| CrcDetection.CodewordsAreEven | m4/App/lmsMsg.c:101-115 | Payload and checksum together always have an even number of ones |
| LmsStream.FaultsAreIsolated | m4/App/lmsMsg.c:117-236 | On any sequence of harmless noise - every start byte that the receiver meets in it is followed by something other than the second one - and of frames that are intact, hit by one burst of up to 16 bits, or hit in an odd number of bits: the intact payloads and no others are delivered, in order, each damaged frame adds one to badPkt, each false start one to duffSTX, each packet that the decoder refuses one to badContent, and the receiver ends idle |
| LmsStream.ChunksDoNotMatter | m4/App/lmsMsg.c:117-126 | However a stream is divided among calls of the receive routine, the result is that of the whole |
| LmsStream.ReceiveStream | m4/App/lmsMsg.c:117-236 | Both of the above on the receiver's own fields and buffer |
| LmsStream.FramesRoundTrip | m4/App/lmsMsg.c:101-236 | A frame of a payload of 1 to 64 bytes is received as that payload |
| LmsStream.NoiseDecidesFrame | m4/App/lmsMsg.c:130-157 | Behind noise without the two start bytes side by side, a frame of any payload is received if and only if the run of start bytes at the end of the noise is even; if it is odd, the payload is not among what is delivered |
| LmsStream.HarmlessExactly | m4/App/lmsMsg.c:130-157 | Such noise is harmless if and only if that run is even |
| LmsStream.QuietNoise | m4/App/lmsMsg.c:130-142 | Noise without any start byte is harmless, and each byte of it is a false start |
| LmsStream.PacketsFit | m4/App/lmsMsg.c:128-234 | No packet is delivered by fewer bytes than its length and six |
| LmsStream.StrayStartLosesFrame | m4/App/lmsMsg.c:147-157 | One start byte directly before a frame loses it, whatever its payload, because the byte that fails as second start byte is not examined again |
| LmsMsg.EveryStartIsAccountedFor | m4/App/lmsMsg.c:84-236 | Over every run, timeouts included, bytes handled in idle = duffSTX + badPkt + goodPkt + toPkt + 1 if in mid-frame |
| LmsMsg.RunIsSound | m4/App/lmsMsg.c:170-234 | Over every run, collected plus missing bytes stay within 64, one packet is delivered per goodPkt, deliveries are never undone, and badContent grows by exactly the number of delivered packets that the decoder refuses |
| LmsMsg.BadContentIsRejected | m4/App/lmsMsg.c:221-228 | The same from any state: one for each good packet that the decoder refuses, and nothing else |
| LmsMsg.TimeoutsAreCounted | m4/App/lmsMsg.c:84-91 | Over every run toPkt grows by the expiries that cut a frame short, and by nothing else |
| LmsMsg.TimeoutsCount | m4/App/lmsMsg.c:84-91 | An expiry changes toPkt alone among the counters, ends the frame in progress and delivers nothing |
| LmsMsg.BadHeadersCount | m4/App/lmsMsg.c:160-187 | A wrong version and a length outside 1 to 64 each add one to badPkt, at once |
| LmsMsg.LmsMsgTx | m4/App/lmsMsg.c:101-115 | The buffer becomes its completed form in place; the answer is true exactly if the port did not take all of it |
| LmsMsg.FrameLayout | m4/Inc/lmsmsg.h:40-47 | A frame is 7E, 8E, 01, the payload's length, the payload and its checksum |
| LmsMsg.CompletedIsFrame | m4/App/lmsMsg.c:101-115 | For a prepared header the completed buffer is the frame of the payload between header and footer |
| LmsMsg.CompletedParts | m4/App/lmsMsg.c:106-112 | On buffers of every length, which bytes are changed and to what: the length less six cut to a byte, and the footer of as many bytes as that says |
| LmsMsg.Receiver.ReceiveByte | m4/App/lmsMsg.c:128-234 | One byte moves the receiver's fields as the protocol step says; in particular collected bytes + countdown = packet length, which is at most 64, and the timer runs exactly outside RX_IDLE |
| LmsMsg.Receiver.CollectByte | m4/App/lmsMsg.c:190-198 | A payload byte goes to the write position, and the countdown ends the payload at zero |
| LmsMsg.Receiver.FinishPacket | m4/App/lmsMsg.c:206-232 | The packet is accepted exactly if the checksum over the buffer equals the two bytes received |
| LmsMsg.Receiver.RxTimeout | m4/App/lmsMsg.c:84-91 | A timeout returns to idle and adds one to toPkt |
| LmsMsg.Receiver.LmsMsgReceive | m4/App/lmsMsg.c:117-236 | A call processes all pending bytes as that many protocol steps |
| HostLink.LockStep | python/vehicleif.py:206-250 | The two receivers agree in phase, collected bytes, counters and deliveries after every prefix of a stream if and only if every length field in it is 1 to 64 |
| HostLink.StepsAgree | python/vehicleif.py:226-231 | From agreement, a byte keeps it if and only if it is not a length field outside 1 to 64 |
| HostLink.ZeroLengthIsATrap | python/vehicleif.py:233-237 | Once the countdown is zero or below, no input whatever takes the host out of collecting |
| HostLink.ZeroLengthFrame | python/vehicleif.py:226-237 | A header with length 0 brings the host there |
| HostLink.Vehicle.DoRead | python/vehicleif.py:350-353 | The read loop and its dispatch process all waiting bytes as protocol steps of the host |
| HostLink.Vehicle.RxHandleGetlen | python/vehicleif.py:226-231 | Any length starts the collecting of a packet |
| HostLink.Vehicle.RxHandleGetpacket | python/vehicleif.py:233-237 | A byte is collected; only a countdown of exactly zero ends the packet |
| HostLink.Vehicle.RxHandleGetChecksumL | python/vehicleif.py:243-250 | The packet is accepted exactly if its checksum equals the two bytes received |
| HostLink.SendCmd | python/vehicleif.py:265-274 | What is written is the frame of type, identifier, time stamp and command bytes; it raises exactly if the length does not fit a byte |
| HostLink.CommandsAreAccepted | python/vehicleif.py:265-274 | Every command of at most 58 bytes is received and accepted by the vehicle |
| HostLink.LongCommandsAreRefused | m4/App/lmsMsg.c:170-187 | Every longer one that can be sent is a bad packet at its length byte |
| LmsTyped.ValuesDecode | m4/App/lms.c:67-79 | Every int16_t decodes to itself as a speed, and with its servo number as a servo position |
| LmsTyped.SpeedArrives | m4/App/lms.c:60-65 | Every speed the host accepts decodes on the vehicle to itself, negative ones included, or to zero if it is nearer to zero than ten |
| HostToMotor.HostSpeedDrives | python/vehicleif.py:276-281 | Whatever was asked for and seen before, a speed set on the host is delivered and becomes the motor's speed, and the pins drive it forwards if it is at least ten and the last look forward was not too near, backwards likewise, otherwise not at all; the duty is its amount |
| LmsTyped.SetSpeedCmd | python/vehicleif.py:276-281 | Speeds within 100 are framed, speeds nearer to zero than 10 as zero; any other raises |
| LmsTyped.ServoArrives | m4/App/lms.c:75-79 | Every servo position the host accepts decodes to the same value |
| LmsTyped.SetServoCmd | python/vehicleif.py:283-288 | Only servo 0 and positions 0 to 1000 are framed; anything else raises |
| LmsTyped.LedsArrive | m4/App/lms.c:92-107 | Every list of at most 12 LEDs decodes to the same list and command, each LED's number, red, green and blue in four bytes from the seventh on, and its length is one for which the decoder's loop ends |
| LmsTyped.LedCommandArrives | m4/App/lms.c:115-118 | Every LED command decodes to itself |
| LmsTyped.LedCommandCmd | python/vehicleif.py:290-293 | Commands 0 to 2 are framed; anything else raises |
| LmsTyped.PayloadParts | python/vehicleif.py:265-271 | A command's payload is type, identifier, the clock modulo 2^32 with the high byte first, and the command's bytes |
| LmsTyped.LedSetCmd | python/vehicleif.py:301-309 | Lists of at most 12 LEDs are framed; longer ones raise |
| LmsTyped.DecodeSetLed | m4/App/lms.c:92-107 | On a packet of any length, as many turns of the countdown loop as one cares to follow apply the LEDs found in memory, in order, and stop only at zero; on whole packets they are the packet's LEDs, all of them |
| LmsTyped.LedLoopEnds | m4/App/lms.c:95-102 | The uint8_t countdown reaches zero if and only if the length is 2 modulo 4, and then, given a header, after exactly one turn per LED |
| LmsTyped.Int16RoundTrip | m4/Inc/lmsmsg.h:46-67 | The 16-bit macro and its two inverses: value modulo 2^16, and every int16_t exactly |
| LmsTyped.Int32RoundTrip | m4/Inc/lmsmsg.h:46-67 | The 32-bit macro and its two inverses: value modulo 2^32, and every int32_t exactly |
| LmsTyped.UnsignedByShifts | m4/Inc/lmsmsg.h:50-57 | The values read are those of the shifts and ors that the vehicle writes, high byte first |
| LmsTyped.CarStatusRoundTrip | m4/App/lms.c:165-179 | The status message returns stops, servo position and signed speed as they were sent |
| LmsTyped.CarStatusLayout | m4/App/lms.c:165-173 | Where in the status message front stop, back stop, servo position and speed stand |
| EmacTxInterleaving.RunKeepsInv | m4/App/enet/lpc18xx_43xx_emac.c:457-577 | The ring's invariant - counts, ownership, flags, saved buffers, references - holds in every interleaving of output, cleanup and DMA completion |
| EmacTxInterleaving.NoPartialChainIsSent | m4/App/enet/lpc18xx_43xx_emac.c:471-567 | From every reachable state, however long the engine is left to itself, what it has completed are the descriptors of whole packets handed over: packet by packet and buffer by buffer, each with its packet's name, first on the first and last on the last |
| EmacTxInterleaving.EngineSeesWholeChains | m4/App/enet/lpc18xx_43xx_emac.c:471-567 | What the engine can reach is exactly what was handed over and is not completed, roles of whole packets; the first descriptor of a chain under construction bars its way |
| EmacTxInterleaving.EngineStopsAtHanded | m4/App/enet/lpc18xx_43xx_emac.c:566-567 | Left to itself the engine completes exactly what was handed over and stops before the chain under construction |
| EmacTxInterleaving.HandedSlots | m4/App/enet/lpc18xx_43xx_emac.c:471-530 | Every descriptor in flight carries its own buffer, the first-segment flag only if it is first of its packet and the last-segment flag only if it is last |
| EmacTxInterleaving.InFlightIsInterval | m4/App/enet/lpc18xx_43xx_emac.c:822-902 | With the mutex free, descriptors in flight are the cyclic interval from reclaim to fill index, N less the free count; all others are idle, and only the last of the ring carries the end-of-ring flag |
| EmacTxInterleaving.ReferencesAreConserved | m4/App/enet/lpc18xx_43xx_emac.c:498-533 | Over every run, buffers are released in the order of sending, each once, none before the engine is done with its packet; one reference is held for each of the others, and for a packet being built once it has a descriptor or is a copy |
| EmacTxInterleaving.FillAlone | m4/App/enet/lpc18xx_43xx_emac.c:471-560 | Undisturbed, the single claims and finishes add up to the driver's fill loop |
| EmacTxInterleaving.OutputAlone | m4/App/enet/lpc18xx_43xx_emac.c:396-577 | Undisturbed, the steps of an output, of a packet or of its copy, add up to the driver's output routine, in ring and references |
| EmacTxInterleaving.ReclaimAlone | m4/App/enet/lpc18xx_43xx_emac.c:822-902 | Undisturbed, the steps of a cleanup add up to the driver's routine, in ring and references |
| EmacTx.Emac.LowLevelOutput | m4/App/enet/lpc18xx_43xx_emac.c:396-577 | The ring becomes the one with the packet's chain filled in - or its copy's, if any buffer of it is in slow memory - and one more reference is held; without memory for the copy nothing changes; with too few descriptors free it is still polling, and only the copy has been made |
| EmacTx.Emac.FillRing | m4/App/enet/lpc18xx_43xx_emac.c:471-567 | The loop fills in the chain, its first descriptor given away last |
| EmacTx.Emac.TxReclaim | m4/App/enet/lpc18xx_43xx_emac.c:822-902 | Every leading descriptor that is not the engine's is taken back, with its saved buffer released in order |
| EmacTx.Emac.Setup | m4/App/enet/lpc18xx_43xx_emac.c:365-392 | An idle ring, free throughout, with the end-of-ring flag on the last descriptor only |
| EmacTx.Emac.Scan | m4/App/enet/lpc18xx_43xx_emac.c:410-428 | The scan finds slow memory if and only if some buffer of the chain lies in it |
| EmacTx.Emac.CopyChain | m4/App/enet/lpc18xx_43xx_emac.c:437-453 | The copy has the bytes of the chain's buffers, one after the other, and their number modulo 2^16 as its length |
| EmacTx.CopyIsInOrder | m4/App/enet/lpc18xx_43xx_emac.c:441-446 | Byte for byte: byte j of the i-th buffer of a copied packet is in the copy as many places on as the buffers before it have bytes, and j more |
| EmacTx.ChainOfConcat | m4/App/enet/lpc18xx_43xx_emac.c:441-446 | The bytes of two chains in a row are the bytes of the first, then those of the second |
| EmacTx.CopyIsWhole | m4/App/enet/lpc18xx_43xx_emac.c:430-459 | What goes to the ring carries the packet's bytes, all of them in order, if and only if no copy is needed or their number has 16 bits |
| EmacTx.NothingSlowIsSent | m4/App/enet/lpc18xx_43xx_emac.c:410-459 | A packet without slow buffers goes as it is; any other goes as one copy, under the copy's own name and at its address; with the copy in fast memory nothing slow is handed to the ring |
| EmacTx.SlowRange | m4/Inc/enet/lpc_18xx43xx_emac_config.h:65 | Slow memory is exactly the eight megabytes from 0x14000000 on |
| EmacRxInterleaving.BuffersAreNeverLost | m4/App/enet/lpc18xx_43xx_emac.c:223-362 | In every interleaving of packets arriving, good and bad, with the accesses of input calls and with allocations refused or not: each buffer allocated is in exactly one queued place, or was handed up exactly once, or is the one in the driver's hand |
| EmacRxInterleaving.GoodPacketsAreHandedUp | m4/App/enet/lpc18xx_43xx_emac.c:223-362 | In every such interleaving, as many packets are handed up as are good among those taken, and each of these stands behind the good ones before it, in the buffer it was received into and with the length it was received with |
| EmacRxInterleaving.EngineFillsOnlyQueuedBuffers | m4/App/enet/lpc18xx_43xx_emac.c:143-181 | At every moment of every interleaving the engine cannot write into a buffer that was handed up or is in the driver's hand; the buffer it would write into is the history's next |
| EmacRxInterleaving.IndicesBoundTheInterval | m4/App/enet/lpc18xx_43xx_emac.c:309-322 | At every moment of every interleaving the next index is the get index plus the descriptors in use, modulo N |
| EmacRxInterleaving.RunKeepsFineInv | m4/App/enet/lpc18xx_43xx_emac.c:223-362 | Ownership, buffers, statuses and the end-of-ring flag of all descriptors follow the history in every interleaving |
| EmacRxInterleaving.CallAlone | m4/App/enet/lpc18xx_43xx_emac.c:223-362 | Undisturbed, the accesses of a call add up to one call |
| EmacRxSteps.CallIsInput | m4/App/enet/lpc18xx_43xx_emac.c:223-362 | ... and one call does to ring and buffers what the driver's routine does; what it returns is the oldest packet's buffer and the length that was received into it |
| EmacRx.Emac.LowLevelInput | m4/App/enet/lpc18xx_43xx_emac.c:223-362 | With nothing queued it queues; with the engine still at work it does nothing; a bad packet's buffer is queued again; a good one is handed up and the ring topped up |
| EmacRx.Emac.RxQueue | m4/App/enet/lpc18xx_43xx_emac.c:736-773 | It ends, with the ring full or after a refused allocation, having queued as many as it says |
| EmacRx.Emac.RxQueuePbuf | m4/App/enet/lpc18xx_43xx_emac.c:143-181 | The buffer is queued at the next index with its end-of-ring flag right, then given away |
| EmacRx.Emac.Setup | m4/App/enet/lpc18xx_43xx_emac.c:184-220 | An idle ring, filled as far as allocation goes |
| EmacRx.ErrorsExactly | m4/App/enet/lpc18xx_43xx_emac.c:270-307 | On either interface and in either duplex mode, exactly which combinations of status flags drop a packet |
| EmacRx.RmiiErrors | m4/App/enet/lpc18xx_43xx_emac.c:270-307 | With the RMII interface a packet is dropped exactly on an error summary with one of the masked errors, or a length error on a frame with a length field |
| IpcInterleaving.ReadIsPrefixOfSent | m4/App/ipcHandler_m4.c:146-176 | In every interleaving of single accesses, bytes read are a prefix of bytes accepted, no accepted transfer is cut short, and at most one less than the ring's length are under way |
| IpcInterleaving.RunKeepsInv | m4/App/ipcHandler_m4.c:130-262 | In every interleaving the indices are the lengths of what was published and read, modulo the ring's length, and the unread places hold what was published and not read |
| IpcInterleaving.StepsRefineBoundedQueue | m4/App/ipcHandler_m4.c:130-262 | Every access of either side is nothing, an append where there is room, or the removal of the oldest byte, on a queue of capacity one less than the ring's length |
| IpcInterleaving.UnreadBytesAreSafe | m4/App/ipcHandler_m4.c:166-173 | No access changes a byte that is published and unread |
| IpcInterleaving.ReaderKeepsRoom | m4/App/ipcHandler_m4.c:215-238 | No access of the reader takes away room that the writer has checked |
| IpcInterleaving.RoomIsQueueRoom | m4/App/ipcHandler_m4.c:130-144 | The room check holds exactly if the queue, which is the ring's contents, has that much capacity left |
| IpcInterleaving.MessagesAreAtomic | m4/App/serdes-m4.c:210-233 | When one reservation covers all transfers of a message, none of them is refused in any interleaving, and every message begun is published whole |
| IpcInterleaving.TransferAlone | m4/App/ipcHandler_m4.c:166-173 | Undisturbed, the accesses of a transfer add up to the transmit routine |
| IpcRing.PutAppends | m4/App/ipcHandler_m4.c:146-176 | A transfer that passed the room check goes to the back of the queue, whole |
| IpcRing.IpcBuff.Tx | m4/App/ipcHandler_m4.c:146-176 | All of the message is appended, or, without room for all of it, nothing |
| IpcRing.IpcBuff.TxRoomCheck | m4/App/ipcHandler_m4.c:130-144 | True exactly if the length fits beside what is unread |
| IpcRing.IpcBuff.GetRx | m4/App/ipcHandler_m4.c:215-238 | The oldest byte is removed; an empty ring gives 0 and does not change |
| IpcRing.IpcBuff.DataPending | m4/App/ipcHandler_m4.c:249-262 | True exactly if something is unread |
| SerdesEndToEnd.DeliveredIsPrefixOfSent | m4/App/serdes-m4.c:97-233 | In every interleaving, from an empty ring and a synchronised pump, the messages delivered are a prefix of those the send routine accepted, and all of them once writer and ring are at rest |
| SerdesEndToEnd.PumpFrame | m4/App/serdes-m4.c:97-167 | A frame of any target and data, header bytes among the data included, is delivered as sent |
| SerdesEndToEnd.OneByteDamageIsCaught | m4/App/serdes-m4.c:80-95 | A frame with exactly one byte of data or sum altered is not delivered, and the pump waits for the next header |
| SerdesEndToEnd.PumpBody | m4/App/serdes-m4.c:146-166 | A body of the announced length is delivered if and only if its sum is right |
| SerdesEndToEnd.NoiseIsIgnored | m4/App/serdes-m4.c:102-110 | Bytes without a header byte leave a waiting pump as it is |
| SerdesEndToEnd.LongFramesAreDropped | m4/App/serdes-m4.c:124-129 | A length over 121 sends the pump back to waiting and delivers nothing |
| SerdesEndToEnd.PingIsAnswered | m4/App/ipcMsg.c:58-64 | What goes back for a ping with room for an answer is delivered at the other end as one message of class management, number pong and the next sequence number modulo 8, without data; for any other message nothing goes back |
| SerdesEndToEnd.LimitsMeet | m4/App/serdes-m4.c:44-45 | The data lengths an empty ring admits are exactly those the pump accepts, 0 to 121 |
| Serdes.PackRoundTrip | datax.h:42-64 | Each getter reads back what its macro packed, cut to the field's width |
| Serdes.FieldNumbers | datax.h:31-52 | The fields as quotients and remainders: two bits, three, three and eight |
| Serdes.FrameLayout | m4/App/serdes-m4.c:206-229 | Where on the wire header, target fields, length, data and sum stand, the target's high byte first; a message without data has no sum |
| Serdes.FieldsSurvive | m4/App/serdes-m4.c:206-210 | Class, direction and message number arrive unchanged; the sequence field arrives or-ed with the sender's number |
| Serdes.SequenceArrives | m4/App/serdes-m4.c:206-207 | With the field left free, the sender's number modulo 8 arrives |
| Serdes.Port.Send | m4/App/serdes-m4.c:202-233 | The whole frame is put on the ring if length plus 6 fits, otherwise nothing; the sequence number moves on in both cases |
| Serdes.Port.ProtocolPump | m4/App/serdes-m4.c:97-167 | A byte moves the pump's fields as the protocol step says, and nothing is sent except the answer to a ping that it completes |
| Serdes.Port.ProcessPacket | m4/App/serdes-m4.c:80-95 | A message is handed on exactly if it has no data or its 8-bit sum is right |
| Serdes.Port.Callback | m4/App/ipcMsg.c:54-69 | The message is handed on, a ping is answered if there is room, only a ping moves the sequence number, and the pump is undisturbed |
| Serdes.Port.Receive | m4/App/serdes-m4.c:193-200 | A call drains the ring; the messages handed on are those of the bytes that waited, whatever the callbacks send |
| Serdes.ComputeSum | m4/App/serdes-m4.c:67-78 | The loop computes the 8-bit sum of the data |
| Serdes.SumOfConcat | m4/App/serdes-m4.c:67-78 | The sum of bytes in a row is the sum of the sums modulo 256 |
| Serdes.SumOfChange | m4/App/serdes-m4.c:67-78 | Changing one byte changes the sum by the difference modulo 256, and so always changes it |
| UartWakeup.NoLostWakeup | m4/App/uartHandler.c:129-141 | In every reachable state, bytes in the ring while the task waits mean that the port's notification is pending |
| UartWakeup.WaitingBytesAreHandled | m4/App/mainloop_m4.c:174-191 | From every such state the task alone, in three steps a byte and two more, handles every byte that has arrived and is back at its wait with the ring empty |
| UartWakeup.HandledIsPrefixOfArrived | m4/App/lmsMsg.c:124-126 | The task handles exactly the bytes put in the ring, in order, and never the 0 of an empty ring |
| UartWakeup.ByteInHandIsSafe | m4/App/uartHandler.c:51-56 | However many bytes arrive between the move of the read index and the load, the place it points at is not overwritten |
| UartWakeup.DroppedOnlyWhenFull | m4/App/uartHandler.c:129-141 | An arriving byte is dropped exactly when one less than the ring's length are waiting |
| UartWakeup.EveryByteIsAccountedFor | m4/App/uartHandler.c:129-141 | Over every run, bytes stored and bytes dropped are together the bytes received |
| UartRing.PutByteAppends | m4/App/uartHandler.c:51-56 | On the pre-increment ring a byte goes to the back of the queue, or a full ring stays as it is |
| UartRing.NextTakes | m4/App/uartHandler.c:51-56 | The place the read index moves to holds the oldest byte |
| UartRing.StoreReplacesLast | m4/App/uartHandler.c:55 | A store behind the move of the write index puts its byte last in the queue if the place still waits to be read, and is lost otherwise |
| UartHandler.Port.RxInterrupt | m4/App/uartHandler.c:129-141 | The byte is queued or dropped, and the callback is due exactly if the ring was empty |
| UartHandler.Port.GetRx | m4/App/uartHandler.c:387-394 | The oldest byte is removed; an empty ring gives 0 and does not change |
| UartHandler.Port.DataPending | m4/App/uartHandler.c:405-409 | True exactly if something waits |
| UartHandler.Port.TxInterrupt | m4/App/uartHandler.c:144-160 | As many of the oldest bytes go out as the transmitter takes, or as there are; with none the interrupt turns itself off, otherwise the semaphore is given |
| UartHandler.Port.Txt | m4/App/uartHandler.c:204-258 | Bytes sent followed by bytes queued grow by exactly the accepted prefix, whose length is returned, whatever interrupts fall between its puts; a closed port takes nothing; all is accepted, or at least as much as there was room for; without interrupts, ring, transmitter, semaphore and answer are those of the specification |
| UartHandler.Port.Multiput | m4/App/uartHandler.c:303-359 | The same for a repeated byte |
| UartTxInterleaving.SentAndQueuedAreAccepted | m4/App/uartHandler.c:144-258 | Over every interleaving of calls and interrupts, no call returns more than it was given; bytes sent followed by bytes queued are as many as the calls accepted, and are the accepted prefixes in order if and only if no interrupt reads a place between the move of the write index to it and the store of a different byte |
| UartTxInterleaving.OnlyLateBytesCanStall | m4/App/uartHandler.c:228-251 | Between calls, a ring that holds bytes has the interrupt enabled, unless one was queued after the enabling |
| UartTxStall.CallsStallExactly | m4/App/uartHandler.c:228-251 | Between calls, with nothing stalled, some schedule of interrupts makes a call return with bytes queued and the interrupt off if and only if the ring has no room for all of its bytes when it begins; for every ring length |
| UartTxStall.LateBytesCanStall | m4/App/uartHandler.c:242-251 | The schedule: the ring filled, sent, found empty, and filled again with nothing to enable the interrupt |
| UartTxStall.StallIsForGood | m4/App/uartHandler.c:144-160 | A stalled ring stays as it is under every schedule without another call |
| UartTxStall.CallsSpoilExactly | m4/App/uartHandler.c:55 | Between calls, with nothing stalled, for some data of a given length some schedule sends another byte in place of one of them if and only if the ring has no room for that many bytes when the call begins |
| UartTxStall.FittingCallsNeverStall | m4/App/uartHandler.c:204-258 | Over whole runs: if every call begins with room for all its bytes, all are accepted whole, leave in order, and none is left with the interrupt off |
| UartTxStall.CallAlone | m4/App/uartHandler.c:204-258 | The steps of a call between which no interrupt falls add up to the transmit routine's effect |
| EmergencyStop.StateIsHistory | m4/App/motor.c:95-138 | Over every run of commands and sensor looks, the speed is the last accepted, a direction is stopped exactly if the last look that way was too near, and the output is what these two say |
| EmergencyStop.AcceptedSpeedStays | m4/App/motor.c:95-138 | An accepted speed is the motor's speed through any looks and refused commands after it |
| EmergencyStop.SpeedIsCommand | m4/App/motor.c:95-120 | What the speed routine's contract says is the step of a run |
| EmergencyStop.NeverDrivenIntoStop | m4/App/motor.c:65-120 | The forward pin is high exactly if the last accepted speed is positive and the last look forward was not too near, and likewise backwards; the duty is the amount of that speed |
| EmergencyStop.SweepDecides | m4/App/vldist.c:259-282 | After a sweep a direction is stopped exactly if its sensor is unavailable or reads under the least distance, whatever went before, and the last accepted speed is resumed otherwise |
| EmergencyStop.BoundsExactly | m4/App/motor.c:98-101 | Speed and duty stay within 100 throughout a run if and only if the run never asks for the least int |
| EmergencyStop.LeastIntIsAccepted | m4/App/motor.c:98-101 | Asked for the least int, the motor takes it for its speed and is driven backwards with a negative duty |
| EmergencyStop.LinkSpeedsAreBounded | m4/App/lms_rx.c:57-61 | Speeds that come over the link, having 16 bits, always keep to the bounds |
| EmergencyStop.SweepIsLooks | m4/App/vldist.c:266-281 | The loop of a sweep is two looks of a run |
| EmergencyStop.Sensors.CheckOutput | m4/App/vldist.c:259-282 | The loop looks at each sensor once, in order, and reports what it read |
| EmergencyStop.Sensors.GetChannel | m4/App/vldist.c:240-257 | An unavailable sensor reads 0 |
| Motor.AcceptsExactly | m4/App/motor.c:98-101 | The test passes speeds within 100 and, besides, exactly the least int |
| Motor.Motor.Speed | m4/App/motor.c:95-120 | An accepted speed is stored and the pins and duty show speed and stops; a refused one changes nothing |
| Motor.Motor.RunMotor | m4/App/motor.c:65-86 | The two pins and the duty for each direction |
| Motor.Motor.SeteStop | m4/App/motor.c:123-130 | The given stop bits are set and no other changes; the output is made to follow, the speed kept |
| Motor.Motor.CleareStop | m4/App/motor.c:132-139 | The given stop bits are cleared and no other changes; the output is made to follow, the speed kept |
| Motor.Motor.GeteStop | m4/App/motor.c:141-145 | True exactly if a given stop bit is set; for one direction's bit, exactly if that direction is stopped |
| Motor.StoppedByAnd | m4/App/motor.c:105-107 | The masks in the speed routine's tests pick out the direction's own bit |
| Rotenc.TableIsSignedStep | m4/App/rotenc.c:49 | The table entry is +1 for one place on in the cycle of codes, -1 for one place back, 0 for none and for both bits changed |
| Rotenc.CountingUp | m4/App/rotenc.c:49 | The order of codes that counts up is 00, 10, 11, 01 |
| Rotenc.PositionIsTravel | m4/App/rotenc.c:57-65 | After any sequence of interrupts the position has moved by the sum of their steps, cut to 32 bits |
| Rotenc.TravelIsSignedCount | m4/App/rotenc.c:57-65 | That sum is the number of steps forward less the number of steps back |
| Rotenc.PhaseFixesPosition | m4/App/rotenc.c:57-65 | First and last code fix the movement modulo 4 if and only if the number of two-bit jumps is even |
| Rotenc.ClosedPaths | m4/App/rotenc.c:57-65 | A path back to its first code moves the position by a multiple of 4, or by two more if its jumps are odd in number |
| Rotenc.BackwardsRestores | m4/App/rotenc.c:57-65 | The codes in opposite order undo the movement exactly |
| Rotenc.BackwardsRestores32 | m4/App/rotenc.c:57-65 | So they do on the 32-bit position |
| Rotenc.Encoder.Check | m4/App/rotenc.c:57-65 | One interrupt shifts the code in and adds the table entry for old and new code |

## Left out

- Counters of statistics and the message sequence number are unbounded where the source has uint32_t; all
  stated relations between them hold modulo 2^32.
- Timer commands take effect at once; the source posts them to the timer task.
- The message decoder above the vehicle's receiver is an arbitrary answer per packet, except for the four
  commands of `LmsTyped`; the other message types are straight encodings of the same two integer formats.
- LmsTyped.DecodeSetLed: what the source's loop does for ever is followed for any number of turns, not for ever.
- LmsTyped.Decode: a packet too short for its type's decoder is not decoded; the source reads on into what its buffer held before.
- HostLink.Vehicle.ParsePacket: the host's reading of sensor values and its exceptions on unknown messages; only the trimming of the packet, which the receiver's own state shows, is kept.
- HostLink.SendCmd: the clock is a parameter, and the frame is returned where the source writes it to its port.
- EmacTx.Emac.LowLevelOutput: the polling for free descriptors is followed for one look; in `EmacTxInterleaving` a call that finds too few makes no step, and may look again at any time. The size of the copy's own buffer, the checksum-insertion bits of descriptors, the chaining addresses and the counting semaphore are not kept.
- One output caller at a time, as the Ethernet stack above the driver has; the source reads its fill index before it takes the mutex.
- EmacRx.Emac.LowLevelInput: contents of packets, statistics, and the polling demand; the receive mutex is compiled out. Buffers are named anew at each allocation, and what the network stack does with one handed up is not followed.
- IpcInterleaving.RunKeepsInv: sequentially consistent memory; the source has no barriers.
- `ipcFlush`, which moves the read index that belongs to the other side, and with it the single-writer rule.
- SerdesEndToEnd.LinkRun: both ends run the pump and sender shown; the other processor's own source is not part of this model.
- Serdes.Port.Callback: only its effect on the link.
- UartHandler.Port.Txt: the wait for the semaphore ends at once with the interrupts given for it; no time passes. One caller per port. Its interrupts fall between puts; those that fall inside a put are in `UartTxInterleaving`.
- UartHandler.Port.Multiput: the source repeats the loops of the other routine with a constant byte; here they are shared.
- UartTxInterleaving.SentAndQueuedAreAccepted: C leaves open whether the index or the byte is stored first; the index is taken to be, which is the order that matters.
- `uartForceTx` and `uartFlushKey`, which go past the rings by design.
- UartWakeup.NoLostWakeup: the main loop's other events and periodic reports only delay the next wait, and are not steps.
- Motor.Abs32: the absolute value of the least int, which the C standard leaves undefined, is the least int, as negation in two's complement has it.
- Servo output, LEDs, the console, displays and statistics; audio, CAN, SD card, I2C, USB, the inertial sensors and the compiled-out ultrasonic distance module: wrappers, tables and plumbing with easy members.
- Hardware access, start-up code, PHY registers and the operating system, except as the steps above.
