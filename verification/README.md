# A verified model of the selective-reject file transfer

`rcopy` sends a file to a `server` child over datagrams that a channel may lose, repeat, reorder or
damage. This project models that transfer at the level of the bytes on the wire and proves what it
delivers, in three layers.

* **Programs.** `SenderWindow.Window`, `ReceiverBuffer.Buffer`, `Rcopy.RcopyInfo`, `Server.ServerInfo`,
  `ErrorInjector.PacketManager` and the methods of `Checksum` and `Codec` have the form of the C and C++
  code: ring arrays, fields updated in place, loops over buffers. Each is proved to compute a function of
  the old state. System calls are a finite store of what `read` and `poll` will find, after which nothing
  arrives (`SystemCalls`).
* **Machines.** `SenderMachine` and `ReceiverMachine` are the two state machines as functions of one event
  at a time, an event being the result of one system call. A program object is always in the state its
  machine reaches on the log of events so far (`At`). `SenderSafety` and `ReceiverSafety` hold what every
  run keeps, whatever is delivered, `SenderLaws` and `ReceiverLaws` what each event does, said by what is
  sent, kept and written, and `SenderTermination` and `ReceiverTermination` how long a run can be.
* **Transfer.** `Transfer` puts both machines and the channel together; `TransferSafety` has the invariant
  that spans both ends and every datagram between them, `TransferHandshake` and `TransferReceipt` what the
  child learns from what reaches it, `TransferProgress` and `TransferCompletion` say
  from where and how a transfer can still be completed, `TransferTermination` when rcopy is sure to end, and
  `TransferPrograms` leads back to the programs.

Main results:

* *Delivery.* Whatever the channel does, if `process_file` ends without an error the output is the whole
  input (`EndToEndDelivery`, `SuccessIsDelivery`). This holds for files of any length: when a 32-bit limit
  wraps, packets are held back or turned away, never misplaced. That damage counts as loss is not assumed:
  the checksum arithmetic is proved (`CorruptionDetected`, `CarriedIntactOrRejected`).
* *No deadlock, exactly.* From every reachable state with both ends live and a try left, a loss-free
  continuation that uses nothing sent before - but for the child's response during the handshake, without which
  nothing can (`ResponseNeeded`) - completes the transfer, if and only if 2 + chunks + window size is below 2^32
  (`NeverStuckExactly`).
* *Termination, exactly.* `process_file` is sure to end, however many datagrams are delivered as long as they
  are finitely many, if and only if 2 + chunks + window size is below 2^32 (`TerminatesExactly`); it then meets
  at most 24 * (chunks + deliveries) + 46 events (`EndsWithin`, `ProcessFile`). Both "only if" parts are a fault
  of the code, which has no check for such a file: `upper` wraps, the window never opens again, and a loss-free
  transfer comes to a sender with nothing unacknowledged (`TooLongGetsStuck`) that goes round two states for
  ever (`DrainedSpins`), sends nothing more and never ends whatever is delivered to it (`DrainedNeverEnds`). Such
  a state is reached exactly for those files (`NeverEndsExactly`); with the largest window the command line
  allows, 3 * 2^30 - 1 chunks are enough, and with any window fewer are not (`ShortestEndlessFile`). The child
  always ends, after at most ten events more than deliveries (`ReceiverTermination`, `ProcessClient`).
* *Selective reject.* Whatever reaches the child intact is written or kept from then on, so that chunks which
  have arrived, in any order, never need to be sent again (`ArrivedIsTaken`, `ArrivedIsWritten`). Every gap is
  requested once (`LaterIsKeptAndRequested`, `ControlsOrdered`); every SREJ the child sends names a packet the
  sender has sent, and while that is unacknowledged it is answered with the datagram sent before
  (`RequestsAreAnswered`).
* *Handshake.* The child opens exactly the name rcopy was given (`ChildOpensTheName`); if it cannot, rcopy never
  sends data (`RefusalEndsTransfer`).
* *Byte order.* A packet is the same bytes, and is accepted or not, on hosts of either byte order.

Where the code and its comments differ, the code is modelled: the note at the head of `checksum.c` says
that the routine reads one byte past an odd-length buffer, but the code pairs the last byte with a zero.
The checksum accepts one more form than `make_packet` writes, the other ones' complement zero
(`AcceptedExactly`).

## Model

| member | source | states |
|---|---|---|
| Checksum.InCksum | libcpe464_2_21b/libcpe464/checksum.c:58-86 | for any buffer whose words add up to what a signed 32-bit accumulator holds, on a host of either order, the complement of the ones' complement sum of section 1 of RFC 1071 |
| Checksum.OnesSumIsResidue | libcpe464_2_21b/libcpe464/checksum.c:70-79 | the ones' complement sum is the plain sum modulo 65535, zero only for an all-zero buffer |
| Checksum.TwoFoldsSuffice | libcpe464_2_21b/libcpe464/checksum.c:82-84 | for every sum that fits the accumulator, two carry folds and a truncated complement give the 16-bit answer |
| Checksum.TotalBound | libcpe464_2_21b/libcpe464/checksum.c:70-73 | the largest sum for a given length, reached by a buffer of 0xFF bytes |
| Checksum.AccumulatorFitsExactly | libcpe464_2_21b/libcpe464/checksum.c:70-79 | no buffer of a length overflows the accumulator if and only if the length is at most 65536 bytes, or 65537 on a little-endian host |
| Checksum.TotalUpdate | libcpe464_2_21b/libcpe464/checksum.c:70-79 | changing one byte moves the sum by the weight of its position, also in an odd last place |
| Checksum.ByteOrderIndependent | libcpe464_2_21b/libcpe464/checksum.c:70-79 | section 2(B) of RFC 1071: hosts of opposite byte order get sums with exchanged bytes, for odd lengths too |
| Codec.NetworkOrder | udpCode_spring26_v3/Packet.c:8-22 | a number is the sum of its four bytes with weights 2^24, 2^16, 2^8 and 1, the most significant first, both when written and when read |
| Codec.WriteU32 | udpCode_spring26_v3/Packet.c:8-13 | stores network-order bytes on a host of either order: the four bytes, weighted, are the value; touches nothing else |
| Codec.ReadU32 | udpCode_spring26_v3/Packet.c:16-22 | reads network order on a host of either order: the value is the four bytes, weighted |
| Codec.Encode | udpCode_spring26_v3/Packet.c:25-73 | round trip: every packet, encoded, passes the check and gives back its number, flag and payload |
| Codec.Layout | udpCode_spring26_v3/Packet.c:25-45 | where number, flag and payload stand in a datagram, byte by byte, and that its sum is 0xFFFF |
| Codec.MakePacket | udpCode_spring26_v3/Packet.c:25-45 | fills the caller's buffer with that encoding, the same bytes on hosts of either order, and leaves the rest alone |
| Codec.CheckPacket | udpCode_spring26_v3/Packet.c:48-61 | accepts exactly the intact datagrams, on hosts of either order |
| Codec.GetSeq | udpCode_spring26_v3/Packet.c:64-67 | the number in the header |
| Codec.ChecksumBytesPortable | udpCode_spring26_v3/Packet.c:41-42 | a host's checksum stored in its own order is the same two bytes on every host |
| Codec.CorruptionDetected | udpCode_spring26_v3/Packet.c:48-61 | complementing any one byte of any accepted datagram makes it rejected |
| Codec.ComplementInvertsBits | libcpe464_2_21b/libcpe464/MsgEvents/errorFlipBits.cpp:24 | complementing a byte inverts each of its eight bits |
| Codec.AcceptedExactly | udpCode_spring26_v3/Packet.c:48-61 | the accepted datagrams are those `make_packet` builds and those with the other zero in the checksum field |
| ErrorInjector.PacketManager.Run | libcpe464_2_21b/libcpe464/MsgEvents/errorFlipBits.cpp:9-27 | what each event does to the scratch buffer and what it reports |
| ErrorInjector.PacketManager.RunStandard | libcpe464_2_21b/libcpe464/PacketManager.cpp:100-130 | all standard events run in order on the buffer until one drops; reports a drop, a change or neither, for every list of events |
| ErrorInjector.PacketManager.ProcessEvents | libcpe464_2_21b/libcpe464/PacketManager.cpp:132-189 | after the standard events at most one random event runs; a drop from either list wins |
| ErrorInjector.PacketManager.SendtoErr | libcpe464_2_21b/libcpe464/PacketManager.cpp:346-408 | the caller's buffer is untouched; unless a flip is registered as a standard event the wire carries nothing, the datagram, or the datagram with one byte complemented |
| ErrorInjector.StandardLeavesAlone | libcpe464_2_21b/libcpe464/PacketManager.cpp:100-130 | standard events without a flip among them drop a datagram or leave it alone |
| ErrorInjector.StandardRunsAll | libcpe464_2_21b/libcpe464/PacketManager.cpp:100-130 | each standard event acts on what those before it left, until one drops |
| ErrorInjector.FateExactly | libcpe464_2_21b/libcpe464/PacketManager.cpp:132-189 | what becomes of one send: dropped exactly if an event drops it, one byte complemented exactly if the rate strikes and a flip was picked, intact otherwise |
| ErrorInjector.PacketManager.Init | libcpe464_2_21b/libcpe464/network-hooks.c:181-207 | registers the events; called again, as in the forked child, the lists still hold only statistics, drops and flips as they must |
| ErrorInjector.OutcomesExactly | libcpe464_2_21b/libcpe464/SettingsManager.cpp:328-361 | with the events the programs register, once or several times, a send can be dropped, carried intact, or carried with any one byte complemented, and nothing else |
| ErrorInjector.CarriedIntactOrRejected | libcpe464_2_21b/libcpe464/MsgEvents/errorFlipBits.cpp:21-24 | anything the channel makes of a built packet is either that packet or rejected |
| Ring.NoAlias | udpCode_spring26_v3/Window.c:60 | numbers closer than the table size never share a slot |
| Ring.Stored | udpCode_spring26_v3/Buffer.c:88-102 | storing a packet overwrites no other packet that is kept |
| Ring.Lookup | udpCode_spring26_v3/Window.c:74-85 | the `used` and `seq` guard finds exactly the packets kept; stale slots never match |
| SenderWindow.Window.constructor | udpCode_spring26_v3/Window.c:8-23 | an empty sound window from the given number on |
| SenderWindow.Window.IsOpen | udpCode_spring26_v3/Window.c:35-43 | there is room for one more packet and lower + size has not wrapped, exactly |
| SenderWindow.Window.IsEmpty | udpCode_spring26_v3/Window.c:46-54 | true exactly if no packet is kept |
| SenderWindow.Window.Add | udpCode_spring26_v3/Window.c:57-71 | the ring gains exactly this packet under this number |
| SenderWindow.Window.Find | udpCode_spring26_v3/Window.c:74-85 | finds a packet exactly if it is kept, with the bytes that were sent |
| SenderWindow.Window.Lowest | udpCode_spring26_v3/Window.c:88-105 | the kept packet with the least number; in a sound window the one at the lower edge |
| SenderWindow.Window.Rr | udpCode_spring26_v3/Window.c:108-131 | for any RR value, both loops leave the ring at the window's value after that RR |
| SenderWindow.RrExactly | udpCode_spring26_v3/Window.c:108-131 | the lower edge becomes max(lower, min(value, current)), and exactly the packets from there on stay, unchanged |
| SenderWindow.AddSound | udpCode_spring26_v3/Window.c:57-71 | adding through an open window keeps exactly the numbers from lower to current |
| SenderWindow.OpenExactly | udpCode_spring26_v3/Window.c:35-43 | the 32-bit test agrees with the unbounded one if and only if lower + size is below 2^32 |
| ReceiverBuffer.Buffer.constructor | udpCode_spring26_v3/Buffer.c:9-26 | an empty sound buffer that expects the given number |
| ReceiverBuffer.Buffer.InWindow | udpCode_spring26_v3/Buffer.c:44-52 | the number is less than a window from the expected one on and the limit has not wrapped, exactly |
| ReceiverBuffer.Buffer.Has | udpCode_spring26_v3/Buffer.c:55-66 | true exactly for packets kept |
| ReceiverBuffer.Buffer.HasLater | udpCode_spring26_v3/Buffer.c:69-85 | the scan finds a packet beyond the expected one exactly if one is kept |
| ReceiverBuffer.Buffer.Save | udpCode_spring26_v3/Buffer.c:88-102 | a packet in the window is kept, a packet already kept is left as it is, and no other is lost |
| ReceiverBuffer.Buffer.WriteReady | udpCode_spring26_v3/Buffer.c:105-122 | ends, at the value of the drain |
| ReceiverBuffer.DrainsMaximalRun | udpCode_spring26_v3/Buffer.c:105-122 | the drain writes exactly the longest unbroken run from the expected packet, in order, and keeps exactly the others |
| ReceiverBuffer.InWindowExactly | udpCode_spring26_v3/Buffer.c:44-52 | the window test is the unbounded one if and only if expected + size is below 2^32; past that it accepts nothing |
| ReceiverBuffer.Buffer.NeedReject | udpCode_spring26_v3/Buffer.c:125-136 | asks for a reject exactly if the latch does not name the expected packet, and then sets it |
| ReceiverBuffer.Buffer.ClearReject | udpCode_spring26_v3/Buffer.c:139-145 | the latch is cleared exactly for the packet it names |
| SenderSafety.RunKeepsInv | udpCode_spring26_v3/rcopy.c:35-252 | every run of the sender, whatever it receives, keeps the window equal to the unacknowledged chunks, submits only genuine datagrams, and sends EOF only when all is acknowledged |
| SenderSafety.RetransmissionsIdentical | udpCode_spring26_v3/rcopy.c:443-448 | any two data datagrams ever submitted under one number are the same bytes |
| SenderSafety.RejectAnsweredExactly | udpCode_spring26_v3/rcopy.c:423-440 | any SREJ datagram is answered with the datagram first sent if it holds an unacknowledged number, and with nothing otherwise |
| SenderSafety.NothingToResendIfWrapped | udpCode_spring26_v3/rcopy.c:178-194 | after a timeout `window_lowest` finds nothing exactly if the window is empty, and that exactly if the sender is drained with a wrapped limit before the end of the file |
| SenderSafety.StepStaysClosed | udpCode_spring26_v3/rcopy.c:137-175 | once the limit has wrapped before the end of the file, no event lets the sender end without an error |
| SenderSafety.DrainedSpins | udpCode_spring26_v3/rcopy.c:178-194 | in that state with nothing unacknowledged, any number of timeouts leads round and round through the same state |
| SenderSafety.DrainedNeverEnds | udpCode_spring26_v3/rcopy.c:129-208 | from that state no run, whatever is delivered in it, ends or sends anything |
| SenderLaws.FilenameIsSent | udpCode_spring26_v3/rcopy.c:330-338 | each of at most ten tries sends the filename datagram and nothing else; then rcopy gives up |
| SenderLaws.ResponseDecides | udpCode_spring26_v3/rcopy.c:339-361 | a response of 0 opens the window with number 2 first, any other ends rcopy at that event with an error, anything else costs a try |
| SenderLaws.ChunkIsSent | udpCode_spring26_v3/rcopy.c:136-162 | what an open window sends for each result of `read`, field by field |
| SenderLaws.NothingToSend | udpCode_spring26_v3/rcopy.c:169-174 | when nothing can be sent, the end of the file is announced exactly if all is acknowledged |
| SenderLaws.ControlActs | udpCode_spring26_v3/rcopy.c:388-440 | exactly what a datagram found by a poll does to the window and to what is sent |
| SenderLaws.WaitCountsControls | udpCode_spring26_v3/rcopy.c:380-405 | a wait counts exactly the intact RR and SREJ datagrams |
| SenderLaws.WaitDecides | udpCode_spring26_v3/rcopy.c:183-207 | a wait with a control restores the retries; otherwise the lowest chunk is sent again, or at the tenth retry rcopy ends with an error |
| SenderLaws.EndIsAnnounced | udpCode_spring26_v3/rcopy.c:211-252 | EOF under the number after the last chunk at most ten times; its acknowledgement is answered with DONE under the number after that, and nothing else is |
| SenderLaws.RetriesAreQuietWaits | udpCode_spring26_v3/rcopy.c:183-196 | over every run the retry count is the number of waits in a row in which no intact RR or SREJ arrived |
| SenderLaws.GivesUpAtTenthQuietWait | udpCode_spring26_v3/rcopy.c:196-204 | a wait gives up exactly if it is the tenth of those |
| SenderTermination.StepLowersRank | udpCode_spring26_v3/rcopy.c:42-73 | every event lowers a rank made of unread chunks, retries left and the state; a delivery raises it by less than 24 |
| SenderTermination.EndsWithin | udpCode_spring26_v3/rcopy.c:42-73 | for a file that can be numbered every run has at most 24 * (chunks + deliveries) + 46 events |
| SenderTermination.ComesToAnEnd | udpCode_spring26_v3/rcopy.c:42-73 | for such a file every state has a run to DONE in which nothing is delivered |
| ReceiverSafety.RunKeepsInv | udpCode_spring26_v3/server.c:177-302 | every run of the child, whatever it receives, leaves nothing writable in the buffer between packets, keeps the latch exact and its controls in order |
| ReceiverSafety.ControlsOrdered | udpCode_spring26_v3/server.c:277-294 | RR values never decrease and SREJ values strictly increase, over every run |
| ReceiverSafety.LatchNamesGap | udpCode_spring26_v3/server.c:277-294 | the latch is set exactly while a later packet waits, names the expected one, and is set exactly if an SREJ for it was sent |
| ReceiverLaws.ForkedExactly | udpCode_spring26_v3/server.c:151-174 | the one response is 0 exactly if the output file could be opened, and the child goes on exactly if its buffer could be made too |
| ReceiverLaws.CannotOpenRefuses | udpCode_spring26_v3/server.c:161-166 | a child that cannot open its output file is done, and over every run submits nothing but its refusal |
| ReceiverLaws.OldOrFarIsAcknowledged | udpCode_spring26_v3/server.c:265-275 | a packet below the expected one or outside the window is not kept and is answered with exactly one RR |
| ReceiverLaws.LaterIsKeptAndRequested | udpCode_spring26_v3/server.c:277-294 | a packet in the window beyond the expected one is kept, once, and the gap before it is requested with exactly one SREJ |
| ReceiverLaws.ExpectedIsWritten | udpCode_spring26_v3/server.c:277-290 | the expected packet and all that waited for it are written, acknowledged with exactly one RR, and the next gap, if there is one, is requested |
| ReceiverLaws.EofIsAcknowledged | udpCode_spring26_v3/server.c:205-209 | EOF is answered with one acknowledgement, which is remembered |
| ReceiverLaws.ReceivingIgnoresTheRest | udpCode_spring26_v3/server.c:183-211 | anything damaged or of another kind leaves a receiving child as it was; silence ends it |
| ReceiverLaws.WaitingAnswers | udpCode_spring26_v3/server.c:215-256 | what the wait for DONE does at a silence, at DONE, at a repeated EOF and at anything else |
| ReceiverLaws.GivesUpAtTenthSilence | udpCode_spring26_v3/server.c:221-234 | over every run that wait is given up exactly at its tenth silence |
| ReceiverLaws.ControlsNumbered | udpCode_spring26_v3/server.c:304-371 | over every run the child numbers its datagrams from 1 on without a gap and repeats only its acknowledgement of the end |
| ReceiverLaws.LatchAsksOnce | udpCode_spring26_v3/Buffer.c:125-145 | a noted reject is not asked for again until the expected number moves or the packet it names is cleared |
| ReceiverTermination.StepLowersRank | udpCode_spring26_v3/server.c:177-256 | every timeout lowers the child's rank, and no delivery raises it |
| ReceiverTermination.EndsWithin | udpCode_spring26_v3/server.c:97-124 | every run of the child has at most ten events more than deliveries |
| Rcopy.RcopyInfo.constructor | udpCode_spring26_v3/rcopy.c:96-112 | starts in the machine's initial state |
| Rcopy.RcopyInfo.HandleRr | udpCode_spring26_v3/rcopy.c:409-420 | an RR moves the window as the machine's control step does |
| Rcopy.RcopyInfo.HandleReject | udpCode_spring26_v3/rcopy.c:423-440 | an SREJ resends as the machine's control step does |
| Rcopy.RcopyInfo.ProcessControls | udpCode_spring26_v3/rcopy.c:372-406 | ends, having handled every datagram found in order and counted the control packets |
| Rcopy.RcopyInfo.SendDataState | udpCode_spring26_v3/rcopy.c:129-175 | ends where the machine does, having read and sent while the window was open, or having met a failing read |
| Rcopy.RcopyInfo.WaitOnAckState | udpCode_spring26_v3/rcopy.c:178-208 | ends where the machine does; it goes back to sending without a control packet only for a file too long to number |
| Rcopy.RcopyInfo.SendEofState | udpCode_spring26_v3/rcopy.c:211-252 | ends at DONE as the machine does, after at most ten tries |
| Rcopy.RcopyInfo.FilenameState | udpCode_spring26_v3/rcopy.c:115-126 | ends where the machine does, with a window exactly if the server agreed |
| Rcopy.RcopyInfo.TryFilename | udpCode_spring26_v3/rcopy.c:333-364 | one try of the handshake follows the machine |
| Rcopy.RcopyInfo.ProcessFile | udpCode_spring26_v3/rcopy.c:35-93 | ends, whatever is delivered, in the state the machine reaches on what was met, after a bounded number of events, and returns 0 exactly without an error |
| Server.ServerInfo.FilenameState | udpCode_spring26_v3/server.c:151-174 | follows the forked machine for every first datagram: sizes and name read, a file that cannot be opened refused, a failing `calloc` the end |
| Server.ServerInfo.SendRr | udpCode_spring26_v3/server.c:322-336 | submits an RR for the expected packet under the next control number |
| Server.ServerInfo.SendReject | udpCode_spring26_v3/server.c:339-353 | submits an SREJ for the expected packet under the next control number |
| Server.ServerInfo.SendEofAck | udpCode_spring26_v3/server.c:356-371 | submits the acknowledgement and remembers its bytes |
| Server.ServerInfo.HandleDataPacket | udpCode_spring26_v3/server.c:259-295 | follows the machine for every number and payload |
| Server.ServerInfo.RecvDataState | udpCode_spring26_v3/server.c:177-212 | ends where the machine does |
| Server.ServerInfo.WaitOnDoneState | udpCode_spring26_v3/server.c:215-256 | ends where the machine does |
| Server.ServerInfo.ProcessClient | udpCode_spring26_v3/server.c:82-137 | ends, whatever is delivered, in the state the machine reaches on what was met, after at most ten events more than there were datagrams and timeouts in store |
| TransferSafety.AnnouncesSize | udpCode_spring26_v3/server.c:153-157 | the window size arrives through the filename payload |
| TransferSafety.ChannelCarries | libcpe464_2_21b/libcpe464/PacketManager.cpp:346-408 | whatever the error injector makes of a submitted datagram may be found by any poll at the other end, and every poll may time out |
| TransferHandshake.FilenameLayout | udpCode_spring26_v3/rcopy.c:326-331 | window size, buffer size, name and terminating zero stand at their places in the filename datagram |
| TransferHandshake.FilenameIsRead | udpCode_spring26_v3/server.c:153-159 | the child reads both sizes and the name, for every name without a zero byte, out of its zeroed copy |
| TransferHandshake.ChildOpensTheName | udpCode_spring26_v3/server.c:159-159 | in every run the child opens exactly the name rcopy was given |
| TransferHandshake.RefusalEndsTransfer | udpCode_spring26_v3/rcopy.c:347-356 | if the output file cannot be opened rcopy never sends data in any run, and the response ends it with an error at that event |
| TransferReceipt.TakenStays | udpCode_spring26_v3/server.c:259-295 | no event makes the child lose a packet it has written or kept |
| TransferReceipt.ArrivedIsTaken | udpCode_spring26_v3/server.c:259-295 | every data packet that reaches the child intact is written or kept from then on |
| TransferReceipt.ArrivedIsWritten | udpCode_spring26_v3/server.c:259-295 | once all chunks below a number have arrived, in any order, all are written, without any retransmission |
| TransferSafety.StepKeepsInv | udpCode_spring26_v3/server.c:177-302 | every step of either end under the channel keeps the invariant that spans both |
| TransferSafety.WindowsOverlap | udpCode_spring26_v3/server.c:271-275 | lower <= expected <= current <= lower + size, both ends use one window size, every RR and SREJ is at most expected and every data number below current; if the child exited for want of memory nothing is acknowledged |
| TransferSafety.RequestsAreAnswered | udpCode_spring26_v3/rcopy.c:423-440 | every SREJ the child ever sent is below current, and at or above lower it is answered with the datagram of that chunk, sent before |
| TransferSafety.HandshakeAgrees | udpCode_spring26_v3/rcopy.c:117-121 | whenever the handshake comes to its end, both ends have the window size asked for and number from 2, unless the child has exited for want of memory, and nothing is kept or written |
| TransferSafety.GenuineDataFits | udpCode_spring26_v3/Buffer.c:44-52 | a packet the sender sent is in the receive window if and only if that window has not wrapped |
| TransferSafety.OutputIsPrefix | udpCode_spring26_v3/Buffer.c:105-122 | at every reachable state the output is exactly the chunks below the expected one |
| TransferSafety.EofMeansComplete | udpCode_spring26_v3/server.c:205-209 | whenever the child has acknowledged EOF its output is the whole file |
| TransferSafety.OutputFinal | udpCode_spring26_v3/server.c:215-256 | after that the output never changes |
| TransferSafety.EndToEndDelivery | udpCode_spring26_v3/rcopy.c:169-252 | if the sender ended without an error, or has begun to send EOF, the output is the whole file |
| TransferPrograms.SuccessIsDelivery | udpCode_spring26_v3/rcopy.c:75-92 | if the log of rcopy in a transfer is one on which it returns 0, the child forked for its filename, run on its own log, has written the whole file |
| TransferPrograms.SenderFollowsItsLog | udpCode_spring26_v3/rcopy.c:42-73 | in every transfer the sender is where its own log leads it |
| TransferPrograms.ChildFollowsItsLog | udpCode_spring26_v3/server.c:97-124 | in every transfer the child is where its own log leads it |
| TransferPrograms.ChildSinceFork | udpCode_spring26_v3/server.c:54-78 | a child is there only because it was forked for the filename datagram, and is where its log leads it from the fork |
| TransferProgress.TimeoutMakesProgress | udpCode_spring26_v3/rcopy.c:189-207 | with a retry left, the timeout resend and its answer strictly raise the lower edge |
| TransferProgress.ChildAnswers | udpCode_spring26_v3/server.c:259-283 | a packet at or below the expected one is answered with an RR beyond it |
| TransferProgress.Handshake | udpCode_spring26_v3/rcopy.c:315-361 | the handshake can be completed: by a fork and its response, or if there is a child already by the one response that child has submitted, which must still arrive |
| TransferProgress.Teardown | udpCode_spring26_v3/rcopy.c:211-242 | EOF, its acknowledgement and DONE end both sides |
| TransferCompletion.NothingWraps | udpCode_spring26_v3/Window.c:130 | below the bound no 32-bit sum wraps in any run |
| TransferCompletion.AlwaysCompletable | udpCode_spring26_v3/rcopy.c:178-252 | below the bound every reachable live state, also during the handshake, has a loss-free continuation that delivers the file and ends both sides |
| TransferCompletion.ResponseNeeded | udpCode_spring26_v3/server.c:151-174 | while the sender waits for the response and there is a child, nothing completes the transfer without the response submitted already: the child never repeats it |
| TransferCompletion.TooLongGetsStuck | udpCode_spring26_v3/Window.c:35-43 | at or above the bound some loss-free run reaches a live state, with everything sent so far acknowledged and the limit wrapped, from which nothing completes |
| TransferCompletion.NeverStuckExactly | udpCode_spring26_v3/Window.c:35-43 | no reachable live state is stuck if and only if 2 + chunks + window size is below 2^32 |
| TransferTermination.TerminatesExactly | udpCode_spring26_v3/rcopy.c:42-73 | process_file is sure to end after finitely many deliveries if and only if 2 + chunks + window size is below 2^32 |
| TransferTermination.NeverEndsExactly | udpCode_spring26_v3/rcopy.c:137-194 | a drained sender whose limit has wrapped, and any state from which rcopy can never end, is reached in some transfer if and only if the file is that long |
| TransferTermination.ShortestEndlessFile | udpCode_spring26_v3/Window.c:35-43 | 3 * 2^30 - 1 one-byte chunks with the largest window keep rcopy busy for ever; no configuration does with fewer chunks |

## Left out

- Rcopy.RcopyInfo.ProcessFile: requires 2 + chunks + window size below 2^32, since for exactly the other files the loop can go on for ever (`TerminatesExactly`); the methods of the single states and the delivery theorems do not have this bound.
- Several children for one repeated filename request, and the peer address that `safeRecvfrom` overwrites: a transfer has one child and fixed addresses.
- A name that fills the largest datagram without a zero byte would be read beyond the packet; here it ends there. rcopy sends at most 100 bytes and a zero.
- Whether the output file can be opened is left open for every name, also for the empty one, which `open` always refuses.
- ErrorInjector.PacketManager.SendtoErr: null buffers and the error returns of system calls are not modelled.
- Checksum.InCksum: requires that the words add up to less than 2^31, since the signed accumulator overflows past that, which is undefined; every buffer of up to 65536 bytes qualifies (`AccumulatorFitsExactly`), and no packet is longer than 1407.
- Sockets, `poll`, real time and sleeping: a poll finds a datagram or nothing, in any order the channel likes.
- `write` is a full append; short writes and write errors are not modelled, nor are exits on failed system calls.
- Random numbers and error rates: only the possible outcomes of one send are kept.
- The `process_server` loop beyond its test for a filename packet, command lines, messages, signals, exit codes other than success, debug output and statistics.
- `PDU.c`, the sketches under `example/`, build files and scripts: nothing here depends on them.
