# A verified model of the probe firmware

This project models the protocol and data-structure code of a debug probe (a port of the Black
Magic Debug firmware with libopencm3 and stm32flash) in Dafny and proves what that code is for.
Code that updates state is written as classes and methods over the source's own fields, buffers
and loops; each is tied to a function or predicate that says what it means, and the main results
are theorems about those. Where the code talks to something that runs beside it - a USB host, a
debugged target, a bootloader, a DMA engine, a TAP - the other side is modelled too, and the
results are about every run of both. A run is given by an agenda (what the other side does before
each access) and by which accesses fail; the methods are proved for all agendas.

* **USB** - `UsbControl`, `UsbTransfer`, `UsbDevice`: the endpoint 0 state machine, a host that
  follows section 8.5.3 of the USB 2.0 specification, and whole control transfers. `UsbStandard`:
  the configuration descriptor and SET_ADDRESS, `UsbBuffer`: the memory it takes. `UsbFifo`: the
  receive FIFO all endpoints share. `MscProtocol`, `MscLayout`, `UsbMassStorage`: bulk-only
  transport for the commands that do not write.
* **RTT** - `RttHash`, `RttSearch`, `RttFind`: finding the control block. `RttRing`, `RttUp`,
  `RttDown`: the two rings in target memory, polled while the target keeps running.
* **CRC** - `Crc32` (shift register, linearity, error detection), `Crc32Table`, `Crc32Generic`
  (table driven and word-wise versions), `Stm32Crc` (the word-reversed version), `CrcExamples`.
* **Wire protocols** - `HexUtils`, `GdbPacket`, `GdbResync`, `GdbLink`, `GdbReceiver`,
  `GdbExamples`: GDB framing. `Jtag`, `JtagTap`: an IEEE 1149.1 TAP and the probe's sequences.
  `WordBits`, `Swd`, `SwdTap`: SWD. `TraceSwo`, `TracePackets`: ITM decoding. `Bootloader`,
  `XorDigits`, `Stm32Link`, `Stm32Flash`, `Stm32Erase`: the STM32 bootloader (AN3155) and the host
  commands that write, start and erase.
* **Ethernet** - `EthMemory`, `EthRing`, `EthQueue`, `EthOwners`, `EthInit`, `EthMac`, `EthRx`:
  descriptor rings in raw memory, shared with the DMA engine.

`dafny verify dfyconfig.toml` checks the whole project.

Where the code and what is said of it differ, the model follows the code, and the difference is
a theorem: an identifier with less than two bytes of the searched RAM behind it is missed
(`RttFind.FoundUnlessLast`); READ(6) ignores the high bits of its address and takes length zero
literally (`MscProtocol.ReadsMeetStandard`, `UsbMassStorage.StandardHostInStep`); the total length
of a configuration descriptor is cut to 16 bits (`UsbStandard.TotalLengthTells`); a cut behind an
escape character or inside the checksum costs the next GDB packet (`GdbResync.FrameBehindCut`);
characters fetched for the target are lost when a write to it fails (`RttDown.DownChannel.Session`,
`RttDown.FirstIsLost`); an erase range whose end wraps around passes the limit check
(`Stm32Erase.DroppedMeans`) and is then never reported as erased (`Stm32Erase.Eraser.EraseMemory`);
batches of up to 511 pages do not suit the one-byte erase command (`Bootloader.RegularTaken`);
INQUIRY and MODE SENSE report a residue that is none (`MscProtocol.ResidueMeetsStandard`), and
INQUIRY an additional length one too large (`MscLayout.InquiryLayout`); an
Ethernet frame in several receive buffers is never returned right (`EthRx.SpreadFrame`); enabling
the checksum offload races with the DMA unless the queue is empty
(`EthMac.Transmitter.EnableChecksumOffload`); a channel count that wraps around is the only bad
one (`RttFind.JudgeClamps`); the payload of an ITM packet that software did not write is read as
headers (`TracePackets.DecodedIffHarmless`, `TracePackets.HeaderPrinted`); a configuration
descriptor is not compared with its buffer (`UsbBuffer.BuiltInside`); reads of a USB packet that
break a word lose bytes (`UsbFifo.GaplessIffAligned`); the comment above return_idle in jtagtap.h
names a TMS sequence with two ones, the code sends one, which is what `Jtag.ScanEndsIdle` needs.

## Model

| member | source | states |
|---|---|---|
| UsbControl.StepKeepsInvariant | libopencm3/lib/usb/usb_control.c:238-331 | every SETUP, OUT or IN keeps: DATA_OUT means more than one packet is missing, LAST_DATA_OUT at most one, received data fits the buffer |
| UsbControl.OutCollects | libopencm3/lib/usb/usb_control.c:123-141 | an OUT that stays in the data stage appends exactly the wanted part of its packet |
| UsbControl.HandlersAsked | libopencm3/lib/usb/usb_control.c:271-287 | handlers see received data only in the last OUT, and then wLength bytes of it |
| UsbControl.RunAgrees | libopencm3/lib/usb/usb_control.c:214-300 | over every interleaving of events the buffer equals the OUT packets heard since the SETUP, cut to size |
| UsbControl.HandlersSeeWholeData | libopencm3/lib/usb/usb_control.c:256-300 | over every interleaving, when a handler runs it sees exactly the wLength bytes the host sent, in order |
| UsbControl.AddressOnlyAfterStatus | libopencm3/lib/usb/usb_control.c:314-326 | the address changes only when the status packet of a SET_ADDRESS to the device itself was taken |
| UsbControl.SetupStartsAfresh | libopencm3/lib/usb/usb_control.c:238-254 | whatever transfer a SETUP aborts, in whatever phase, over every later interleaving the device does the same; only its address lives on |
| UsbControl.SetupRefused | libopencm3/lib/usb/usb_control.c:207-211 | a SETUP no handler takes is answered by a stall and nothing else, whatever went before |
| UsbControl.StallsExactly | libopencm3/lib/usb/usb_control.c:48-52 | for every event the device stalls if and only if the request is refused or too large, the packet short, or the token unexpected; then it is idle under the same address |
| UsbTransfer.StopTogether | libopencm3/lib/usb/usb_control.c:63-71 | the host of section 8.5.3.2 stops at a packet if and only if the device enters LAST_DATA_IN with it |
| UsbTransfer.ChunkInStep | libopencm3/lib/usb/usb_control.c:94-121 | every further packet, the empty one included, keeps host and device in step |
| UsbTransfer.ReadStageDelivers | libopencm3/lib/usb/usb_control.c:94-121 | the data stage ends and the host has exactly the reply |
| UsbTransfer.ControlReadDelivers | libopencm3/lib/usb/usb_control.c:189-331 | for every reply up to wLength and every packet size a control read from any state delivers the reply, runs the callback once and ends idle |
| UsbTransfer.ControlReadRefused | libopencm3/lib/usb/usb_control.c:207-211 | a control read no handler takes ends in a stall |
| UsbTransfer.WriteStageDelivers | libopencm3/lib/usb/usb_control.c:256-300 | packets of a data stage arrive as sent |
| UsbTransfer.ControlWriteDelivers | libopencm3/lib/usb/usb_control.c:189-331 | a control write that fits hands the handlers the payload once and ends idle; one that does not fit is refused |
| UsbTransfer.ControlNoData | libopencm3/lib/usb/usb_control.c:189-212 | a request without data is answered by an empty status packet and completed once |
| UsbDevice.Device.SendChunk | libopencm3/lib/usb/usb_control.c:94-121 | the method on ctrl_buf and ctrl_len does what the chunk function of the machine says |
| UsbDevice.Device.RecvChunk | libopencm3/lib/usb/usb_control.c:123-141 | appends to the control buffer in place; short packets stall |
| UsbDevice.Device.SetupRead | libopencm3/lib/usb/usb_control.c:189-212 | refines the read set-up of the machine |
| UsbDevice.Device.SetupWrite | libopencm3/lib/usb/usb_control.c:214-233 | refines the write set-up of the machine |
| UsbDevice.Device.ControlSetup | libopencm3/lib/usb/usb_control.c:238-254 | refines the SETUP event from every valid state |
| UsbDevice.Device.ControlOut | libopencm3/lib/usb/usb_control.c:256-300 | refines the OUT event from every valid state |
| UsbDevice.Device.ControlIn | libopencm3/lib/usb/usb_control.c:302-331 | refines the IN event from every valid state |
| UsbDevice.Handlers.Register | libopencm3/lib/usb/usb_control.c:74-92 | takes the first free of four slots, or fails when there is none |
| UsbDevice.Handlers.Dispatch | libopencm3/lib/usb/usb_control.c:144-186 | the first registered handler responsible for the request that does not pass it on decides |
| UsbStandard.BuildConfigDescriptor | libopencm3/lib/usb/usb_standard.c:73-145 | for every descriptor tree and every length the buffer has room for, the buffer receives the first bytes of the full preorder serialisation, with the untruncated total in it |
| UsbBuffer.BuiltInside | libopencm3/lib/usb/usb_standard.c:80-142 | the copies and the total stay inside a buffer, whatever memory holds, if and only if the descriptor or the length asked for fits it |
| UsbBuffer.CopiedIsFront | libopencm3/lib/usb/usb_standard.c:80-138 | all truncated copies together are one copy of the front of the whole |
| UsbStandard.Copy | libopencm3/lib/usb/usb_standard.c:80-84 | one truncated copy keeps the written part a prefix of the whole |
| UsbStandard.TotalLengthTells | libopencm3/lib/usb/usb_standard.c:140-142 | wTotalLength is the length of the whole if and only if that fits 16 bits |
| UsbStandard.Enumeration | libopencm3/lib/usb/usb_standard.c:212-301 | a host that reads the head, takes the total from it and reads again gets the whole descriptor |
| UsbStandard.SetAddressTransfer | libopencm3/lib/usb/usb_standard.c:304-328 | a valid address comes into force after the status packet, any other is refused |
| UsbFifo.Driver.ReadPacket | libopencm3/lib/usb/usb_dwc_common.c:242-299 | pops the words of min(len, rxbcnt) bytes, stores these bytes, and takes whole words off rxbcnt without underflow |
| UsbFifo.UnpackAt | libopencm3/lib/usb/usb_dwc_common.c:276-296 | byte 4i + j of a packet is byte j of word i |
| UsbFifo.Driver.Discard | libopencm3/lib/usb/usb_dwc_common.c:405-411 | pops the words of what is left |
| UsbFifo.Driver.Poll | libopencm3/lib/usb/usb_dwc_common.c:396-412 | whatever a callback reads, exactly the words of the packet leave the FIFO |
| UsbFifo.AlignedReadsJoin | libopencm3/lib/usb/usb_dwc_common.c:242-299 | reads that respect words bring the packet out without gaps |
| UsbFifo.GaplessIffAligned | libopencm3/lib/usb/usb_dwc_common.c:284-296 | reads are without gaps if and only if none but the last that finds anything breaks a word |
| MscProtocol.ReadsMeetStandard | libopencm3/lib/usb/usb_msc.c:260-342 | the blocks read are those SBC asks for if and only if READ(6) has no high address bits and no zero length |
| MscProtocol.HostInStep | libopencm3/lib/usb/usb_msc.c:680-718 | how many bytes a host must ask for to take all data packets and leave the status |
| MscProtocol.ResidueMeetsStandard | libopencm3/lib/usb/usb_msc.c:400-498 | for every transfer length the host may send, the residue in the status is that length less the reply if and only if the length is 72 for a standard INQUIRY, 8 for MODE SENSE, and the length of the reply for every other command |
| MscProtocol.ExactHostToldTruth | libopencm3/lib/usb/usb_msc.c:400-498 | a host that asked for exactly the reply finds residue 0 if and only if the command is neither MODE SENSE nor a standard INQUIRY |
| MscProtocol.HostToldTruth | libopencm3/lib/usb/usb_msc.c:400-498 | for every transfer length, a host takes all data packets, leaves the status and finds the true residue there if and only if that length is the honest one and, for INQUIRY, a short packet ends the reply |
| MscProtocol.SenseExplainsFailure | libopencm3/lib/usb/usb_msc.c:381-398 | from a clean state the status fails if and only if a sense request behind it reports an invalid command |
| MscLayout.StatusLayout | libopencm3/lib/usb/usb_msc.c:486-491 | signature, tag bytes, residue and verdict are in the bytes section 5.2 of the bulk-only transport gives them |
| MscLayout.Read10Layout | libopencm3/lib/usb/usb_msc.c:322-342 | every byte of the reply to READ(10) is the byte of the block the big-endian address in the wrapper names |
| MscLayout.Read6Layout | libopencm3/lib/usb/usb_msc.c:260-280 | the same for READ(6) |
| MscLayout.CallsLayout | libopencm3/lib/usb/usb_msc.c:614-707 | a read takes the lock, reads each of its blocks once in ascending order and gives the lock back; no other command calls the storage |
| MscLayout.CapacityLayout | libopencm3/lib/usb/usb_msc.c:344-362 | the reply reads, most significant byte first, as the last block and 512 |
| MscLayout.InquiryLayout | libopencm3/lib/usb/usb_msc.c:439-478 | each text is in its place, cut or filled with blanks; the additional length is one more than the bytes behind it |
| MscLayout.SenseLayout | libopencm3/lib/usb/usb_msc.c:381-398 | sense key, code and qualifier are in bytes 2, 12 and 13, cut to the allocation length |
| MscLayout.SenseKept | libopencm3/lib/usb/usb_msc.c:237-258 | a known command clears the sense, an unknown one sets 5/20/0, and the three that do neither leave it |
| UsbMassStorage.MassStorage.constructor | libopencm3/lib/usb/usb_msc.c:802-843 | the initial state is the idle state |
| UsbMassStorage.MassStorage.ScsiRead6 | libopencm3/lib/usb/usb_msc.c:260-280 | block address, count and byte count of READ(6) |
| UsbMassStorage.MassStorage.ScsiRead10 | libopencm3/lib/usb/usb_msc.c:322-342 | block address, count and byte count of READ(10) |
| UsbMassStorage.MassStorage.ScsiInquiry | libopencm3/lib/usb/usb_msc.c:439-478 | the reply is the standard data with the three strings cut or filled up to their fields |
| UsbMassStorage.MassStorage.ScsiRequestSense | libopencm3/lib/usb/usb_msc.c:381-398 | the reply is the sense of the last command, over what the buffer held |
| UsbMassStorage.MassStorage.ScsiReadCapacity | libopencm3/lib/usb/usb_msc.c:344-362 | the reply is the last block and the block size, most significant byte first |
| UsbMassStorage.MassStorage.ScsiCommand | libopencm3/lib/usb/usb_msc.c:480-540 | sets up reply, status, sense and block buffer of a command; run again for the status it changes neither reply nor status |
| UsbMassStorage.MassStorage.SendData | libopencm3/lib/usb/usb_msc.c:613-635 | the next packet holds the next bytes of the reply, and a block is read exactly when a packet begins one |
| UsbMassStorage.MassStorage.RxCb | libopencm3/lib/usb/usb_msc.c:545-667 | a command in one packet is answered by the first data packet, or by the status if there is no data; a command that reads never writes to the storage |
| UsbMassStorage.MassStorage.TxCb | libopencm3/lib/usb/usb_msc.c:670-732 | each packet taken brings the next data packet, then the status, then the idle state |
| UsbMassStorage.MassStorage.Transaction | libopencm3/lib/usb/usb_msc.c:545-732 | a command yields its reply in full packets, then one status with the signature, the four tag bytes of its wrapper and the right verdict, and the machine is idle; the driver sees lock, each block once in order, unlock; the block buffer holds the last block or the reply |
| UsbMassStorage.MassStorage.Session | libopencm3/lib/usb/usb_msc.c:545-732 | for every sequence of commands the wire carries exactly the data and status of each, every status with the tag of its own wrapper, as the sense and the buffer left by those before it determine them |
| UsbMassStorage.ReadInStep | libopencm3/lib/usb/usb_msc.c:670-732 | a host that wants m blocks finds the status behind the data if and only if the command reads m blocks |
| UsbMassStorage.StandardHostInStep | libopencm3/lib/usb/usb_msc.c:269-276 | a host that follows SBC stays in step if and only if it does not use the zero length of READ(6) |
| RttHash.RollIsExact | main/rtt.c:104-105 | one step of the loop turns the hash of the window into the hash of the next window |
| RttHash.IdentHash | main/rtt.c:87 | the constant compared with is the hash of the identifier |
| RttHash.TopIsPower | main/rtt.c:89 | the constant for the outgoing byte belongs to 256 to the 15th |
| RttHash.NoOverflow | main/rtt.c:104-105 | the 64-bit variables hold all intermediate values |
| RttSearch.FastSearch | main/rtt.c:84-112 | the rolling search equals hashing every window from scratch, in order, chunk by chunk, wherever it ends |
| RttSearch.LoopEnds | main/rtt.c:96 | without a hit the loop over the chunks ends if and only if its counter passes the end before it wraps around |
| RttSearch.ScanFirst | main/rtt.c:96-109 | the result is a hit if and only if it is the first matching window and all chunks up to it can be read |
| RttSearch.NoOccurrenceMissed | main/rtt.c:84-112 | an occurrence anywhere in the range, across chunks too, is never passed over as long as the chunks up to its end can be read |
| RttSearch.OccurrenceReported | main/rtt.c:84-112 | an occurrence is reported at its address if and only if the chunks up to its end can be read and no earlier window collides |
| RttFind.MemorySearch | main/rtt.c:114-135 | the chunked search equals its plain description, unreadable chunks being skipped |
| RttFind.SeekFirst | main/rtt.c:119-133 | in any memory the hit is the first occurrence among the offsets looked at: those with two more bytes of the range behind the text whose chunk can be read |
| RttFind.FoundUnlessLast | main/rtt.c:119-133 | a single occurrence is found if and only if at least two more bytes of the range are behind it and its chunk can be read |
| RttFind.SameTextIsEqual | main/rtt.c:130 | strncmp over the length of the identifier is equality |
| RttFind.JudgeClamps | main/rtt.c:174-191 | the counts are clamped to the table, and a block is bad if and only if their sum wraps around |
| RttFind.CountsLayout | main/rtt.c:172-191 | the counts are the little-endian words at bytes 16 and 20 of the block |
| RttFind.SearchRegions | main/rtt.c:150-167 | the result is that of the first region that reports one |
| RttFind.BlockFound | main/rtt.c:149-159 | a control block in a region, those before it reporting nothing, is found at its address if no window before it collides and the memory can be read up to its end |
| RttFind.TextFound | main/rtt.c:149-159 | so is the only occurrence of an identifier of the user, with two more bytes of the region behind it and its chunk readable |
| RttFind.Rtt.CheckBlock | main/rtt.c:169-212 | when a block is accepted, refused for good, or left for the next poll |
| RttFind.Rtt.FindRtt | main/rtt.c:137-213 | the block found, the channel counts in the bytes of the block, the enabled channels and the saved header |
| RttRing.Target.Do | main/rtt.c:266-326 | whatever the target does to memory, queued bytes stay and appended bytes join the queue |
| RttUp.AlignedRead | main/rtt.c:266-280 | the word-aligned read yields the bytes asked for, within eight spare bytes, while the target runs; it fails if and only if its access does |
| RttUp.UpChannel.Fetch | main/rtt.c:293-315 | the buffer holds the first bytes of the queue, both stretches together, as many as it has room for, unless an access fails |
| RttUp.UpChannel.WriteTail | main/rtt.c:317-320 | moving the tail gives up exactly the bytes it passes, or nothing if and only if the access fails |
| RttUp.UpChannel.PrintRtt | main/rtt.c:283-326 | an error if and only if the copy is out of range or an access fails; then nothing changes for the target, else exactly the bytes given up are emitted |
| RttUp.UpChannel.Poll | main/rtt.c:377-401 | one poll keeps emitted plus queued equal to written; it fails if and only if an access does, and else emits what was queued or a bufferful |
| RttUp.UpChannel.Session | main/rtt.c:283-326 | over every run, with every pattern of failures, bytes emitted and bytes queued are the bytes the target ever wrote; without a failing access all that was written before is emitted, given one poll for each bufferful |
| RttDown.FullWhen | main/rtt.c:237-239 | the loop stops exactly when one free slot is left |
| RttDown.DownChannel.WriteByte | main/rtt.c:243-244 | a byte written behind the head touches neither queued nor pending bytes; it fails if and only if its access does |
| RttDown.DownChannel.WriteHead | main/rtt.c:249-252 | moving the head sends exactly the pending bytes, or nothing if and only if the access fails |
| RttDown.DownChannel.WriteInput | main/rtt.c:235-247 | the loop puts as much input behind the head as the copy of the tail leaves room for, and nothing else, up to the access that fails |
| RttDown.DownChannel.ReadRtt | main/rtt.c:223-254 | an error if and only if an access fails; it takes a character with each access up to the room the copy of the tail leaves, and on an error they are lost |
| RttDown.DownChannel.Poll | main/rtt.c:377-401 | one poll with a new copy of the control block: fails if and only if an access does, sends as much as there is and as was free at that moment, and else loses exactly the characters taken |
| RttDown.DownChannel.Session | main/rtt.c:223-254 | over every run the target receives what was sent, in order; each poll is offered what the polls before it left; which characters of the text are sent, how many are lost and what is left follow from the failing accesses and the room at each copy; input is conserved if and only if no poll has an access fail behind a copy that shows room |
| RttDown.FirstIsLost | main/rtt.c:240-244 | a losing run: the access that writes the first character fails, and the character is gone |
| Crc32.StepsLinear | main/crc32.c:177-182 | the shift register is linear over GF(2) |
| Crc32.WordIsFourBytes | main/crc32.c:163-164 | a big-endian word fed at once equals its four bytes |
| Crc32.CrcConcat | main/crc32.c:103-138 | a checksum may be computed in pieces |
| Crc32.CrcInjective | main/crc32.c:98-101 | different registers stay different over the same bytes |
| Crc32.BurstDetected | main/crc32.c:98-101 | images that differ in one stretch of four bytes have different checksums |
| CrcExamples.CheckValue | main/crc32.c:103-138 | the checksum of "123456789" is 0x0376E6E7 |
| Crc32Table.TableAt | main/crc32.c:27-94 | every table entry is eight clocks of its index |
| Crc32Generic.CalcIsByteStep | main/crc32.c:98-101 | one lookup replaces eight clocks |
| Crc32Generic.AbsorbChunk | main/crc32.c:126-133 | one chunk extends the checksum of what precedes it |
| Crc32Generic.TableCrc32 | main/crc32.c:103-138 | the chunked loop returns the checksum of the whole range if and only if every chunk can be read |
| Crc32Generic.FeedChunk | main/crc32.c:157-164 | the words of a chunk extend the checksum in the unit |
| Crc32Generic.FinishBytes | main/crc32.c:169-184 | the bitwise remainder extends it by the last bytes |
| Crc32Generic.UnitCrc32 | main/crc32.c:143-187 | the word-wise version returns the same checksum for every image and length |
| Stm32Crc.ReverseGroupsAt | main/stm32flash/stm32.c:1200-1205 | byte k of a group of four changes places with byte 3-k |
| Stm32Crc.SwappedCrcConcat | main/stm32flash/stm32.c:1235-1245 | the software checksum may be computed in pieces of whole words |
| Stm32Crc.SwCrc | main/stm32flash/stm32.c:1190-1216 | equals the byte-wise checksum of the buffer with each group reversed, and 0 for lengths that are no multiple of four |
| Stm32Crc.CrcWrapper | main/stm32flash/stm32.c:1218-1257 | chunks of 256 bytes give the checksum of the whole range |
| CrcExamples.WordValue | main/stm32flash/stm32.c:1190-1216 | the checksum of the word 0x12345678 is 0xDF8A8A2B |
| HexUtils.PairRoundTrip | main/hex_utils.c:28-59 | a byte written as two digits reads back |
| HexUtils.LowerCaseReads | main/hex_utils.c:51-59 | lower-case digits read like upper-case ones |
| HexUtils.ByteDigits | main/hex_utils.c:28-49 | a byte is written as its two digits out of 0-9 and A-F, the upper first |
| HexUtils.BehindF | main/hex_utils.c:51-59 | characters behind F are read as if they were digits |
| HexUtils.StringRoundTrip | main/hex_utils.c:37-67 | unhexify undoes hexify |
| HexUtils.Hexify | main/hex_utils.c:37-49 | the loop writes the digits and a terminator |
| HexUtils.Unhexify | main/hex_utils.c:61-67 | the loop writes the bytes the digits spell |
| GdbPacket.ReceiveConcat | main/gdb_packet.c:117-245 | reception does not depend on how the input is cut |
| GdbPacket.CaptureBody | main/gdb_packet.c:156-192 | an escaped body is captured as its payload, with its wire sum |
| GdbPacket.FrameReceived | main/gdb_packet.c:156-243 | a frame is accepted if and only if its last two characters spell the sum of its body modulo 256; else it is refused and no packet comes out |
| GdbPacket.SumIsTotal | main/gdb_packet.c:172-185 | the running checksum is the sum of the bytes modulo 256 |
| GdbPacket.FrameLayout | main/gdb_packet.c:264-304 | the frame is start, body, end, and the sum of the body as two digits |
| GdbPacket.EscapedLayout | main/gdb_packet.c:247-262 | the four special characters are sent as 7D and the character with bit 5 flipped, all others as they are |
| GdbExamples.FrameOfOk | main/gdb_packet.c:264-304 | "OK" is sent as "$OK#9A" |
| GdbExamples.FrameOfHash | main/gdb_packet.c:264-304 | "#" is sent escaped |
| GdbExamples.AnswersToOk | main/gdb_packet.c:117-245 | "$OK#9a" is a packet and "$OK#9b" is refused |
| GdbExamples.Interrupts | main/gdb_packet.c:129-154 | control-C and control-D are packets of their own |
| GdbExamples.RemoteEnds | main/gdb_packet.c:62-115 | behind at most `size` characters of a remote control packet, `#` leaves no trace of it, control-D is delivered as a packet of its own, `$` starts a frame, and one character too many drops it |
| GdbExamples.RemoteRestarts | main/gdb_packet.c:77-80 | a second `!` starts the remote control packet anew, with the whole buffer to itself |
| GdbPacket.RoundTrip | main/gdb_packet.c:117-304 | for every payload shorter than the buffer, after any history that leaves the receiver ready, the payload comes back and one acknowledge goes out |
| GdbPacket.NoiseIgnored | main/gdb_packet.c:129-154 | noise without start characters leaves no trace |
| GdbPacket.TruncatedFrame | main/gdb_packet.c:156-243 | after a truncated frame the receiver is ready if and only if the cut follows no escape and lies before the checksum; nothing was replied |
| GdbResync.ReceivedIffReady | main/gdb_packet.c:117-245 | from every state a complete frame is received, with its acknowledge and nothing else, if and only if the state is a ready one |
| GdbResync.DeliveredIffReady | main/gdb_packet.c:117-245 | after any history without a packet the next frame is delivered if and only if the history left the receiver ready |
| GdbResync.FrameBehindCut | main/gdb_packet.c:156-243 | for all payloads, cuts and buffer sizes, the frame behind a truncated one is received if and only if the cut follows no escape and lies before the checksum |
| GdbReceiver.ConsumeRemote | main/gdb_packet.c:62-115 | the loop over a remote control packet refines the receiver machine |
| GdbReceiver.CaptureCases | main/gdb_packet.c:156-192 | capturing into the buffer refines the machine and never overruns it |
| GdbReceiver.FrameCases | main/gdb_packet.c:156-243 | one character inside a frame refines the machine, whatever the state |
| GdbReceiver.GetPacket | main/gdb_packet.c:117-245 | gdb_getpacket on any input returns packet, replies and rest as the machine says |
| GdbLink.NextChar | main/gdb_packet.c:247-262 | one character on the wire, escaped if needed, and the running sum modulo 256 |
| GdbLink.PutPacket2 | main/gdb_packet.c:264-304 | every attempt sends start, the body of the two parts together, end, and the sum of the body modulo 256 as two digits, as often as the answers call for |
| GdbLink.AttemptsBounds | main/gdb_packet.c:264-304 | between one and four attempts, one in no-ack mode |
| GdbLink.DamagedCopiesRefused | main/gdb_packet.c:202-233 | copies with a wrong checksum are refused one by one |
| GdbLink.RetransmissionDelivers | main/gdb_packet.c:117-304 | up to three damaged copies are repaired by retransmission, and sender and receiver agree on the number of copies |
| GdbLink.FourRefusalsGiveUp | main/gdb_packet.c:264-304 | after a fourth the sender has given up |
| Jtag.Shifting | main/jtagtap.c:142-221 | after k cycles of a scan k bits are in and the next old bit is on TDO |
| Jtag.ScanExchanges | main/jtagtap.h:71-74 | a scan exchanges register and data for every length and ends in Run-Test/Idle |
| Jtag.ScanEndsIdle | main/jtagtap.h:71-74 | it ends there if and only if at least one bit is shifted, the last with TMS high, and an idle cycle asked for |
| Jtag.EnterShiftDR | main/jtagtap.h:71 | the sequence leads from Run-Test/Idle to Shift-DR with the captured register |
| Jtag.EnterShiftIR | main/jtagtap.h:68 | the sequence leads from Run-Test/Idle to Shift-IR and leaves the data register as it was |
| Jtag.InstructionScanEndsIdle | main/jtagtap.h:68-74 | a scan of the instruction register ends in Run-Test/Idle on the same condition |
| Jtag.SoftReset | main/jtagtap.h:65 | the reset sequence leads from every state to Run-Test/Idle |
| JtagTap.Adapter.TmsSeq | main/jtagtap.c:102-140 | both variants clock the TAP with the bits of the word |
| JtagTap.Adapter.TdiTdoSeqClkDelay | main/jtagtap.c:142-175 | the TAP is clocked with data_in, the samples fill data_out, also when both are one buffer |
| JtagTap.Adapter.TdiTdoSeqNoDelay | main/jtagtap.c:177-221 | the same with the falling edge postponed to the next cycle |
| JtagTap.Adapter.TdiTdoSeq | main/jtagtap.c:223-232 | both variants are one operation |
| JtagTap.Adapter.TdiSeq | main/jtagtap.c:234-291 | the same clocks, nothing sampled |
| JtagTap.Adapter.ScanDR | main/jtagtap.c:142-232 | the probe's whole scan leaves the register equal to data_in, data_out equal to the old contents, the TAP in Run-Test/Idle |
| JtagTap.CollectEnd | main/jtagtap.c:170-174 | the incomplete byte is stored with zeros above the samples |
| Swd.LoopBack | main/swdptap.c:127-194 | looped back, a word that fits comes back and no error is reported; otherwise an error is reported if and only if the bits not sent hold an odd number of ones |
| Swd.EvenParity | main/swdptap.c:127-194 | with its parity bit a word that fits has an even number of ones, and an odd number is an error |
| Swd.FlipsDetected | main/swdptap.c:129-143 | an error is reported if and only if an odd number of the levels is flipped |
| SwdTap.Wires.Turnaround | main/swdptap.c:56-83 | one undriven cycle when the direction changes |
| SwdTap.Wires.SeqOut | main/swdptap.c:148-181 | the rising edges carry the bits of the word, least significant first |
| SwdTap.Wires.SeqOutParity | main/swdptap.c:183-194 | and the parity of the word behind them |
| SwdTap.Wires.SeqIn | main/swdptap.c:87-125 | the word of the levels sampled at the rising edges |
| SwdTap.Wires.SeqInParity | main/swdptap.c:127-144 | the word and whether its parity is wrong |
| SwdTap.PopulationCount | main/swdptap.c:133-133 | the bit count of a word read is the number of high levels |
| SwdTap.Exchange | main/swdptap.c:127-194 | a word sent by one port is read back by another |
| WordBits.BitsRoundTrip | main/swdptap.c:87-101 | a word is recovered from its bits |
| TraceSwo.RunConcat | main/traceswodecode.c:34-67 | where the stream is cut into calls makes no difference |
| TraceSwo.RunValid | main/traceswodecode.c:39-65 | the pending length stays below the buffer size and the recovery branch is never reached |
| TraceSwo.DecodesPayloads | main/traceswodecode.c:34-73 | for every stream and every change of the mask, buffers handed over plus pending bytes are the payloads enabled at their header |
| TraceSwo.NothingDropped | main/traceswodecode.c:52-59 | the buffers written are all that was handed over if and only if USB was ready for each |
| TracePackets.ReadHarmless | main/traceswodecode.c:41-50 | software packets whose bit of the mask is set, protocol packets without payload and synchronisation are read as what appendix D4 of the ARMv7-M ARM says they are |
| TracePackets.EnabledIs | main/traceswodecode.c:50 | a channel is printed if and only if its bit of the mask is set |
| TracePackets.PacketsDecoded | main/traceswodecode.c:34-67 | from power-up on, for all such packets, whatever USB is ready for, and all cuts, the enabled payloads are decoded, and they are what was written plus what is pending if and only if USB was ready for every full buffer |
| TracePackets.DecodedIffHarmless | main/traceswodecode.c:41-50 | for all payload bytes and masks the enabled software payloads are decoded if and only if no packet of the DWT, timestamp or extension with a payload occurs, other than a last one of one byte |
| TracePackets.HeaderPrinted | main/traceswodecode.c:41-50 | a run with a packet of the DWT in front of a letter prints the header of the letter in its place |
| TracePackets.DroppedIffFull | main/traceswodecode.c:52-59 | while USB is never ready, output is lost if and only if it fills a buffer |
| TraceSwo.Decoder.Decode | main/traceswodecode.c:34-67 | the method on the static variables refines the machine |
| TraceSwo.Decoder.SetMask | main/traceswodecode.c:70-73 | changes the mask and nothing in transit |
| Bootloader.AddressTaken | main/stm32flash/stm32.c:685-693 | the address frame has zero XOR and means its address |
| XorDigits.XorIsExclusiveOr | main/stm32flash/stm32.c:688-690 | the digit-wise sum of the frames is the exclusive or of bit vectors |
| XorDigits.ChecksumIsXor | main/stm32flash/stm32.c:695-709 | the checksum of a frame is the exclusive or of its bytes |
| Bootloader.DataTaken | main/stm32flash/stm32.c:695-709 | the data frame has zero XOR and stores exactly its data |
| Bootloader.EraseTaken | main/stm32flash/stm32.c:942-977 | the erase frame is taken if and only if its list is as long as its count, and then erases exactly its pages, numbers cut to 16 bits |
| Bootloader.CountTaken | main/stm32flash/stm32.c:943-963 | the count alone with its own checksum is accepted |
| Bootloader.ListTaken | main/stm32flash/stm32.c:964-977 | the same for a list behind a count of its own |
| Bootloader.PageListNames | main/stm32flash/stm32.c:968-975 | the list names the pages of the range in order, cut to 16 bits |
| Bootloader.RegularTaken | main/stm32flash/stm32.c:890-921 | with the one-byte erase command a batch is taken if and only if it has at most 255 pages, all listed, though batches have up to 511 |
| Bootloader.CutRangeMeant | main/stm32flash/stm32.c:916-975 | the pages erased are the pages meant if and only if their numbers fit the frame |
| Stm32Link.AwaitReply | main/stm32flash/stm32.c:221-257 | behind noise the host sees an acknowledge if and only if the device sent it and all before it was waited through |
| Stm32Link.Port.GetAckTimeout | main/stm32flash/stm32.c:221-257 | the loop over reads equals its plain description |
| Stm32Link.Port.SendCommand | main/stm32flash/stm32.c:264-288 | success means the device took the command |
| Stm32Flash.Stm32.FillFrame | main/stm32flash/stm32.c:695-707 | the frame holds count, data, 0xFF to a multiple of four, and checksum, within the buffer |
| Stm32Flash.Stm32.WriteMemory | main/stm32flash/stm32.c:654-719 | success means the padded data are at the address and no other byte changed; failure leaves the memory as it was or written |
| Stm32Flash.Stm32.Go | main/stm32flash/stm32.c:1084-1108 | success means the device started at the address |
| Stm32Flash.Stm32.WriteImage | main/stm32flash/stm32.c:1066-1078 | chunks of 256 bytes at aligned addresses add up to the padded image |
| Stm32Flash.Stm32.RunRawCode | main/stm32flash/stm32.c:1042-1082 | the device never starts unless it finds the stack pointer 0x20002000 and the entry point, least significant byte first, the code and the padding in memory; no other byte changes, whatever fails |
| Stm32Erase.DroppedMeans | main/stm32flash/stm32.c:1001-1003 | the check drops exactly the ranges beyond the limit if and only if the end does not wrap around |
| Stm32Erase.Eraser.ExtendedErase | main/stm32flash/stm32.c:937-994 | one batch erases its pages, with and without the separate count, within the allocated buffer; without faults it succeeds if and only if its end does not wrap around |
| Stm32Erase.Eraser.RegularErase | main/stm32flash/stm32.c:890-935 | the same for the one-byte command, for batches of at most 255 pages and no others |
| Stm32Erase.Eraser.PagesErase | main/stm32flash/stm32.c:870-994 | one batch erases the pages it names; without faults it succeeds unless its end wraps around or the one-byte command cannot express it |
| Stm32Erase.NamedAreMeant | main/stm32flash/stm32.c:870-994 | the pages named are the pages meant if and only if their numbers fit the command |
| Stm32Erase.RangeAsMeant | main/stm32flash/stm32.c:1001-1003 | with the extended command a range that is not dropped and does not wrap around is erased as meant |
| Stm32Erase.Eraser.MassErase | main/stm32flash/stm32.c:829-868 | one mass erase |
| Stm32Erase.Eraser.EraseBatches | main/stm32flash/stm32.c:1031-1039 | batches of at most 511 erase every page of the range once, in order, and no other; a failure leaves a prefix; a range that wraps around always fails |
| Stm32Erase.Eraser.EraseMemory | main/stm32flash/stm32.c:996-1040 | the whole command for every start and count: dropped, refused, mass erase, or the range; a failure leaves a prefix of the pages; without faults it succeeds if and only if the erase command exists, can express the range, and the range does not wrap around |
| EthRing.Layout.CellsDisjoint | libopencm3/lib/ethernet/mac_stm32fxx7.c:88-113 | descriptors and buffers of a ring do not overlap |
| EthRing.Layout.CycleOfN | libopencm3/lib/ethernet/mac_stm32fxx7.c:88-113 | following the links comes back after n steps and not before |
| EthInit.RingsDisjoint | libopencm3/lib/ethernet/mac_stm32fxx7.c:88-113 | nor do those of the two rings |
| EthInit.AreaOfRings | libopencm3/lib/ethernet/mac_stm32fxx7.c:79 | the two rings fill the area from end to end |
| EthInit.Mac.BuildRing | libopencm3/lib/ethernet/mac_stm32fxx7.c:88-99 | one loop builds a closed ring of as many descriptors as asked for |
| EthInit.Mac.DescInit | libopencm3/lib/ethernet/mac_stm32fxx7.c:73-117 | two closed rings tile the area; transmit descriptors are free and chained by TDES0_TCH, receive descriptors the DMA's; nothing outside changes |
| EthQueue.Push | libopencm3/lib/ethernet/mac_stm32fxx7.c:132-136 | handing over the next cell appends its frame to the queue |
| EthQueue.Pop | libopencm3/lib/ethernet/mac_stm32fxx7.c:126-144 | the cell the DMA gives back was the oldest frame |
| EthMac.Transmitter.OwnedMeansFull | libopencm3/lib/ethernet/mac_stm32fxx7.c:128-130 | the next descriptor is the DMA's if and only if the ring is full |
| EthMemory.HandoverBits | libopencm3/lib/ethernet/mac_stm32fxx7.c:135 | bits 28, 29 and 31 are set, all others kept |
| EthMemory.OffloadBits | libopencm3/lib/ethernet/mac_stm32fxx7.c:283 | bits 22 and 23 are set, all others kept |
| EthMac.Transmitter.Tx | libopencm3/lib/ethernet/mac_stm32fxx7.c:126-144 | with the DMA running between any two accesses, and sending only frames marked as first and last segment: refuses only when full, else the frame joins the end of the queue, its length cut to 13 bits |
| EthMac.FrameStaysInside | libopencm3/lib/ethernet/mac_stm32fxx7.c:132 | the copy of a frame stays inside its cell, whatever the memory holds, if and only if the frame fits the buffer |
| EthMac.ToldWhole | libopencm3/lib/ethernet/mac_stm32fxx7.c:134 | an accepted frame goes out whole if and only if it is shorter than 8192 bytes |
| EthMac.Transmitter.Send | libopencm3/lib/ethernet/mac_stm32fxx7.c:126-144 | over every run wire and queue together are the accepted frames in order, each cut to its 13-bit length |
| EthMac.Transmitter.EnableChecksumOffload | libopencm3/lib/ethernet/mac_stm32fxx7.c:279-289 | the walk, with the DMA running, ends after n steps and marks every descriptor; frames sent and owned exceed those accepted by exactly the races, so the ring stays valid if and only if there is none; none happens if the queue is empty, and with any other queue an agenda that starts the DMA at the wrong access has one |
| EthMac.Transmitter.SetOffload | libopencm3/lib/ethernet/mac_stm32fxx7.c:283 | one read-modify-write of a status word puts a frame on its way once more if and only if the DMA releases the descriptor in between |
| EthOwners.QueueCount | libopencm3/lib/ethernet/mac_stm32fxx7.c:126-144 | the DMA owns as many descriptors as frames are queued |
| EthRx.Receiver.Rx | libopencm3/lib/ethernet/mac_stm32fxx7.c:154-186 | for descriptors with any status: takes pieces up to one that ends a frame or until the ring is empty, and returns true if and only if it saw beginning and end and had room for what the descriptors claim |
| EthRx.Receiver.Drain | libopencm3/lib/ethernet/mac_stm32fxx7.c:154-186 | over every run the calls take all pieces once, in order; if each frame is in one buffer, the frames delivered are those received that fit, in order |
| EthRx.SpreadFrame | libopencm3/lib/ethernet/mac_stm32fxx7.c:162-181 | a frame spread over buffers: a call returns true if and only if maxlen covers the claims of all its descriptors, and returns the frame if and only if it fits one buffer and maxlen |
| EthRx.LateFrameLost | libopencm3/lib/ethernet/mac_stm32fxx7.c:154-186 | a frame that has not arrived in full when it is read is lost, both parts of it |
| EthRx.NothingArrived | libopencm3/lib/ethernet/mac_stm32fxx7.c:101-113 | the ring built at start-up is an empty receive ring |

## Left out

- Wi-Fi, sockets, tasks, UART and GPIO drivers, logging and number formatting: plumbing around the modelled code; pins, channels and memory are abstract here.
- Code switched off by the preprocessor, exceptions by setjmp, the command interpreter and the dispatch of remote packets.
- Target drivers and flash back ends: memory that is read and written, with accesses that may fail.
- UsbStandard: SET_CONFIGURATION, strings, BOS and the Microsoft descriptors, endpoint status; of the standard requests only descriptors and SET_ADDRESS.
- UsbControl: SETUP is one event; drivers that set the address before the status stage; the failure of an endpoint write.
- UsbStandard.BuildConfigDescriptor: where descriptor and requested length both exceed the buffer, only that the copies run over it is proved (UsbBuffer.BuiltInside).
- UsbMassStorage: FORMAT UNIT, WRITE(6) and WRITE(10), which the code acknowledges before the data is complete; the result of read_block is ignored as in the code; the lock callbacks are taken to be set.
- UsbMassStorage.MassStorage.ScsiCommand: FORMAT UNIT, WRITE(6) and WRITE(10) are excluded.
- UsbMassStorage.MassStorage.Session: sequences with one of these three commands are excluded.
- UsbMassStorage.MassStorage.RxCb: command wrappers split over several packets, for which the code sends a status early, so endpoints of 8 and 16 bytes are not covered; nor are OUT packets outside the idle state.
- UsbMassStorage.MassStorage.Transaction: these three commands are excluded; host tokens are assumed to come in the order of the bulk-only transport; a reset in between is not modelled.
- RttSearch.FastSearch: that a hit is a real control block is not claimed; a search that does not end, because its counter wraps around without a hit, is excluded.
- RttFind.MemorySearch: the same search that does not end is excluded here, in RttFind.SearchRegions and in RttFind.Rtt.FindRtt; with an identifier the counter may leave the range and end elsewhere.
- RttFind: the halting of the target around a poll, the adaptive poll interval, the error limit, and the comparison of the saved header are not part of this model.
- RttUp: one channel, set up by its target, with a buffer that does not wrap around the address space; a failing tail write leaves the tail as it was; the control block is read as head and tail.
- RttDown: the same for the down channel; the skip and block flags act in the character source, which is a plain sequence here.
- Crc32Generic: the data register and reset of the CRC unit, no other register.
- Stm32Crc.CrcWrapper: devices whose bootloader computes the checksum itself; the XOR-framed CRC command is not part of this model.
- GdbReceiver: end of input stands for waiting; notifications and formatted output are not part of this model.
- Jtag: instruction scans move through the same machine, but the instruction register is not part of this model; nor are single clocks (jtagtap_next, jtagtap_cycle).
- SwdTap: variants with and without delay make the same edges and are one method; waiting times are not modelled.
- TracePackets: the mask stays while the packets are sent; changes of it in between are covered by TraceSwo.DecodesPayloads.
- Stm32Flash: a target area that ends at the top of the address space; allocation failures; read, protect and unprotect commands.
- Stm32Erase: what flash_addr_to_page_ceil returns is a parameter, as its body is not part of the repository.
- EthMac.Transmitter.Tx: frames longer than a buffer, which the code copies unchecked into the next descriptor, are excluded; so they are for EthMac.Transmitter.Send. Poll demand and status registers are not modelled.
- EthRx: receive and transmit ring each have a memory of their own. The number of pieces without the end of a frame is bounded by a parameter, as the loop of the code is not.
- EthInit.Mac.DescInit: at least one descriptor of each kind, as the counters are decremented before they are compared.
