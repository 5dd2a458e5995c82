# Verified models of common-embedded-platform

Dafny models of the state machines and protocols of this embedded platform, with proofs of what they
are for. `dafny verify dfyconfig.toml` checks everything.

## What is modelled

**Firmware updater** (`FPGAFirmwareUpdater`). Bytes of a `.bit` file arrive in arbitrary chunks, pass
through a receive queue, a seven-state parser and a write queue, and reach flash in verified blocks.
`BitstreamParser` is a pure one-pass parser with unbounded buffers; `FPGAFirmwareUpdater.Updater` is
the class with the two bounded queues, proved to be where the one-pass parser is after every call, for
every chunking and for a flash chip (`SpiFlash`) that may fail any command or store something else
than it was told to; `Update` is a whole update, from opening to closing. `Framing` writes the file
format down as a grammar (packet types as in chapter 5 of Xilinx UG470) and proves that the parser
finishes, and fails, exactly on what the grammar says. `PacketHeaders` builds header words from their
fields, without the decoders, and states what literal bytes do. `FlashLayout` is the sector arithmetic,
over the powers of two in `Bits`.

**Mailboxes and log** (`IpcProtocol`, `IpcDescriptorTable`, `LogProtocol`, `MulticoreLogDevice`). Any
number of mailboxes over one shared memory and one set of busy flags, as an interleaving of steps in
which a `memcpy` moves one byte per step; the sequential code over arrays; the per-core log on top.

**Power and reset supervisor** (`SupervisorSpec`, `SupervisorRuns`, `SupervisorDescriptors`,
`PowerResetSupervisor`). The specification maps readings to new line states and a trace of events, and
the theorems are about whole runs. The classes drive pins; every device keeps a ghost log of what it
answered, so the loops are proved to ask exactly the devices the specification asks and to obey them.

**Smaller parts.** The iperf3 control server (`IperfJson`, `IperfJsonErrors`, `Iperf3Server`, and
`IperfWire` for the texts a client sends), the bootloader's decision over runs of resets
(`Bootloader`), the SSH key table as a refinement of a map (`SSHKeyManager`), the unreduced sum of
step 5 in section 5.1.6 of RFC 8032 (`ScalarAccumulator`), and address parsing with mask and broadcast
arithmetic (`Ipv4Address`). `Decimals` holds printed numbers, `Options` a value that may be missing.

## Where the code is not what one would expect

The models follow the code; each point has a member that states it exactly.

- The start record `e` is recognised with three bytes present, but five are removed
  (fpga/FPGAFirmwareUpdater.cpp:375-391). `OnRxData` therefore requires that no chunk ends at the third
  or fourth byte of that record; `Framing.TornExactly` says which streams those are, `Framing.TornAtOnce`
  gives one.
- A write-buffer overflow in a big write sets FAILED, but when it happens with the last words of the
  packet the next assignment sets the state back to BITSTREAM (lines 589-600): `ProcessBigWrite`,
  `OverflowForgotten`. Refused pushes in the other states are not noticed at all (lines 461, 468, 546,
  560): `ProcessSyncWait`, `PaddingLost`; `ProcessPacket`, `PacketLost`. `OnRxData` says when no push can be
  refused.
- The blank check reads from address 0 whatever the partition offset is, and whole 256-byte blocks
  (lines 159-166): `EraseFlashPartition` says when that fails a working chip,
  `BlankCheckMisfires` gives a case, `CoveredPartition` a layout that is safe.
- The erase covers the partition only when it is a whole number of sectors (line 138):
  `FlashLayout.EraseCoversExactly`, `FlashLayout.EraseFallsShort`.
- A log flush larger than the mailbox is dropped and the write pointer reset all the same
  (multicore/MulticoreLogDevice.cpp:74-79): `LogProtocol.FlushIsDelivered`, `LogProtocol.FlushCanBeLost`.
- `PowerOn` while the power is on restarts the sequence without asserting the later lines
  (supervisor/PowerResetSupervisor.cpp:78-84): `SupervisorSpec.PowerOnOrder`,
  `SupervisorSpec.PowerOnCanReorder`. Rails and shutdowns are safe all the same: `SupervisorRuns.RunHolds`,
  `SupervisorRuns.RunInOrder`.
- A delay line's sum of start and delay is 32 bits wide; when it wraps the delay vanishes
  (supervisor/ResetDescriptor.h:136): `DelayExactly`, `DelayCanVanish`.
- The iperf main loop stops at the first unused entry, so entries behind a closed one get no service
  (services/Iperf3Server.cpp:528-529): `Iperf3Server.ServedExactly`, `Iperf3Server.StarvedEntry`. With the
  default of one entry (services/Iperf3Server.h:47-49) it cannot happen.
- During a test one byte is read per segment, so a TEST_END behind another byte is missed
  (services/Iperf3Server.cpp:118-121): `Iperf3Server.TestEndsExactly`, `Iperf3Server.OneBytePerSegment`.
- If storing the checksum fails after storing the version, a good image is refused at the next reset
  (bootloader/bootloader.cpp:143-146): `Bootloader.RelaunchAfterWrites`, `Bootloader.GoodImageRefused`.
- A key added with an empty description is found by `FindKey` although its slot counts as free
  (tcpip/SSHKeyManager.cpp:187, 235-243): `SSHKeyManager.AddKeepsTidyExactly`,
  `SSHKeyManager.NamelessKey`.
- Address fields are 32-bit and wrap, and empty digit runs count as 0 (cli/CommonCommands.cpp:433-434):
  `Ipv4Address.AcceptsExactly`, `Ipv4Address.OverflowWraps`, `Ipv4Address.EmptyRunsAreZero`.

## Model

| member | source | states |
|---|---|---|
| `BitstreamParser.Step` | fpga/FPGAFirmwareUpdater.cpp:345-617 | one parser move never takes output back, and either shortens the input or leaves it alone and lowers the rank of the state: the lexicographic measure that ends every run, zero-length type 2 packets included |
| `BitstreamParser.Run` | fpga/FPGAFirmwareUpdater.cpp:199-212 | a run only adds output, stops only where input is missing, and a finished or failed parser keeps no input |
| `BitstreamParser.StepMonotone` | fpga/FPGAFirmwareUpdater.cpp:345-617 | whenever a move is possible, later input neither disables it nor changes what it does |
| `BitstreamParser.RunThenMore` | fpga/FPGAFirmwareUpdater.cpp:199-212 | input that arrives after the parser has stopped has the same effect as if it had been there from the start |
| `BitstreamParser.ChunksDoNotMatter` | fpga/FPGAFirmwareUpdater.cpp:199-212 | every split of a stream into chunks parses like the stream in one piece |
| `BitstreamParser.RunBigWords` | fpga/FPGAFirmwareUpdater.cpp:575-604 | copying any number of the words of a type 2 body at once ends where copying them one by one ends |
| `FPGAFirmwareUpdater.Updater.OnDeviceOpened` | fpga/FPGAFirmwareUpdater.cpp:190-197 | opening starts a new stream with empty queues and the write pointer at the partition; flash is untouched, and its contents and fault count are noted |
| `FPGAFirmwareUpdater.Updater.OnRxData` | fpga/FPGAFirmwareUpdater.cpp:199-212 | after any chunk the updater (state, big-word count, both queues, write pointer, flash) is where the one-pass parser is on the whole stream; a chunk that does not fit changes nothing; no write-buffer push is refused while the receive occupancy is at most the write buffer's capacity less (write block - 1); once finished or failed, later chunks change neither state nor flash |
| `FPGAFirmwareUpdater.Updater.ProcessBuffer` | fpga/FPGAFirmwareUpdater.cpp:208-211 | the processing loop ends for every input and leaves less than a write block in the write buffer |
| `FPGAFirmwareUpdater.Updater.ProcessDataFromBuffer` | fpga/FPGAFirmwareUpdater.cpp:332-617 | one call keeps the account of every byte, and asks to be called again only if it consumed input or lowered the state's rank |
| `FPGAFirmwareUpdater.Updater.ProcessMagic` | fpga/FPGAFirmwareUpdater.cpp:347-365 | the 13-byte header is accepted exactly when it is the magic number; the target of the parse is unchanged |
| `FPGAFirmwareUpdater.Updater.RecordText` | fpga/FPGAFirmwareUpdater.cpp:392-401 | the text copied out of a record is its bytes before the first NUL, or all of them |
| `FPGAFirmwareUpdater.Updater.ProcessRecord` | fpga/FPGAFirmwareUpdater.cpp:368-442 | a header record is skipped whole, a record naming another device fails the update, and the start record erases the partition, as in the one-pass parse |
| `FPGAFirmwareUpdater.Updater.StartImage` | fpga/FPGAFirmwareUpdater.cpp:384-391 | after the start record the partition is blank or the update has failed; on a working chip it fails exactly when the blank check reads a byte that was neither erased nor blank |
| `FPGAFirmwareUpdater.Updater.ProcessSyncWait` | fpga/FPGAFirmwareUpdater.cpp:446-472 | the byte-by-byte search forwards everything up to and including the first sync word, and agrees with the one-pass parse; from the queues before the call: when a push is refused, and that the state does not show it |
| `FPGAFirmwareUpdater.SyncMovedIs` | fpga/FPGAFirmwareUpdater.cpp:452-470 | how much the search moves: up to the end of the first sync word with a byte behind it, else all but the last four bytes |
| `FPGAFirmwareUpdater.Updater.ProcessPacket` | fpga/FPGAFirmwareUpdater.cpp:475-572 | a packet is taken only when it is whole, and agrees with the one-pass parse; from the queues before the call: when the push is refused, and that the state does not show it |
| `FPGAFirmwareUpdater.Updater.ProcessBigWrite` | fpga/FPGAFirmwareUpdater.cpp:575-604 | a big write agrees with the one-pass parse; from the two queue lengths and the words left before the call: when the push is refused, and that the next state is BITSTREAM exactly when the buffered words complete the packet, refused or not |
| `FPGAFirmwareUpdater.OverflowForgotten` | fpga/FPGAFirmwareUpdater.cpp:587-600 | an updater with 255 bytes queued and a full receive buffer of 4096 bytes that completes a big write: the push is refused and the state is BITSTREAM |
| `FPGAFirmwareUpdater.PacketLost` | fpga/FPGAFirmwareUpdater.cpp:546-548 | the same queues and a NOP of 1024 words: the packet is refused and the update goes on |
| `FPGAFirmwareUpdater.PaddingLost` | fpga/FPGAFirmwareUpdater.cpp:467-469 | the same queues and padding: some of it is refused and the update goes on |
| `FPGAFirmwareUpdater.Updater.Forward` | fpga/FPGAFirmwareUpdater.cpp:546-548 | bytes leave the receive queue in order and enter the write queue all or not at all; the receive queue gives them up either way |
| `FPGAFirmwareUpdater.Updater.WriteVerified` | fpga/FPGAFirmwareUpdater.cpp:280-321 | success means that flash now reads back as what was written and that nothing else in it changed |
| `FPGAFirmwareUpdater.Updater.WriteBlock` | fpga/FPGAFirmwareUpdater.cpp:289-325 | one block moves from the front of the write buffer to flash, where the write pointer was |
| `FPGAFirmwareUpdater.Updater.PushWriteData` | fpga/FPGAFirmwareUpdater.cpp:271-327 | what was accepted is in flash or still buffered, in whole write blocks, and afterwards less than one block is buffered |
| `FPGAFirmwareUpdater.Updater.FlushWriteData` | fpga/FPGAFirmwareUpdater.cpp:222-266 | the rest fits the read-back buffer; afterwards flash is its old contents with exactly the accepted bytes written at the partition |
| `FPGAFirmwareUpdater.Updater.OnDeviceClosed` | fpga/FPGAFirmwareUpdater.cpp:214-266 | after closing a finished update, flash holds exactly the image up to the DESYNC command and nothing from after it; a failed update writes nothing more; a fault means that the chip misbehaved since the device was opened, has too large a write block, or held a byte the blank check sees and the erase does not reach |
| `FPGAFirmwareUpdater.Update` | fpga/FPGAFirmwareUpdater.cpp:190-220 | a whole update, for every file and every split into chunks that fit: on a chip that does what it is told the final state is that of the one-pass parse; it is DONE exactly for the image files of this device (and when the blank check sees only erased or blank bytes), and flash is then its old contents with the partition erased and the image written |
| `FPGAFirmwareUpdater.Updater.EraseFlashPartition` | fpga/FPGAFirmwareUpdater.cpp:129-188 | afterwards every byte the blank check reads is 0xff, or the state is FAILED; on a working chip it is FAILED exactly when a byte outside the erased sectors was not blank before; bytes before the partition stay |
| `FPGAFirmwareUpdater.BlankCheckMisfires` | fpga/FPGAFirmwareUpdater.cpp:159-184 | a partition at 0x1000 and a zero byte at address 0: the blank check reads a byte that is not erased |
| `FPGAFirmwareUpdater.Updater.EraseSectors` | fpga/FPGAFirmwareUpdater.cpp:136-151 | without a fault exactly the computed number of sectors from the partition's start become 0xff |
| `FPGAFirmwareUpdater.Updater.BlankCheck` | fpga/FPGAFirmwareUpdater.cpp:153-184 | fails exactly when some byte of the whole 256-byte blocks from address 0 that cover the image size is not 0xff |
| `FPGAFirmwareUpdater.CheckedReaches` | fpga/FPGAFirmwareUpdater.cpp:159 | the blank check reads whole 256-byte blocks up to the end of the image and less than 256 bytes further |
| `FPGAFirmwareUpdater.SameStreamSameState` | fpga/FPGAFirmwareUpdater.cpp:199-212 | two updaters that accepted the same bytes, however chunked, agree on state, count, write pointer, both queues and the programmed flash |
| `FPGAFirmwareUpdater.Conservation` | fpga/FPGAFirmwareUpdater.cpp:271-327 | while the image is received: the bytes after the header are flash from the partition to the write pointer, then the write buffer, then the receive buffer, and the write pointer has moved by whole write blocks |
| `FPGAFirmwareUpdater.CoveredPartition` | fpga/FPGAFirmwareUpdater.cpp:129-188 | with the partition at 0 and a whole number of power-of-two sectors, only a misbehaving chip can fail the blank check |
| `FPGAFirmwareUpdater.ErasesExactly` | fpga/FPGAFirmwareUpdater.cpp:136-151 | with power-of-two sectors, the erase covers the whole sectors in the partition, from its start |
| `FlashLayout.EraseCoversExactly` | fpga/FPGAFirmwareUpdater.cpp:136-138 | with power-of-two sectors, the computed number is that of the whole sectors in the partition; it covers the partition exactly when that is a whole number of sectors |
| `FlashLayout.EraseFallsShort` | fpga/FPGAFirmwareUpdater.cpp:136-138 | 6000 bytes in 4096-byte sectors: the erase stops short |
| `Framing.OnePacket` | fpga/FPGAFirmwareUpdater.cpp:475-604 | a whole packet at a packet boundary is forwarded whole, whatever words its body holds |
| `Framing.LongBody` | fpga/FPGAFirmwareUpdater.cpp:575-604 | a type 2 body of any content is forwarded and the parser is back at a packet boundary |
| `Framing.DesyncPacket` | fpga/FPGAFirmwareUpdater.cpp:511-549 | a non-NOP one-word type 1 packet that writes DESYNC to CMD ends the image, itself included |
| `Framing.ManyPackets` | fpga/FPGAFirmwareUpdater.cpp:475-604 | a sequence of packets without DESYNC leaves the parser at the boundary after it |
| `Framing.SplitPackets` | fpga/FPGAFirmwareUpdater.cpp:475-604 | every byte string is a sequence of packets followed by one of four kinds of stop |
| `Framing.PacketsOutcome` | fpga/FPGAFirmwareUpdater.cpp:475-604 | the parse of the packets is done exactly at a DESYNC packet, and failed exactly at a word that is no type 1 or 2 header |
| `Framing.SyncFound` | fpga/FPGAFirmwareUpdater.cpp:446-472 | the packets start right after the first sync word that has a byte behind it |
| `Framing.SyncOrWait` | fpga/FPGAFirmwareUpdater.cpp:446-472 | without such a sync word the parser goes on waiting |
| `Framing.RecordsAreSkipped` | fpga/FPGAFirmwareUpdater.cpp:368-442 | accepted header records do not show in the parse |
| `Framing.HeaderIsSkipped` | fpga/FPGAFirmwareUpdater.cpp:347-442 | a complete header puts the parser at the start of the image with nothing emitted |
| `Framing.HeaderOrNothing` | fpga/FPGAFirmwareUpdater.cpp:347-442 | a stream either begins with a complete header, or nothing of it is emitted |
| `Framing.TornExactly` | fpga/FPGAFirmwareUpdater.cpp:375-391 | exactly which streams end at the third or fourth byte of the start record, where the code pops five bytes |
| `Framing.TornAtOnce` | fpga/FPGAFirmwareUpdater.cpp:375-391 | the magic number and three bytes of a start record are such a stream |
| `Framing.BodyConserves` | fpga/FPGAFirmwareUpdater.cpp:446-604 | in the body, emitted bytes followed by waiting bytes never change |
| `Framing.StreamConserved` | fpga/FPGAFirmwareUpdater.cpp:446-604 | while the body is read, the stream is a header, then the emitted bytes, then the waiting ones |
| `Framing.ImageIsDone` | fpga/FPGAFirmwareUpdater.cpp:347-604 | a well-formed file is parsed to the end and exactly its image is emitted |
| `Framing.DoneIsImage` | fpga/FPGAFirmwareUpdater.cpp:347-604 | a stream that is parsed to the end is a well-formed file |
| `Framing.DoneExactly` | fpga/FPGAFirmwareUpdater.cpp:347-604 | DONE is reached exactly on well-formed files for this device: header, padding, sync word, packets, DESYNC packet; words inside bodies are never commands |
| `Framing.RejectIsFailed` | fpga/FPGAFirmwareUpdater.cpp:347-604 | a wrong magic number, a record naming another device, or a bad packet header fails the update |
| `Framing.FailedExactly` | fpga/FPGAFirmwareUpdater.cpp:347-604 | the parse fails exactly for one of those three reasons |
| `PacketHeaders.TypeRead` | fpga/FPGAFirmwareUpdater.cpp:481-484 | the packet type is bits 31-29 of the header word |
| `PacketHeaders.ShortRead` | fpga/FPGAFirmwareUpdater.cpp:482-507 | the four bytes of a word built from any operation, register and length at bits 28-27, 20-13 and 9-0, whatever the other bits, are a type 1 header with those fields and 4 + 4 * length bytes |
| `PacketHeaders.LongRead` | fpga/FPGAFirmwareUpdater.cpp:552-561 | the four bytes of 0x40000000 + length, operation bits free, are a type 2 header of that 27-bit length |
| `PacketHeaders.DesyncExactly` | fpga/FPGAFirmwareUpdater.cpp:511-549 | of the type 1 packets, exactly those that write one word with low bits 13 to register 4, operation not 0, end an image |
| `PacketHeaders.DesyncEnds` | fpga/FPGAFirmwareUpdater.cpp:511-549 | at a packet boundary the bytes 30 00 80 01 00 00 00 0d end the image, themselves included, whatever follows |
| `PacketHeaders.LongIsForwarded` | fpga/FPGAFirmwareUpdater.cpp:552-604 | behind the word 0x40000000 + n, 4 * n bytes of any content are forwarded and the next byte is at a packet boundary again |
| `PacketHeaders.ShortIsForwarded` | fpga/FPGAFirmwareUpdater.cpp:484-549 | behind a type 1 header word of n words, 4 * n bytes are forwarded unless they end the image |
| `PacketHeaders.OtherTypesFail` | fpga/FPGAFirmwareUpdater.cpp:565-570 | a header word below 0x20000000 or from 0x60000000 on fails the update |
| `PacketHeaders.RecordOnWire` | fpga/FPGAFirmwareUpdater.cpp:375-442 | a record holding a NUL-terminated text is skipped, unless it is of kind 62 (hexadecimal) and names another device: then the update has failed |
| `PacketHeaders.SmallFile` | fpga/FPGAFirmwareUpdater.cpp:347-604 | a whole file in literal bytes, for the device x7: DONE, with exactly padding, sync word and DESYNC packet as its image |
| `IpcProtocol.StepKeepsInv` | multicore/IPCDescriptorTable.cpp:122-189 | every step of every producer and consumer keeps the invariant of all mailboxes |
| `IpcProtocol.StepKeepsOthers` | multicore/IPCDescriptorTable.cpp:122-189 | a step of one mailbox changes neither the flag nor a byte of another |
| `IpcProtocol.ExecuteKeepsInv` | multicore/IPCDescriptorTable.cpp:122-189 | every interleaving keeps the invariant |
| `IpcProtocol.NoTornMessages` | multicore/IPCDescriptorTable.cpp:122-189 | under every interleaving, accepted messages are the received ones, whole and in order, then at most one in flight |
| `IpcProtocol.Ownership` | multicore/IPCDescriptorTable.cpp:122-189 | buffer and size are written only by the channel's own producer while it is free, and read only while it is busy |
| `IpcProtocol.ReadingFinishes` | multicore/IPCDescriptorTable.cpp:172-189 | a Pop left to itself delivers the message in flight and frees the channel |
| `IpcProtocol.PopDelivers` | multicore/IPCDescriptorTable.cpp:172-189 | a Pop that finds the channel busy leaves everything accepted also received |
| `IpcProtocol.CopyingFinishes` | multicore/IPCDescriptorTable.cpp:140-153 | a Push left to itself accepts its message and makes the channel busy |
| `IpcProtocol.PushSends` | multicore/IPCDescriptorTable.cpp:122-157 | a Push on a free channel adds exactly its message to the accepted ones |
| `IpcProtocol.PushThenPop` | multicore/IPCDescriptorTable.cpp:122-189 | a Push, then a Pop: exactly the pushed message comes out and the channel is free again |
| `IpcDescriptorTable.UnidirectionalIPCFifo.Push` | multicore/IPCDescriptorTable.cpp:122-157 | a message that fits is in flight afterwards and everything before it was received; a larger one is dropped |
| `IpcDescriptorTable.UnidirectionalIPCFifo.Pop` | multicore/IPCDescriptorTable.cpp:172-189 | takes out the message in flight, frees the channel, and touches nothing behind the message; returns 0 when there is none |
| `IpcDescriptorTable.DescriptorTable.AllocateChannel` | multicore/IPCDescriptorTable.cpp:60-83 | hands out the channels in order and refuses when all are taken; the FIFOs get the two sizes they were asked for, opposite directions, and channel i the masks 2^i and 2^(16+i); earlier channels keep their names, sizes and masks |
| `IpcDescriptorTable.DescriptorTable.FindChannel` | multicore/IPCDescriptorTable.cpp:86-103 | the first allocated channel of the name, or none exactly when there is none |
| `IpcDescriptorTable.DescriptorTable.FlagsAreDistinct` | multicore/IPCDescriptorTable.h:55-63 | no two FIFOs of the table share a flag, and set and clear masks name the same channel |
| `LogProtocol.LogStepKeeps` | multicore/MulticoreLogDevice.cpp:46-80 | printing, flushing and every mailbox step keep the account of every core's characters |
| `LogProtocol.LogExecuteKeeps` | multicore/MulticoreLogDevice.cpp:46-80 | so does every interleaving of them |
| `LogProtocol.NothingLost` | multicore/MulticoreLogDevice.cpp:46-80 | under every interleaving, per core: received characters, then those in flight, then those not yet sent, are exactly the printed ones in order |
| `LogProtocol.PrintHasRoom` | multicore/MulticoreLogDevice.cpp:46-60 | the write pointer is below the buffer size whenever a character can be printed |
| `LogProtocol.FlushesWhen` | multicore/MulticoreLogDevice.cpp:57-59 | after a character that is not the buffer's last, a flush happens exactly for a newline with less than 128 bytes free |
| `LogProtocol.FlushIsDelivered` | multicore/MulticoreLogDevice.cpp:67-80 | a flush is handed to the mailbox exactly when the mailbox is at least as large; otherwise its characters are gone |
| `LogProtocol.FlushCanBeLost` | multicore/MulticoreLogDevice.cpp:67-80 | two characters over a mailbox of one byte are never sent |
| `MulticoreLogDevice.LogDevice.Flush` | multicore/MulticoreLogDevice.cpp:67-80 | the buffer's characters become one accepted message (none when empty), and the pointer goes back to 0 |
| `MulticoreLogDevice.LogDevice.PrintBinary` | multicore/MulticoreLogDevice.cpp:46-60 | one more character is printed on this core; it flushes exactly when the buffer is full or the character is a newline and the buffer is nearly full; other cores are untouched |
| `MulticoreLogDevice.LogDevice.OthersStayAccounted` | multicore/MulticoreLogDevice.cpp:67-80 | an operation of one core keeps the account of the others |
| `SupervisorSpec.FirstUnready` | supervisor/PowerResetSupervisor.cpp:141-157 | the least device below the index that reads unready, or the index |
| `SupervisorSpec.PanicIsOff` | supervisor/PowerResetSupervisor.cpp:36-55 | after a panic every rail is off and every reset asserted, whatever state it found |
| `SupervisorSpec.PowerOffIsOff` | supervisor/PowerResetSupervisor.cpp:92-113 | after PowerOff every rail is off and every reset asserted |
| `SupervisorSpec.PowerOnResult` | supervisor/PowerResetSupervisor.cpp:63-87 | PowerOn leaves every rail on and line 0 released, or everything off again |
| `SupervisorSpec.PowerOnWhileOff` | supervisor/PowerResetSupervisor.cpp:63-87 | called while off, it keeps the reset order whether or not the rails come up |
| `SupervisorSpec.PowerOnKeeps` | supervisor/PowerResetSupervisor.cpp:63-87 | called in any state, it leaves the power properly on or properly off |
| `SupervisorSpec.PowerOnOrder` | supervisor/PowerResetSupervisor.cpp:63-87 | called in any state, once the rails are up the resets are in order exactly if no line after the first was released; while on, exactly if the sequence is at its first line or has no other |
| `SupervisorSpec.PowerOnCanReorder` | supervisor/PowerResetSupervisor.cpp:63-87 | two released lines: after a second PowerOn the later one is still released |
| `SupervisorSpec.AdvanceKeeps` | supervisor/PowerResetSupervisor.cpp:123-139 | releasing the next line keeps rails and released lines as they must be, and the order if there was one; the index moves by one exactly when the awaited device is ready |
| `SupervisorSpec.RollbackKeeps` | supervisor/PowerResetSupervisor.cpp:141-157 | backing up keeps the order, goes to the least unready device, and leaves only ready devices below the index |
| `SupervisorSpec.UpdateKeeps` | supervisor/PowerResetSupervisor.cpp:121-158 | one pass keeps the order; all devices below the new index read ready in it; the index moves on by at most one and only past a ready device |
| `SupervisorSpec.MonitorKeeps` | supervisor/PowerResetSupervisor.cpp:166-192 | the power stays on exactly when the reading is good or the rail is neither critical nor an input, and then only the monitor index changes; it goes round |
| `SupervisorRuns.MonitorEvents` | supervisor/PowerResetSupervisor.cpp:166-192 | event by event: a bad critical rail drops every rail, last first, and then asserts every reset; a bad input rail asserts every reset before any rail drops; any other reading causes no event |
| `SupervisorRuns.MonitorOrder` | supervisor/PowerResetSupervisor.cpp:166-192 | no reset has been asserted while a rail is still on after a bad critical rail, and no rail has dropped while a reset is still released after a bad input rail |
| `SupervisorRuns.PanicOrder` | supervisor/PowerResetSupervisor.cpp:36-55 | a panic drops every rail, last first, before any reset is asserted |
| `SupervisorRuns.UpdateEvents` | supervisor/PowerResetSupervisor.cpp:121-158 | event by event: the release of the next line if the awaited device is ready, then the assertion of every line after the least unready one |
| `SupervisorRuns.PowerOnEvents` | supervisor/PowerResetSupervisor.cpp:63-87 | event by event: rails on in order; then line 0 released, or, at the first rail that does not come up, all off again |
| `SupervisorSpec.IterationKeeps` | supervisor/PowerResetSupervisor.h:67-74 | one pass of the main loop keeps the power properly on or off, and the order of the resets if there was one |
| `SupervisorRuns.PassParts` | supervisor/PowerResetSupervisor.h:67-74 | a pass is its reset half then its monitor half, with the events of both |
| `SupervisorRuns.RunHolds` | supervisor/PowerResetSupervisor.cpp:36-192 | after any calls in any order the recorded events account for every line; with the power off every rail is off and every reset asserted, with the power on every rail is on |
| `SupervisorRuns.RunKeeps` | supervisor/PowerResetSupervisor.cpp:36-192 | over every run that turns the power on only while it is off, the resets stay in order |
| `SupervisorRuns.RunInOrder` | supervisor/PowerResetSupervisor.cpp:36-192 | over every run, whatever is called when (PowerOn twice included), at every single event the enabled rails are a prefix of the rail sequence |
| `SupervisorRuns.PowerOffOrder` | supervisor/PowerResetSupervisor.cpp:92-113 | PowerOff asserts every reset, last first, before any rail drops, then drops the rails, last first |
| `SupervisorRuns.ResetsFinish` | supervisor/PowerResetSupervisor.cpp:121-158 | with good rails and ready devices the sequence is done after exactly as many passes as there are lines left, not before |
| `SupervisorRuns.BadRailStopsPower` | supervisor/PowerResetSupervisor.cpp:166-192 | a critical or input rail that stays bad turns the power off within as many passes as there are rails |
| `SupervisorRuns.RailsAskedAt` | supervisor/PowerResetSupervisor.cpp:166-192 | the rails that consecutive monitor calls look at, whatever they answer, go round from the monitor index |
| `SupervisorRuns.EachRailOnce` | supervisor/PowerResetSupervisor.cpp:166-192 | any N consecutive monitor calls, whatever they answer, look at each of the N rails exactly once |
| `SupervisorDescriptors.RailDescriptor.TurnOn` | supervisor/RailDescriptor.h:106-166 | the rail is enabled; with feedback the attempt succeeds exactly when the last reading is good, all earlier ones being bad and a tick apart; without, it succeeds after the full delay |
| `SupervisorDescriptors.DelayExactly` | supervisor/ResetDescriptor.h:127-140 | within one counter period, the delay test passes exactly when more than the delay has passed or the 32-bit sum of start and delay wraps |
| `SupervisorDescriptors.DelaySound` | supervisor/ResetDescriptor.h:127-140 | at any later time, a passed test means that more than the delay has passed, or that the sum wraps |
| `SupervisorDescriptors.DelayCanVanish` | supervisor/ResetDescriptor.h:127-140 | a 200-tick delay started 100 ticks before the counter wraps is over at once; started at 0 it lasts |
| `SupervisorDescriptors.ResetDescriptor.Deassert` | supervisor/ResetDescriptor.h:119-125 | the line is released and its delay starts now |
| `SupervisorDescriptors.ResetDescriptor.IsReady` | supervisor/ResetDescriptor.h:127-140 | a delay line that reports ready was released for more than its delay, or its sum wrapped; once over it stays over |
| `PowerResetSupervisor.Supervisor.PanicShutdown` | supervisor/PowerResetSupervisor.cpp:36-55 | the loops over the objects leave the lines, flags and events of the specification, asking no device anything |
| `PowerResetSupervisor.Supervisor.TurnOnRails` | supervisor/PowerResetSupervisor.cpp:67-76 | rails are enabled in order up to the first that does not come up |
| `PowerResetSupervisor.Supervisor.PowerOn` | supervisor/PowerResetSupervisor.cpp:63-87 | at any time: the lines, flags and events of the specification, for the number of rails that really came up; the main loop can go on afterwards |
| `PowerResetSupervisor.Supervisor.PowerOff` | supervisor/PowerResetSupervisor.cpp:92-113 | the lines, flags and events of the specification, asking no device anything, and ten ticks for each rail |
| `PowerResetSupervisor.Supervisor.NextLine` | supervisor/PowerResetSupervisor.cpp:126-138 | the next line is released only after the delay of the one before it |
| `PowerResetSupervisor.Supervisor.DelaysKept` | supervisor/ResetDescriptor.h:119-140 | while the power is on, each delay line before the awaited one had been released for more ticks than its delay when the next one was, unless its 32-bit sum wrapped |
| `PowerResetSupervisor.Supervisor.AdvanceResets` | supervisor/PowerResetSupervisor.cpp:123-139 | only the awaited device is asked, and its answer decides |
| `PowerResetSupervisor.Supervisor.CheckEarlier` | supervisor/PowerResetSupervisor.cpp:141-157 | the devices below the index are asked in order up to the first unready one, which decides |
| `PowerResetSupervisor.Supervisor.UpdateResets` | supervisor/PowerResetSupervisor.cpp:121-158 | the specified update for the answers the devices gave, each asked exactly as often as the specification says |
| `PowerResetSupervisor.Supervisor.MonitorRails` | supervisor/PowerResetSupervisor.cpp:166-192 | exactly the rail at the monitor index is asked, and its answer decides as specified; the orderly shutdown takes at least ten ticks per rail |
| `PowerResetSupervisor.Supervisor.Iteration` | supervisor/PowerResetSupervisor.h:67-74 | after any calls: the specified pass for the answers given, invariant, pacing and any order kept; a pass while off does nothing |
| `ScalarAccumulator.ValueUpdate` | fpga/AcceleratedCryptoEngine.cpp:416-423 | adding to one limb adds that much times the limb's weight to the number |
| `ScalarAccumulator.TermAdded` | fpga/AcceleratedCryptoEngine.cpp:422 | one product term, put at limb i+j, extends the partial sum by one digit |
| `ScalarAccumulator.AddRow` | fpga/AcceleratedCryptoEngine.cpp:421-422 | the inner loop adds k[i] * 256^i * a, within the limb bound, in bounds, never touching the last limb |
| `ScalarAccumulator.Accumulate` | fpga/AcceleratedCryptoEngine.cpp:416-423 | the limbs stand for exactly r + k * a; each is at most 255 + 32*255*255 and the last stays 0 |
| `IperfJson.ParseFields` | services/Iperf3Server.cpp:336-416 | the loop with its two 32-byte buffers and one index computes the parse, and never indexes past them |
| `IperfJson.RoundTrip` | services/Iperf3Server.cpp:336-416 | printing any non-empty list of printable fields and parsing gives them back in order, whatever follows |
| `IperfJson.ClosedIsPrinted` | services/Iperf3Server.cpp:336-416 | a text read to a closing brace begins with the printed form of some printable fields |
| `IperfJson.ParsedExactly` | services/Iperf3Server.cpp:336-416 | a text is read to a closing brace with given fields exactly when it begins with them, printed |
| `IperfJsonErrors.DroppedExactly` | services/Iperf3Server.cpp:336-416 | a text drops the connection exactly when whole fields are followed by a missing quote, a name or value of 32 characters that goes on, or a missing colon |
| `IperfJsonErrors.UnclosedKeeps` | services/Iperf3Server.cpp:336-416 | a text that just ends has given the whole fields it begins with, and there is not one more |
| `Iperf3Server.FieldsKeepSession` | services/Iperf3Server.cpp:453-518 | parameters change nothing but the parameters |
| `Iperf3Server.LastFieldWins` | services/Iperf3Server.cpp:453-518 | mode, direction, length, time and bandwidth are those of the last field that sets them, else the defaults |
| `Iperf3Server.AtoiDecimal` | services/Iperf3Server.cpp:485-515 | an int printed in decimal is read back as itself, whatever follows its digits |
| `IperfWire.SwitchByName` | services/Iperf3Server.cpp:453-483 | a field named udp or reverse with the text true or false sets that switch and nothing else |
| `IperfWire.NumberByName` | services/Iperf3Server.cpp:485-515 | a field named time, len or bandwidth with the decimals of an int sets that number and nothing else |
| `IperfWire.OtherValues` | services/Iperf3Server.cpp:456-476 | any other text leaves the switch as it is |
| `IperfWire.OtherNames` | services/Iperf3Server.cpp:453-518 | a field of any other name changes nothing |
| `IperfWire.SignedNumbers` | services/Iperf3Server.cpp:485-515 | signs and leading spaces of numbers are read as atoi reads them |
| `Iperf3Server.PrintedParams` | services/Iperf3Server.cpp:310-451 | a printed parameter message whose numbers are ints is accepted exactly when it asks for UDP, reverse mode and a block below 1480, and what follows it stays buffered |
| `Iperf3Server.SettleThenMore` | services/Iperf3Server.cpp:77-134 | while a connection is set up, bytes that come later do what they would have done with the earlier ones, and a dropped connection stays dropped |
| `Iperf3Server.SegmentsDoNotMatter` | services/Iperf3Server.cpp:77-134 | the cookie and the parameters may be split into segments in any way that fits the buffer: the connection ends up the same |
| `Iperf3Server.SetupInSegments` | services/Iperf3Server.cpp:77-134 | a cookie and printed parameters, in any segments, leave exactly the configured connection or a dropped one |
| `IperfWire.SetupByName` | services/Iperf3Server.cpp:77-134 | for all ints: a client that sends its cookie and the fields udp, reverse, time, len and bandwidth as texts, in any segments, waits for its stream with exactly those numbers if it asks for UDP, reverse mode and a length below 1480, and is dropped otherwise |
| `Iperf3Server.TestEndsExactly` | services/Iperf3Server.cpp:118-121 | while a test runs, for all non-empty segments that fit: it ends exactly when TEST_END is among the first bytes, as many as there are segments |
| `Iperf3Server.OneBytePerSegment` | services/Iperf3Server.cpp:118-121 | TEST_END behind another byte is missed in one segment and seen in two |
| `Iperf3Server.Server.Clear` | services/Iperf3Server.h:62-76 | the entry is as if never used; no other changes |
| `Iperf3Server.Server.OnConnectionAccepted` | services/Iperf3Server.cpp:53-61 | an unused entry becomes a fresh connection, if there is one; no other changes |
| `Iperf3Server.Server.OnConnectionClosed` | services/Iperf3Server.cpp:66-72 | the socket's entry is cleared, if it has one; no other changes |
| `Iperf3Server.Server.OnRxCookie` | services/Iperf3Server.cpp:224-241 | waits for 37 bytes, then removes exactly those |
| `Iperf3Server.Server.OnRxParamExchange` | services/Iperf3Server.cpp:310-451 | waits for a whole message; the connection is then configured for UDP, reverse mode and a short block, or dropped |
| `Iperf3Server.Server.OnRxEnd` | services/Iperf3Server.cpp:243-305 | ends the test on TEST_END only; the reported packets are the packets sent, modulo 2^32 |
| `Iperf3Server.Server.Handle` | services/Iperf3Server.cpp:91-133 | the dispatch loop ends and does everything the buffered bytes allow |
| `Iperf3Server.Server.OnRxData` | services/Iperf3Server.cpp:77-134 | only the socket's connection changes, as one delivered segment changes it; it is dropped exactly when the segment does not fit its buffer or the parameters are bad; a report is sent exactly when a test ends, and counts the packets sent, which no segment changes; the invariant of all connections is kept |
| `Iperf3Server.Server.OnRxUdpData` | services/Iperf3Server.cpp:147-186 | exactly the first matching connection that waits for its stream starts its test |
| `Iperf3Server.Server.SendDataOnStream` | services/Iperf3Server.cpp:553-591 | with room, exactly one packet with the next sequence number; without, nothing |
| `Iperf3Server.Server.Iteration` | services/Iperf3Server.cpp:523-548 | up to the first unused entry, each running test sends exactly one packet if there is room, and a started test is running afterwards; the numbers sent stay 1, 2, 3, ... |
| `Iperf3Server.ServedExactly` | services/Iperf3Server.cpp:526-529 | with room for a packet, a running test is served exactly if every entry before it is in use |
| `Iperf3Server.StarvedEntry` | services/Iperf3Server.cpp:526-529 | two entries, the first closed: the running test of the second gets nothing |
| `Bootloader.FormatBuildID` | core/main.cpp:292-301 | characters 2i and 2i+1 are lower-case hexadecimal digits that spell id byte i, for all 20 of them, then a NUL |
| `Bootloader.FormatInjective` | core/main.cpp:292-301 | two formatted ids are equal exactly when the 20 id bytes are |
| `Bootloader.FormatReadsBack` | core/main.cpp:292-301 | of every formatted id, 16 times the value of the digit at 2i plus that of the digit at 2i+1 is byte 16+i of the build id |
| `Bootloader.CompareIsEquality` | bootloader/bootloader.cpp:187-196 | string comparison with a stored version of the right length compares the whole id |
| `Bootloader.Boot.IsAppUpdated` | bootloader/bootloader.cpp:167-207 | the image counts as updated exactly when it has a build id and no equal one is stored |
| `Bootloader.Boot.ValidateAppPartition` | bootloader/bootloader.cpp:82-165 | valid exactly when not blank and trusted or of the stored checksum; the store changes only for a trusted image, by each write that succeeds |
| `Bootloader.Boot.MainLoop` | bootloader/bootloader.cpp:303-397 | the decision and the store after it; a launch with a successful checksum write leaves the partition's checksum stored |
| `Bootloader.ResetExactly` | bootloader/bootloader.cpp:303-397 | the decision in full, in terms of the image, the store and the reset reason alone, and what is stored |
| `Bootloader.LaunchStores` | bootloader/bootloader.cpp:82-165 | whatever was stored, a launch leaves the image's checksum stored, and its id if it has one |
| `Bootloader.StoreFollowsLaunch` | bootloader/bootloader.cpp:303-397 | over every run from every store: however many resets ending in firmware update follow, the store describes the image launched last |
| `Bootloader.UnchangedRelaunches` | bootloader/bootloader.cpp:303-397 | after any run from any store, the image launched last is launched again with no store write |
| `Bootloader.CorruptedGoesToDfu` | bootloader/bootloader.cpp:303-397 | after any run, the build id launched last with another checksum goes to firmware update, whatever the reset |
| `Bootloader.CrashedNeedsNewImage` | bootloader/bootloader.cpp:370-388 | after a crash, for every store: launched exactly when the image is not blank and has a build id other than the stored one |
| `Bootloader.NoCrashLoop` | bootloader/bootloader.cpp:370-388 | after any run, a crash is followed by a launch exactly if the image has a build id other than that of the image launched last |
| `Bootloader.RelaunchAfterWrites` | bootloader/bootloader.cpp:141-147 | when store writes may fail: a launched image is refused next time exactly when it was new and its id was stored but its checksum was not, over another image's |
| `Bootloader.GoodImageRefused` | bootloader/bootloader.cpp:141-147 | an image with checksum 2 over a stored checksum 1, whose own checksum fails to be stored |
| `SSHKeyManager.TableLists` | tcpip/SSHKeyManager.cpp:180-243 | the map the slots stand for holds every used slot's key once, with its nickname |
| `SSHKeyManager.TableSet` | tcpip/SSHKeyManager.cpp:194-210 | writing one slot with a key no other slot holds is a map update |
| `SSHKeyManager.TableCleared` | tcpip/SSHKeyManager.cpp:223-227 | clearing a slot removes its key from the map and keeps the table tidy, holes included |
| `SSHKeyManager.LookupIsMatch` | tcpip/SSHKeyManager.cpp:235-243 | on a tidy table key bytes match exactly in the slot that holds the key |
| `SSHKeyManager.AddRefines` | tcpip/SSHKeyManager.cpp:180-218 | adding is a map update; it fails exactly when the key is absent and no slot is free |
| `SSHKeyManager.AddKeepsTidyExactly` | tcpip/SSHKeyManager.cpp:180-218 | an added entry keeps the table tidy exactly when it has a name and a key other than zeros (or neither) |
| `SSHKeyManager.KeyManager.AddPublicKey` | tcpip/SSHKeyManager.cpp:180-218 | writes exactly the one slot the scan selects, with the description, or its first 30 bytes if it is longer, as nickname; on a tidy table that is the map update |
| `SSHKeyManager.KeyManager.RemovePublicKey` | tcpip/SSHKeyManager.cpp:223-227 | clears exactly that slot, on a tidy table removing its key from the map; a number outside the table changes nothing |
| `SSHKeyManager.KeyManager.FindKey` | tcpip/SSHKeyManager.cpp:235-243 | the first slot with the key's bytes; found exactly when the map has the key |
| `SSHKeyManager.NamesDiffer` | tcpip/SSHKeyManager.cpp:57 | different slots have different object names |
| `SSHKeyManager.NameIs` | tcpip/SSHKeyManager.cpp:57 | the object name of slot i is ssh.authkey and the two decimal digits of i |
| `SSHKeyManager.KeyManager.CommitToKVS` | tcpip/SSHKeyManager.cpp:82-117 | every slot reads back from the store; an object exists for exactly the used slots and those that had one; other objects are unchanged; unused slots are cleared |
| `SSHKeyManager.KeyManager.LoadFromKVS` | tcpip/SSHKeyManager.cpp:43-80 | each slot becomes its stored object, or empty |
| `SSHKeyManager.NamelessKey` | tcpip/SSHKeyManager.cpp:187-210 | a key added to an empty table without a name is found in a slot that counts as free |
| `SSHKeyManager.Restart` | tcpip/SSHKeyManager.cpp:43-117 | committing, then loading into a new manager over the same store, restores the slots; a tidy table is restored as it was before the commit |
| `Ipv4Address.ScanSound` | cli/CommonCommands.cpp:421-438 | a text the scan accepts is its digit runs joined by the separators |
| `Ipv4Address.ScanComplete` | cli/CommonCommands.cpp:421-438 | every such text is accepted, with exactly those runs |
| `Ipv4Address.ParseIPAddressWithSubnet` | cli/CommonCommands.cpp:414-457 | succeeds exactly on five runs whose 32-bit values are in range, and returns their values and the mask |
| `Ipv4Address.Validate` | cli/CommonCommands.cpp:440-456 | the checks after the loop accept exactly five fields in range |
| `Ipv4Address.AcceptsExactly` | cli/CommonCommands.cpp:433-449 | a split text is five numbers truly in range exactly when the parser takes it, no run is empty and none reaches 2^32 |
| `Ipv4Address.OverflowWraps` | cli/CommonCommands.cpp:414-457 | 4294967297.0.0.0/24 is taken for 1.0.0.0/24 |
| `Ipv4Address.EmptyRunsAreZero` | cli/CommonCommands.cpp:414-457 | .../24 is taken for 0.0.0.0/24 |
| `Ipv4Address.PrintedParses` | cli/CommonCommands.cpp:414-457 | printing any address and prefix length and parsing gives them back |
| `Ipv4Address.MaskIs` | cli/CommonCommands.cpp:455 | the mask of length n is 2^32 - 2^(32-n) |
| `Ipv4Address.MaskOctets` | cli/CommonCommands.cpp:469-473 | octet by octet, the first n bits of the netmask are set: 255, 0, or 256 - 2^(8j+8-n) where the prefix ends |
| `Ipv4Address.BroadcastOctets` | cli/CommonCommands.cpp:475-477 | octet by octet, the broadcast address keeps the prefix and has every bit behind it set |
| `Ipv4Address.IpConfig.SetIPAddress` | cli/CommonCommands.cpp:459-478 | sets address, netmask and broadcast from a text that parses, and changes nothing otherwise |
| `Ipv4Address.OrOfOctets` | cli/CommonCommands.cpp:475-477 | or-ing octet by octet is or-ing the 32-bit numbers |
| `Ipv4Address.BroadcastIsLast` | cli/CommonCommands.cpp:469-477 | the addresses sharing the prefix are one block of 2^(32-n), and the broadcast address is its last (section 3.1 of RFC 4632) |

## Left out

- FPGAFirmwareUpdater.Updater.OnRxData: requires that no chunk ends inside the start record, because the code then removes bytes that are not there; the write pointer is unbounded, not 32 bits wide.
- Iperf3Server.Server.OnRxParamExchange: message lengths from 0xfffffffc on are excluded; the code's 32-bit sum wraps and it reads past its buffer.
- Iperf3Server.Atoi32: outside the range of int, where C leaves atoi undefined, the number is taken modulo 2^32; no result about printed numbers relies on it.
- Iperf3Server.Server.OnRxData: an empty segment during a test is excluded when nothing is buffered; the code then reads a byte that is not there.
- Iperf3Server.Server.OnConnectionAccepted: the allocation of an entry belongs to TCPServer, which is not part of this model; the first unused entry is taken.
- SupervisorDescriptors.RailDescriptor.IsPowerGood: a voltage measurement is an arbitrary answer; limits and floating point are not modelled.
- PowerResetSupervisor.Supervisor.PanicShutdown: the default OnFault, which never returns, is a hook that returns.
- MulticoreLogDevice.LogDevice.constructor: every core has a mailbox at least as large as its log buffer; a core without a channel, whose characters are dropped, and the read side are not modelled.
- IpcDescriptorTable.UnidirectionalIPCFifo.Push: waiting ends because the other core is assumed to pop within a bound that is a field of the model; IpcProtocol has no such assumption.
- SSHKeyManager.KeyManager.AddPublicKey: starts after the key blob has been decoded and checked.
- NUM_IPC_CHANNELS is not defined in the repository; the table has any number of channels up to 16, the flags one direction has.
- KVS_NAMELEN is not defined in the repository; nicknames of 30 characters are assumed.
- PowerResetSupervisor.Supervisor.constructor: rail and reset sequences are not empty; the code would index or divide by zero on empty ones.
- CircularFIFO is not part of the repository; ByteFifo is its interface with an all-or-nothing Push and any capacity.
- Flash chip timing and write semantics below the level of bytes; flash faults are arbitrary outcomes of writes and erases, and reads return what is stored.
- Weak memory, caches and barriers of the cross-core code: steps are sequentially consistent, the hardware flags a set.
- The four-field ParseIPAddress, whose loop is part of the five-field one.
- The cookie's contents, the state bytes sent to the client, and the text of the iperf report.
- ECC faults during the bootloader's checksum, the checksum and key-value store internals, and the firmware update flow itself.
- modL, reduce and the hashing around the accumulated sum.
- Text printed to consoles and logs, hardware identification tables, clock and board setup, sensors, NTP, register drivers.
