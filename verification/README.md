# QUniBone device models

The QUniBone plugs into a PDP-11 and plays its peripherals.  These files model the
device logic of the repository that has the most state - the MSCP port and server,
the RL11 with its RL01/RL02 drives, the KE11-A arithmetic element, the RK11, the
RX01 floppy box, the disk images behind all of them, and the absolute loader for
paper tapes - and prove what a PDP-11 program relies on when it uses them.

Every controller comes in up to three parts.  A *class* has the fields of the
original object and methods that change them step by step, loops included.  A
*pure function* on a snapshot of that state describes the same step; the methods
are proved equal to it.  *Lemmas* about the function then state what whole commands,
runs and interleavings do, for all inputs.

| files | subject |
|---|---|
| `Words.dfy` | C integers: wrap-around, truncating division, shifts, inclusive or |
| `StorageImage.dfy`, `ImageOfWords.dfy` | growing image files, block clearing, geometry, images as words |
| `HostMemory.dfy` | DMA, with a time-out behind the end of memory |
| `MscpMessages.dfy`, `MscpProtocol.dfy` | command and response rings between host and port, in every interleaving |
| `MscpTransport.dfy` | the steps of the rings against the descriptors in memory |
| `MscpPolling.dfy`, `MscpServer.dfy` | the polling thread against Reset and InitPolling; the locked regions and the response as methods |
| `UdaPort.dfy` | initialization handshake, layout of the communications area, descriptors |
| `MscpDrive.dfy` | block reads and writes, range checks |
| `Rl0102.dfy`, `RlCrc.dfy`, `RlPlatter.dfy` | the RL drive, its CRC and its rotating platter |
| `Rl11Transfer.dfy`, `Rl11Commands.dfy`, `Rl11.dfy` | RL11 commands: step function, theorems, class |
| `Rk11Transfer.dfy`, `Rk11Commands.dfy`, `Rk11.dfy` | RK11 commands: step function, theorems, class |
| `Rx01Program.dfy`, `Rx01Commands.dfy`, `Rx01.dfy` | RX01 microprogram: events, theorems, classes |
| `Ke11.dfy` | divide, multiply, normalise and shifts on AC:MQ |
| `PaperTape.dfy` | the tape format and its loader |

Conventions: time delays and logging are no-ops; device registers are fields; host
memory is a map of existing words (UDA) or a sequence of words from address 0 (RL11,
RK11), and an access outside is a bus time-out; an image file is a
sequence of bytes with the fail bit of its stream.

## What the proofs found

Some properties one might expect do not hold of the code.  The model keeps the code
and the lemmas say exactly when the property holds:

- A flagged response can come without a transition interrupt when the host empties
  the response ring between the port's look at the previous slot and the hand-over
  (`MscpProtocol.TransitionCanBeMissed`), and a flagged command when the host fills the
  command ring there (`MscpProtocol.CommandTransitionCanBeMissed`).  These are the only
  cases (`MscpProtocol.ResponseHandOver`, `MscpProtocol.CommandHandOver`).
- Reset and polling thread can wait for each other after a request that InitPolling takes
  while Reset waits or tests (`MscpPolling.RequestCanHang`), and after no other
  (`MscpPolling.NeverHangs`).  The test at uda.cpp:355 is there for that, but it is made
  outside any lock.
- A read past the end of an image file sets the fail bit of its stream, and every later
  read gives zeros until the next write (`StorageImage.ReadAfterShortRead`).  The loop that fills
  the gap behind the end of the file never ends for a gap of 2^31 bytes or more
  (`StorageImage.GapCloses`).  A run of reads and writes ends and is that of a zero-filled disk
  exactly when no data are read in that state and there is no such gap
  (`StorageImage.FileIsEndlessDisk`).  On an RX floppy, bytes written are lost to the reader
  that way (`Rx01Commands.BytesAreLost`) and in no other (`Rx01Commands.BytesComeBack`).
- The byte count check of MSCP transfers wraps at 2^32 and refuses valid transfers from
  blocks that 2^23 or more blocks follow; `MscpDrive.AcceptedExactly` says which.
- Block offsets wrap too: a write to block 2^23 or above changes the block with that number
  modulo 2^23 instead (`MscpDrive.WriteLands`, `MscpDrive.LowBlockOverwritten`).  Data areas of
  up to 2^23 blocks are safe and larger ones are not (`MscpDrive.SafeUnits`).
- On an MSCP unit that takes its size from the image, a read that is accepted but runs past
  the end of the image makes the unit look 2^32-1 blocks large.  With an RCT the sum of the sizes
  wraps: almost every later transfer is refused until a write succeeds (`MscpDrive.UnitShrinks`).
- A write accepted on an MSCP unit ends on every image if the data area has at most 2^31 bytes;
  on a new image of a larger fixed-size unit one need not (`MscpDrive.WritesEndExactly`).
- An RL WRITE CHECK reports a mismatch of the last sector it compared only
  (`Rl11Commands.WriteCheckEffect`, `Rl11Commands.EarlierMismatchIsMissed`).
- An RX seek never ends below half the normal emulation speed (`Rx01Program.SeekEnds`), and
  an RL drive never comes up to speed below a ninth (`Rl0102.SpinUpEnds`).
- A paper tape that ends with the first byte of a block header loads without an error; one that ends
  anywhere else in a block does not (`PaperTape.TruncationDetected`).
- After a DMA time-out the RK11 counts the whole sector it happened in as moved
  (`Rk11Commands.CommandEnds`).

## Model

| member | source | states |
|---|---|---|
| `MscpMessages.RespondAnswers` | 10.02_devices/2_src/mscp_server.cpp:320-368 | A response keeps the reference number of its command and carries the opcode with the END bit if some operation has that opcode, and 0x80 alone if none has; a sequential one carries 1 and at most 14 credits of the server, and credits granted and kept add up to the old balance plus the one the command used |
| `MscpMessages.EveryOperationHasItsOpcode` | 10.02_devices/2_src/mscp_server.hpp:82-98 | The opcodes that are implemented are exactly those of the fourteen operations, each its own |
| `MscpMessages.EndBitJoins` | 10.02_devices/2_src/mscp_server.cpp:338-347 | The END bit is in no implemented opcode, so joining it gives opcode+0x80 |
| `MscpMessages.TextIsRead` | 10.02_devices/2_src/mscp_server.hpp:43-70 | A message written as words, field by field and bit by bit, is the message read from them, whatever length, connection, unit, flags and parameters stand beside it |
| `MscpMessages.TextResponds` | 10.02_devices/2_src/mscp_server.cpp:320-368 | The words of a command buffer with the header of the response written over them are the text of the response to the message in that buffer |
| `MscpProtocol.ReachableInv` | 10.02_devices/2_src/uda.cpp:535-856 | In every interleaving of host and port, the slots of each ring are accounted for by one contiguous circular run of messages starting at the pointers, and no message is in two places |
| `MscpProtocol.ResponsesInOrder` | 10.02_devices/2_src/uda.cpp:535-856 | What the host has read is a prefix of the answers to what it queued: the k-th response answers the k-th command, nothing lost, repeated or reordered |
| `MscpProtocol.NothingLost` | 10.02_devices/2_src/mscp_server.cpp:169-404 | When the polling thread sleeps and no response waits, every command queued before the last request for polling has been answered and its answer read |
| `MscpProtocol.RequestsAreServed` | 10.02_devices/2_src/mscp_server.cpp:169-404 | With the host silent the port stops within a bounded number of steps, and if it then sleeps every command queued before the last request has its response in the ring |
| `MscpProtocol.CommandHandOver` | 10.02_devices/2_src/uda.cpp:615-686 | For a flagged command the transition interrupt is decided by whether the command ring was full as the port looked; when the slot comes back that is the right answer exactly unless the host filled the ring in between, whatever it did |
| `MscpProtocol.ResponseHandOver` | 10.02_devices/2_src/uda.cpp:794-856 | For a flagged response the transition interrupt is decided by whether an earlier response was unread as the port looked; at the hand-over that is the right answer exactly unless the host read the last of them in between, whatever it did |
| `MscpProtocol.TransitionCanBeMissed` | 10.02_devices/2_src/uda.cpp:794-825 | A run in which the host empties the response ring between that look and the hand-over and then gets a flagged response without an interrupt |
| `MscpProtocol.CommandTransitionCanBeMissed` | 10.02_devices/2_src/uda.cpp:615-686 | A run in which the host fills the command ring between that look and the hand-over and gets no interrupt for a flagged command |
| `MscpTransport.HandshakeStartsProtocol` | 10.02_devices/2_src/uda.cpp:209-323 | A completed handshake whose rings lie in memory leaves exactly the rings, pointers and lengths from which the step system starts |
| `MscpTransport.NothingEndsScan` | 10.02_devices/2_src/uda.cpp:535-560 | Rings in memory and rings of the step system agreeing, GetNextCommand finds nothing exactly when the scan of the step system ends |
| `MscpTransport.FetchIsTaken` | 10.02_devices/2_src/uda.cpp:535-693 | Without interference the fetching steps of the step system take the command GetNextCommand takes, decide alike about the interrupt and leave rings that agree again |
| `MscpTransport.FetchReadsMessage` | 10.02_devices/2_src/uda.cpp:535-693 | If the port owns the next command slot and the words of a message lie in memory from four bytes before its envelope on, GetNextCommand returns those words and the step system fetches the message in them |
| `MscpTransport.HostQueuesMessage` | 10.02_devices/2_src/uda.cpp:535-693 | The host writing the words of a message before the envelope of its next slot and setting Ownership is the queueing step of the step system; the words lie in memory for FetchReadsMessage afterwards |
| `MscpTransport.PostIsPosted` | 10.02_devices/2_src/uda.cpp:701-856 | For a response buffer outside the communications area and without interference, the posting steps find room exactly when PostResponse does, decide alike about the interrupt and leave rings that agree again |
| `MscpTransport.HostReadsMessage` | 10.02_devices/2_src/uda.cpp:701-856 | For a response buffer in memory and outside the communications area, the message the host finds at the envelope of the slot posted into is the response, and the step system gives it the same one |
| `MscpProtocol.PreviousSlot` | 10.02_devices/2_src/uda.cpp:615-653 | The 32-bit unsigned remainder (pointer - 1) % length is the slot before the pointer, for every pointer including 0, because lengths are powers of two |
| `MscpProtocol.SlotsDiffer` | 10.02_devices/2_src/uda.cpp:400-401 | Messages less than a ring length apart never share a slot |
| `MscpProtocol.CreditsConserved` | 10.02_devices/2_src/mscp_server.cpp:349-375 | Host credits, commands in flight, credits in unread responses and the credits of the server always add up to the starting credits plus one |
| `MscpProtocol.AlwaysRoom` | 10.02_devices/2_src/uda.cpp:701-760 | With at least h+1 response slots a host that starts with h credits and obeys them never drives the port into its no-room exit |
| `MscpPolling.StepKeepsInv` | 10.02_devices/2_src/mscp_server.cpp:169-206 | Every step of poller, Reset and InitPolling keeps: a blocked poller means state Wait, a waiting Reset owns the state variable, commands at hand belong to the present epoch |
| `MscpPolling.NoRequestLost` | 10.02_devices/2_src/mscp_server.cpp:1170-1181 | While a poll request has not led to a scan of the ring, the thread is neither blocked nor about to be |
| `MscpPolling.NoStaleResponse` | 10.02_devices/2_src/mscp_server.cpp:1137-1168 | After Reset has returned no response is posted for a command fetched before it |
| `MscpPolling.ResetIsReleased` | 10.02_devices/2_src/mscp_server.cpp:387-404 | A waiting Reset never faces a blocked poller; at most four steps of the poller, whatever happens in between, release it |
| `MscpPolling.NeverHangs` | 10.02_devices/2_src/mscp_server.cpp:1137-1181 | In no run do Reset and poller wait for each other if requests spare a Reset that waits or tests, whenever else they come |
| `MscpPolling.RequestCanHang` | 10.02_devices/2_src/mscp_server.cpp:1137-1181 | In every state such a run can reach, a request can make Reset and poller wait for each other, without a further request of that kind, if and only if it comes while Reset waits or tests |
| `MscpPolling.ResetHangsWithoutGuard` | 10.02_devices/2_src/uda.cpp:355-359 | An instance: a run from the start in which a request during Reset hangs the two |
| `MscpServer.Server.Respond` | 10.02_devices/2_src/mscp_server.cpp:320-368 | The message turned into its response in place, which answers it as above: end code, status, granted credits, and the credits the server keeps |
| `MscpServer.Server.BeginPoll` | 10.02_devices/2_src/mscp_server.cpp:179-206 | The locked region at the top of Poll is the step of the polling model; a scan begins with an empty queue |
| `MscpServer.Server.Fetched` | 10.02_devices/2_src/mscp_server.cpp:208-228 | A message joins the queue at its end, an error empties it, either way one step of the polling model |
| `MscpServer.Server.NextMessage` | 10.02_devices/2_src/mscp_server.cpp:233-236 | Commands leave the queue in the order of the ring, none while a Reset waits |
| `MscpServer.Server.EndPoll` | 10.02_devices/2_src/mscp_server.cpp:387-404 | The locked region at the bottom of Poll is the step of the polling model; a waiting Reset is told |
| `MscpServer.Server.InitPolling` | 10.02_devices/2_src/mscp_server.cpp:1170-1181 | At any time a request is the step of the polling model; outside a Reset it keeps the invariant of that model |
| `MscpServer.Server.BeginReset` | 10.02_devices/2_src/mscp_server.cpp:1137-1150 | Reset waits exactly if the thread is not asleep, and then owns the state |
| `MscpServer.Server.EndReset` | 10.02_devices/2_src/mscp_server.cpp:1150-1168 | When Reset returns, no message of before is queued or being posted, and the credits are the initial ones |
| `UdaPort.HandshakeCompletes` | 10.02_devices/2_src/uda.cpp:209-323 | For a host that writes SA only after the matching step bit, reaching Complete means ring lengths, vector, interrupt enable, purge and ring base are those its three words encode, and memory differs from before by the cleared communications area only |
| `UdaPort.HandshakeEnds` | 10.02_devices/2_src/uda.cpp:209-323 | With a host that sets GO every run completes with its ninth event, and before it is over either the worker has a step to do or the host may write |
| `UdaPort.HandshakeWaits` | 10.02_devices/2_src/uda.cpp:451-490 | In no run does the port complete unless the host sets GO in step 4 |
| `UdaPort.HandshakeAnnounced` | 10.02_devices/2_src/uda.cpp:209-323 | In every run of the handshake SA shows the step bit of the step it is in, with the 22-bit flag, the upper and the lower half of the first word of the host, or the model number |
| `UdaPort.WriteIsAwaited` | 10.02_devices/2_src/uda.cpp:363-495 | A host that waits for the step bit never writes SA while the worker still has a step to do |
| `UdaPort.RingBaseJoin` | 10.02_devices/2_src/uda.cpp:424-444 | Joining the two halves with inclusive or is the sum of the low word without bit 0 and the shifted high word |
| `UdaPort.ClearedLayout` | 10.02_devices/2_src/uda.cpp:283-313 | After step 4 the port owns every response descriptor, the host every command descriptor, the header is zero and every word outside the area is as before |
| `UdaPort.DescriptorsTile` | 10.02_devices/2_src/uda.cpp:972-991 | Every word from the ring base to the end of the area lies in exactly the response or command descriptor its address says |
| `UdaPort.DescriptorsApart` | 10.02_devices/2_src/uda.cpp:972-991 | Different descriptors do not overlap, and the response ring lies below the command ring |
| `UdaPort.HandedBackMeaning` | 10.02_devices/2_src/uda.cpp:658-672 | Handing a descriptor back sets Flag, clears Ownership and keeps the envelope address |
| `UdaPort.TakenMeaning` | 10.02_devices/2_src/uda.cpp:658-686 | Taking a command changes its own descriptor and no other and moves the pointer on by one slot; beside that at most the interrupt indicator of the header is written |
| `UdaPort.TakenMarks` | 10.02_devices/2_src/uda.cpp:672-686 | The transition indicator for commands is 1 in the word four bytes before the rings, and the pointer wraps behind the last slot |
| `UdaPort.PostedMarks` | 10.02_devices/2_src/uda.cpp:837-852 | The indicator for responses is 1 in the word two bytes before the rings, and the pointer wraps behind the last slot |
| `UdaPort.CommandFound` | 10.02_devices/2_src/uda.cpp:535-693 | Words that are a message and lie in memory from four bytes before the envelope of the next command descriptor on are the command taken if the port owns the descriptor; its flag and the ownership of the slot before decide about the interrupt |
| `UdaPort.NoCommandFound` | 10.02_devices/2_src/uda.cpp:535-693 | Nothing is found exactly if the port does not own the descriptor, and what is found lies there and is a message |
| `UdaPort.FaultsFound` | 10.02_devices/2_src/uda.cpp:578-607 | A length of 0 or from 0x1000 on, and a message that cannot be read, are port error 6; an odd length is none |
| `UdaPort.MissingDescriptorFound` | 10.02_devices/2_src/uda.cpp:547-563 | A descriptor that cannot be read is port error 1 |
| `UdaPort.QueuedIsFound` | 10.02_devices/2_src/uda.cpp:535-693 | Round trip: the host writes a message and hands the descriptor over, and the port fetches the same words |
| `UdaPort.PostedMeaning` | 10.02_devices/2_src/uda.cpp:794-856 | Posting a response hands over its own descriptor and no other and moves the pointer on by one slot |
| `UdaPort.PostedText` | 10.02_devices/2_src/uda.cpp:701-856 | The host finds the words of the response in the buffer its descriptor named |
| `UdaPort.ReadBack` | 10.02_devices/2_src/uda.cpp:1047-1104 | Words written by DMA to existing memory are the words a DMA read returns |
| `UdaPort.Uda.OnWriteSA` | 10.02_devices/2_src/uda.cpp:363-495 | A write of SA moves the port exactly as the handshake model says |
| `UdaPort.Uda.Worker` | 10.02_devices/2_src/uda.cpp:209-323 | One pass of the initialization thread moves the port exactly as the handshake model says |
| `UdaPort.Uda.ClearCommunicationsArea` | 10.02_devices/2_src/uda.cpp:283-313 | The two clearing loops together leave the cleared area of the model |
| `UdaPort.Uda.GetNextCommand` | 10.02_devices/2_src/uda.cpp:535-693 | Taken command with its text, nothing, odd length or port error, each with the state it leaves and the number of interrupts raised |
| `UdaPort.Uda.PostResponse` | 10.02_devices/2_src/uda.cpp:701-856 | Posted exactly if the port owns the slot, with the state it leaves and the number of interrupts raised |
| `StorageImage.FileIsEndlessDisk` | 10.02_devices/2_src/storageimage.cpp:196-265 | A run of reads and writes on the growing file ends, and reads what an unbounded array of bytes reads that is zero past the old end of the file, if and only if no write leaves a gap of 2^31 bytes or more and no read of non-zero bytes comes after a read past the end, or in a stream that had failed before, with no write between |
| `StorageImage.ReadAfterShortRead` | 10.02_devices/2_src/storageimage.cpp:196-213 | One byte read together with the one behind it reads as zero the second time |
| `StorageImage.FarWriteHangs` | 10.02_devices/2_src/storageimage.cpp:232-245 | A write at byte 2^31 of a new file does not end |
| `StorageImage.WriteMeaning` | 10.02_devices/2_src/storageimage.cpp:215-265 | A write sets its bytes and no others, wherever the file ended before |
| `StorageImage.GapCloses` | 10.02_devices/2_src/storageimage.cpp:232-245 | The loop that fills the gap ends if and only if the gap is below 2^31 |
| `StorageImage.BinFile.Read` | 10.02_devices/2_src/storageimage.cpp:196-213 | A good stream delivers the bytes of the endless disk and a failed one zeros; a read past the end fails it |
| `StorageImage.BinFile.Write` | 10.02_devices/2_src/storageimage.cpp:215-265 | The chunked fill loop and the write leave the file filled with zeros up to the position, the buffer in its place and a good stream |
| `StorageImage.WriteAndClearMeaning` | 10.02_devices/2_src/storagedrive.cpp:231-244 | A block write sets its bytes, zeroes the rest of its last block and leaves every other byte alone |
| `StorageImage.Geometry.OffsetIsLinear` | 10.02_devices/2_src/storagedrive_geometry.hpp:99-107 | The image offset is the sector size times the linear sector number |
| `StorageImage.Geometry.ChsInvertsOffset` | 10.02_devices/2_src/storagedrive_geometry.hpp:99-122 | get_chs finds cylinder, head, sector and byte of every offset get_image_offset gives |
| `StorageImage.Geometry.OffsetInvertsChs` | 10.02_devices/2_src/storagedrive_geometry.hpp:99-122 | Every byte of the image lies in the sector get_chs names for it |
| `MscpDrive.Drive.Write` | 10.02_devices/2_src/mscp_drive.cpp:240-246 | A block write, image write and clearing of the remainder together, at the 32-bit offset of the block |
| `MscpDrive.Drive.Read` | 10.02_devices/2_src/mscp_drive.cpp:252-261 | The bytes of the image from the block on, at the 32-bit offset of the block; zeros from a failed stream |
| `MscpDrive.Drive.WriteRct` | 10.02_devices/2_src/mscp_drive.cpp:268-275 | Exactly the bytes of the RCT block change |
| `MscpDrive.WrittenIsRead` | 10.02_devices/2_src/mscp_drive.cpp:240-261 | Reading the bytes of a write returns them |
| `MscpDrive.RestIsZero` | 10.02_devices/2_src/mscp_drive.cpp:240-261 | The rest of the last block of a write reads as zero, for every block number |
| `MscpDrive.WriteLands` | 10.02_devices/2_src/mscp_drive.cpp:240-246 | A write to any block number changes exactly the blocks from that number modulo 2^23 on, to those of the buffer padded with zeros |
| `MscpDrive.OtherBlocksKept` | 10.02_devices/2_src/mscp_drive.cpp:240-246 | Every block that a write of at least one byte does not name keeps its content, for all contents, if and only if the block number is below 2^23 |
| `MscpDrive.AcceptedExactly` | 10.02_devices/2_src/mscp_server.cpp:947-970 | On a unit of any size a transfer is accepted if and only if it lies on the unit, is one block long if it starts in the RCT, and either fewer than 2^23 blocks follow its start or it is no longer than what that number leaves modulo 2^23 |
| `MscpDrive.LargeUnitRefuses` | 10.02_devices/2_src/mscp_server.cpp:958-964 | An instance: on a unit of 2^23 blocks every transfer from block 0 is refused |
| `MscpDrive.SafeUnits` | 10.02_devices/2_src/mscp_server.cpp:947-970 | Every accepted write in the data area keeps the blocks it does not name if and only if the data area has at most 2^23 blocks |
| `MscpDrive.LowBlockOverwritten` | 10.02_devices/2_src/mscp_drive.cpp:240-246 | On a unit of 2^23+10 blocks an accepted write of block 2^23 changes block 0 and leaves block 2^23 as it was |
| `MscpDrive.UnitShrinks` | 10.02_devices/2_src/mscp_drive.cpp:82-98 | On a unit sized by its image, a read that runs past the end of the image leaves the checks of a unit with as many blocks as the RCT has, less one, or of one of 2^32-1 blocks if there is no RCT; any other read leaves them as they were |
| `MscpDrive.WritesEndExactly` | 10.02_devices/2_src/mscp_server.cpp:947-970 | On a new image every accepted write in the data area ends if and only if the data area has at most 2^31 bytes |
| `MscpDrive.SmallUnitsEnd` | 10.02_devices/2_src/mscp_server.cpp:947-970 | Up to that size it ends on every image |
| `MscpDrive.ImageSizedEnd` | 10.02_devices/2_src/mscp_drive.cpp:82-98 | On units sized by their image, of any size, every accepted write ends, except on one without an RCT whose stream has failed and whose file has at most 2^31-1024 bytes |
| `ImageOfWords.WordsWritten` | 10.02_devices/2_src/rl0102.cpp:624-663 | Words written to an image at a word offset are read back and no other word changes |
| `ImageOfWords.LowByteFirst` | 10.02_devices/2_src/rl0102.cpp:624-663 | The low byte of a word comes first in the image |
| `HostMemory.DmaOutSplit` | 10.02_devices/2_src/rl11.cpp:825-856 | Two consecutive DMA transfers to memory are one transfer of the joined words; if the first already ran out of memory the second adds nothing |
| `HostMemory.ExistingCounts` | 10.02_devices/2_src/rl11.cpp:825-850 | A word of a transfer exists exactly if its place is in memory |
| `HostMemory.DmaReadsBack` | 10.02_devices/2_src/rl11.cpp:825-850 | Words that exist arrive in order from the address on, no other place changes, and a transfer back returns them |
| `HostMemory.Dato` | 10.02_devices/2_src/rl11.cpp:825-832 | Word by word transfer to memory: the words that have a place arrive, nothing else changes, success and end address tell where it stopped |
| `HostMemory.Dati` | 10.02_devices/2_src/rl11.cpp:833-850 | Word by word transfer from memory into a cleared buffer, with success and end address |
| `RlCrc.CalcCrc` | 10.02_devices/2_src/rl0102.cpp:105-121 | The nested loops compute the CRC register after the stream of data bits |
| `RlCrc.GeneratorPasses` | 10.02_devices/2_src/rl0102.cpp:105-121 | Of all polynomials of degree 16 only x^16 + x^15 + x^2 + 1 leaves the register clear |
| `RlCrc.SelfCheck` | 10.02_devices/2_src/rl0102.cpp:105-121 | A record followed by a word checks to zero if and only if the word is its CRC |
| `RlCrc.OneWordDetected` | 10.02_devices/2_src/rl0102.cpp:105-121 | Two records of equal length that differ in exactly one word have different CRCs |
| `RlCrc.BurstDetected` | 10.02_devices/2_src/rl0102.cpp:105-121 | Any two bit streams that differ only within 16 consecutive bits have different CRCs |
| `RlPlatter.OnTrackMeaning` | 10.02_devices/2_src/rl0102.cpp:510-520 | header_on_track accepts a disk address if and only if one of the 40 headers of the track carries it |
| `RlPlatter.HeaderPasses` | 10.02_devices/2_src/rl0102.cpp:522-587 | From any platter position the wanted header is among the next 40, and every other header read brings it one closer |
| `RlPlatter.DataPassed` | 10.02_devices/2_src/rl0102.cpp:589-663 | After a data block the header of the following sector is under the head, circularly |
| `RlPlatter.SectorPlace` | 10.02_devices/2_src/rl0102.cpp:603-605 | The place of a sector on the platter is the one get_image_offset gives for either type of drive |
| `Rl0102.SeekArrives` | 10.02_devices/2_src/rl0102.cpp:320-394 | A seek locks on at its target after exactly one call for the head switch, if any, plus max(1, ceil(distance/increment)) calls, and not before |
| `Rl0102.Rl0102.CmdSeek` | 10.02_devices/2_src/rl0102.cpp:157-182 | Only a drive that is locked on accepts a seek; it loses READY and its head becomes invalid |
| `Rl0102.Rl0102.SetType` | 10.02_devices/2_src/rl0102.cpp:75-102 | The type changes only while the power is off, and sets 512 or 256 cylinders |
| `Rl0102.Rl0102.StateLoadCartridge` | 10.02_devices/2_src/rl0102.cpp:220-253 | Spins up only with RUN pressed, cover closed and an image that opens; otherwise faults or stays |
| `Rl0102.SpinUpEnds` | 10.02_devices/2_src/rl0102.cpp:255-289 | Spinning up comes to full speed if and only if the emulation speed is at least 1/9, or the drive is above full speed already |
| `Rl0102.Rl0102.StateSpinUp` | 10.02_devices/2_src/rl0102.cpp:255-289 | Speed, next state and cylinder for every combination of RUN, fault and emulation speed, fractions included |
| `Rl0102.Rl0102.StateLoadHeads` | 10.02_devices/2_src/rl0102.cpp:301-317 | The guard band seek to cylinder 0, head 0 begins |
| `Rl0102.Rl0102.StateSeek` | 10.02_devices/2_src/rl0102.cpp:320-394 | One step of the seek model with RUN pressed, spin-down otherwise; keeps the target in range |
| `Rl0102.Rl0102.Worker` | 10.02_devices/2_src/rl0102.cpp:666-719 | Every round of the drive thread keeps: a drive that is locked on has head 0 or 1, a cylinder in range, and stands where it was sent; lock-on is entered only from a seek |
| `Rl0102.Rl0102.FollowSeek` | 10.02_devices/2_src/rl0102.cpp:666-719 | With power on and RUN pressed the thread brings every seek to lock-on at its target in the exact number of rounds |
| `Rl0102.Rl0102.CmdReadNextSectorHeader` | 10.02_devices/2_src/rl0102.cpp:554-583 | Header words of the sector coming up, with their CRC, data block under the head afterwards; nothing happens unless locked on |
| `Rl0102.Rl0102.CmdReadNextSectorData` | 10.02_devices/2_src/rl0102.cpp:589-619 | The words the image file delivers for the sector under the head, next header afterwards |
| `Rl0102.Rl0102.CmdWriteNextSectorData` | 10.02_devices/2_src/rl0102.cpp:624-663 | The sector under the head is overwritten, or WGE is set and the image kept |
| `Rl11.SeekTargetOnDisk` | 10.02_devices/2_src/rl11.cpp:717-737 | The clamped seek target is on the disk, exact when difference and direction stay on it, and cylinders-2 or 0 at the guard bands |
| `Rl11.SeekFields` | 10.02_devices/2_src/rl11.cpp:702-745 | The word a host writes for a seek, difference from bit 7 on, head in bit 4, direction in bit 2, marker in bit 0, goes to that head and, where it can, to the cylinder that much further up or down |
| `Rl11.Rl11.StateSeek` | 10.02_devices/2_src/rl11.cpp:702-745 | Error, no operation or seek command to the clamped target, for every DA word |
| `Rl11.SeekAndLockOn` | 10.02_devices/2_src/rl11.cpp:702-745 | A SEEK with RUN pressed and no fault reaches lock-on at the cylinder and head DA names in exactly 1 + max(1, ceil(distance/increment)) calls of state_seek |
| `Rl11.Rl11.SetWordcount` | 10.02_devices/2_src/rl11.cpp:366-377 | MP holds the two's complement of the count, and get_MP_wordcount returns it |
| `Rl11.Rl11.UpdateAddress` | 10.02_devices/2_src/rl11.cpp:347-361 | BA holds the low 16 bits and the extension the rest, and get_qunibus_address returns the address |
| `Rl11.Rl11.StateReadWrite` | 10.02_devices/2_src/rl11.cpp:759-907 | One pass on registers, silos, drive, image and memory refines the pass of the model; a drive that is not ready gives OPI |
| `Rl11.Rl11.Execute` | 10.02_devices/2_src/rl11.cpp:1026-1037 | The command loop ends, and with the state of the model command |
| `Rl11Transfer.PassProgress` | 10.02_devices/2_src/rl11.cpp:789-905 | Every pass ends the command, reduces the words left, or brings the wanted header closer |
| `Rl11Commands.RunFindsSector` | 10.02_devices/2_src/rl11.cpp:796-815 | From any platter position the search ends with the data block of the addressed sector under the head |
| `Rl11Commands.CommandEnds` | 10.02_devices/2_src/rl11.cpp:759-907 | Every header-checking command moves min(w, 128*(40-s)) words unless memory ends first; HNF and OPI if and only if more were asked for, NXM and OPI if and only if memory ended; MP, DA, BA and the number of headers read are exact |
| `Rl11Commands.WholeCommand` | 10.02_devices/2_src/rl11.cpp:759-907 | A header-checking command from its start, whatever errors are left from before: OPI alone if the drive is not ready, done at once for a zero count, HNF and OPI off the track, and otherwise the end above |
| `Rl11Commands.SucceedsExactly` | 10.02_devices/2_src/rl11.cpp:759-907 | On a ready drive OPI is set if and only if words are left over, and that is so if and only if some were asked for and the address is off the track or fewer are on the track and in memory than asked for |
| `Rl11Commands.HeadersRead` | 10.02_devices/2_src/rl11.cpp:810-815 | k transferred sectors cost at most 39+k header reads |
| `Rl11Commands.ReadDataEffect` | 10.02_devices/2_src/rl11.cpp:818-832 | READ DATA leaves in memory exactly the words the image file delivers from the addressed sector on, up to the end of the track or of memory, and nothing else changed; the stream has failed afterwards if it had before or a sector gone over ends behind the end of the file |
| `Rl11Commands.WholeStreaming` | 10.02_devices/2_src/rl11.cpp:789-832 | READ DATA WITHOUT HEADER CHECK, from its start and for any DA: memory gets the words of the sectors as they pass under the head, round and round on the track, until the count or memory ends, with exact errors, registers, platter position and stream |
| `Rl11Commands.WriteDataEffect` | 10.02_devices/2_src/rl11.cpp:841-863 | WRITE DATA leaves the words from memory, zeros to the end of their last sector, and every other word of the image as it was |
| `Rl11Commands.OtherTracksKept` | 10.02_devices/2_src/rl11.cpp:841-863 | WRITE DATA keeps every word of every sector of every other cylinder and head |
| `Rl11Commands.WriteClearsFailure` | 10.02_devices/2_src/rl11.cpp:841-863 | A failed stream is good again after WRITE DATA exactly if memory holds the words of the first sector |
| `Rl11Commands.ProtectedWrite` | 10.02_devices/2_src/rl0102.cpp:632-637 | On a write-protected drive the image is unchanged and WGE is set as soon as one sector came from memory |
| `Rl11Commands.WriteCheckEffect` | 10.02_devices/2_src/rl11.cpp:864-878 | WRITE CHECK reports an error if and only if the last sector it compared differs from zero-padded memory, also when memory ends on the way; with no sector compared the flag stays; memory is unchanged |
| `Rl11Commands.EarlierMismatchIsMissed` | 10.02_devices/2_src/rl11.cpp:864-878 | Two sectors of which the first differs and the second does not end without an error |
| `Rl11Commands.WriteThenRead` | 10.02_devices/2_src/rl11.cpp:759-907 | WRITE DATA followed by READ DATA with the same disk address and count returns the original words |
| `Rl11Commands.WriteThenCheck` | 10.02_devices/2_src/rl11.cpp:759-907 | WRITE DATA followed by WRITE CHECK with the same arguments reports no error |
| `Ke11.Ke11.Div` | 10.02_devices/2_src/ke11.cpp:158-218 | N xor NXV if and only if the divisor is 0 or the truncated quotient does not fit 16 signed bits; otherwise dividend = quotient*divisor + remainder with the remainder smaller than the divisor and of the sign of the dividend; the failing branch performs one step of a non-restoring division |
| `Ke11.OperandIsMeant` | 10.02_devices/2_src/ke11.cpp:158-180 | A word written is the signed operand; a negative byte to the low half is extended, whatever is in the upper half |
| `Ke11.QuotientTooBig` | 10.02_devices/2_src/ke11.cpp:181-197 | The early exit is taken only when the divisor is 0 or the quotient cannot fit |
| `Ke11.QuotientBelow` | 10.02_devices/2_src/ke11.cpp:198-208 | The division instruction is never reached with divisor 0 or dividend -2^31 |
| `Ke11.Ke11.Mul` | 10.02_devices/2_src/ke11.cpp:273-308 | AC:MQ is the exact product of two signed words |
| `Ke11.Ke11.Nor` | 10.02_devices/2_src/ke11.cpp:321-347 | AC:MQ is the input times 2^SC exactly; SC is 31 if and only if the input is 0; otherwise the result is normalised, and one shift fewer would not be |
| `Ke11.ShiftUntilNormalised` | 10.02_devices/2_src/ke11.cpp:321-347 | The shifting loop ends within 31 shifts and loses no significant bit |
| `Ke11.Ke11.Lsh` | 10.02_devices/2_src/ke11.cpp:349-399 | For all 64 counts: value*2^n modulo 2^32 to the left, unsigned floor division to the right; V if and only if value*2^n does not fit; C is the last bit shifted out |
| `Ke11.Ke11.Ash` | 10.02_devices/2_src/ke11.cpp:401-453 | For all 64 counts: exact value*2^n without V, which holds if and only if it does not fit; signed floor division to the right; C is the last bit shifted out; the sign stays |
| `Rk11Transfer.NextPlaceIsNextSector` | 10.02_devices/2_src/rk11.cpp:625-641 | increment_RKDA goes to the next sector in image order, and off the disk only behind the last |
| `Rk11Transfer.SectorPlace` | 10.02_devices/2_src/rk05.cpp:160-163 | The linear sector number is the place in the image get_image_offset gives |
| `Rk11Transfer.RkdaFields` | 10.02_devices/2_src/rk11.cpp:971-983 | Packing RKDA and taking it apart again gives the same sector, surface, cylinder and drive |
| `Rk11Transfer.RkdaJoins` | 10.02_devices/2_src/rk11.cpp:971-983 | RKDA is the inclusive or of the shifted fields |
| `Rk11Transfer.HeaderIsAddress` | 10.02_devices/2_src/rk11.cpp:345-352 | A header read with FMT is the disk address of the first sector of the cylinder |
| `Rk11Transfer.StartCountMeaning` | 10.02_devices/2_src/rk11.cpp:296-297 | RKWC = -n means n words for n up to 32767 and nothing to do above |
| `Rk11Commands.InvalidStart` | 10.02_devices/2_src/rk11.cpp:310-323 | An invalid start address or absent drive moves nothing and sets exactly the error bits that apply |
| `Rk11Commands.CommandEnds` | 10.02_devices/2_src/rk11.cpp:295-466 | A plain Read, Write or Write Check ends with all words moved, or with NXC and OVR exactly when words remain after the last sector of cylinder 202, or with NXM exactly when memory ended; count, bus address and disk address are exact |
| `Rk11Commands.ReadEffect` | 10.02_devices/2_src/rk11.cpp:337-346 | Read leaves in memory exactly the words the image file delivers for consecutive sectors from the start address on, nothing else changed, and the last word in RKDB; the stream has failed afterwards if it had before or a sector gone over ends behind the end of the file |
| `Rk11Commands.WriteEffect` | 10.02_devices/2_src/rk11.cpp:399-408 | Write leaves the words from memory, zeros to the end of their last sector, and every other word of the image as it was |
| `Rk11Commands.WriteClearsFailure` | 10.02_devices/2_src/rk11.cpp:399-408 | A failed stream is good again after Write exactly if memory holds the words of the first sector |
| `Rk11Commands.WriteThenRead` | 10.02_devices/2_src/rk11.cpp:295-466 | Write followed by Read of the same sectors returns the words written |
| `Rk11Commands.WriteCheckEffect` | 10.02_devices/2_src/rk11.cpp:409-434 | Without stop on error, Write Check adds WCE if and only if some word of the sectors memory reaches differs, and ERR if and only if one does or memory or the disk ended on the way; memory is unchanged |
| `Rk11Commands.StopEffect` | 10.02_devices/2_src/rk11.cpp:409-434 | A whole Write Check with SSE stops with the first sector that holds a differing word, with the first sector if WCE was set before, and goes to the end otherwise; words left, bus address, disk address, WCE and ERR are exact |
| `Rk11Commands.OnePlaceRead` | 10.02_devices/2_src/rk11.cpp:149-220 | A whole Read with IBA leaves the last word of its last sector at the bus address and in RKDB, and nothing else in memory; for a bus address outside memory it ends in its first sector with NXM and moves nothing |
| `Rk11Commands.OnePlaceWrite` | 10.02_devices/2_src/rk11.cpp:149-220 | A whole Write with IBA fills its sectors with the word at the bus address, zeros behind the count, and every other word of the image is as it was; for a bus address outside memory it ends in its first sector with NXM and writes nothing |
| `Rk11Commands.HeadersRead` | 10.02_devices/2_src/rk11.cpp:337-359 | A whole Read with FMT leaves one header word for each consecutive sector in memory and the last in RKDB, up to the end of the disk or of memory, with NXC, OVR, NXM, words left, bus address and disk address exact |
| `Rk11Commands.BitsIgnored` | 10.02_devices/2_src/rk11.cpp:284-434 | Whatever the other bits, FMT changes nothing but a Read and SSE nothing but a Write Check |
| `Rk11Commands.OnePlaceRepeats` | 10.02_devices/2_src/rk11.cpp:149-220 | A Write or Write Check with IBA, with the other bits set or not, leaves disk, counts and errors as it would without IBA on a memory that holds the word at the bus address over and over |
| `Rk11.Rk11.WriteRkda` | 10.02_devices/2_src/rk11.cpp:817-837 | The fields taken from a write of RKDA are packed into the same register again |
| `Rk11.Rk11.ReadWriteCommand` | 10.02_devices/2_src/rk11.cpp:295-466 | The worker loop, with validate_seek, the DMA variants, increment_RKDA and the registers, refines the model command; RKWC, RKBA, MEX and RKDA agree with it at the end |
| `Rk11.Rk11.ValidateSeek` | 10.02_devices/2_src/rk11.cpp:585-623 | Valid exactly for sector up to 11, cylinder up to 202 and a drive that is there; otherwise exactly the bits that apply are added |
| `Rk11.Rk11.IncrementRkda` | 10.02_devices/2_src/rk11.cpp:625-641 | The fields and the packed register both move on to the next sector |
| `Rk11.Rk11.DmaFromMemory` | 10.02_devices/2_src/rk11.cpp:149-220 | With IBA the first word fills the buffer, otherwise consecutive words, zeros behind |
| `Rk11.Rk11.DmaToMemory` | 10.02_devices/2_src/rk11.cpp:149-220 | With IBA only the last word arrives, otherwise all that have a place |
| `Rk11.Rk11.Compare` | 10.02_devices/2_src/rk11.cpp:409-434 | WCE and ERR added if and only if the buffers differ within the count; abort if and only if stop on error is set and WCE is |
| `Rx01Program.SectorsApart` | 10.02_devices/2_src/rx0102drive.cpp:183-186 | Different sectors of the 77 by 26 never overlap in the image |
| `Rx01Program.SectorsInOrder` | 10.02_devices/2_src/rx0102drive.cpp:183-186 | A sector is where get_image_offset has it for 77 tracks of one head and 26 sectors; in an image without track 0, where the sector of the track before is |
| `Rx01Program.WrittenIsRead` | 10.02_devices/2_src/rx0102drive.cpp:189-260 | A sector written to a writable image that keeps its track is read back, also if the stream had failed |
| `Rx01Program.OthersKept` | 10.02_devices/2_src/rx0102drive.cpp:189-260 | Writing a sector changes what no other sector holds, whether or not the image contains track 0 |
| `Rx01Program.SeekEnds` | 10.02_devices/2_src/rx0102ucpu.cpp:402-442 | The seek loops end if and only if the emulation speed is at least one half or the drive is at the track already |
| `Rx01Program.WorkKeepsValid` | 10.02_devices/2_src/rx0102ucpu.cpp:906-937 | Every round keeps: a program that is not complete still ends with a step that sets DONE, a complete one has set it, and the worker waits only inside a transfer with its request shown |
| `Rx01Program.WriteKeepsValid` | 10.02_devices/2_src/rx0102ucpu.cpp:483-559 | A write of RXDB at any moment keeps the same |
| `Rx01Program.ReadKeepsValid` | 10.02_devices/2_src/rx0102ucpu.cpp:448-478 | A read of RXDB at any moment keeps the same |
| `Rx01Commands.CompleteIsDone` | 10.02_devices/2_src/rx0102ucpu.cpp:906-937 | The worker left alone always stops, waiting or complete, and when complete DONE is set |
| `Rx01Commands.FillDone` | 10.02_devices/2_src/rx0102ucpu.cpp:183-189 | FILL BUFFER with 128 words leaves their low bytes in order in the buffer, zeros behind, no error code, and RXES in RXDB |
| `Rx01Commands.EmptyDone` | 10.02_devices/2_src/rx0102ucpu.cpp:190-202 | EMPTY BUFFER gives the 128 bytes of the buffer in order, changes nothing, and ends with no error code and RXES in RXDB |
| `Rx01Commands.BadAddress` | 10.02_devices/2_src/rx0102ucpu.cpp:510-532 | An invalid sector or track ends the program with error code 0070 or 0040 and no disk touched |
| `Rx01Commands.AccessDone` | 10.02_devices/2_src/rx0102ucpu.cpp:213-242 | READ and WRITE SECTOR at a valid address move exactly the sector, or report 0110 without a floppy |
| `Rx01Commands.InitEnds` | 10.02_devices/2_src/rx0102ucpu.cpp:745-788 | INIT ends with the boot sector of drive 0 in the buffer, or with an error if there is no floppy |
| `Rx01Commands.CommandDone` | 10.02_devices/2_src/rx0102ucpu.cpp:745-937 | INIT and every function end with DONE set, the program behind its last step, and buffer and disks as the function-level description says |
| `Rx01Commands.SectorKept` | 10.02_devices/2_src/rx0102ucpu.cpp:745-937 | Any run of functions and INITs that does not write a sector keeps its content |
| `Rx01Commands.StreamAfter` | 10.02_devices/2_src/rx0102drive.cpp:189-260 | After any run of functions and INITs the stream of an image has failed if and only if a read went beyond the end of the file with no write to the drive after it, or it had failed before and nothing was written |
| `Rx01Commands.BytesComeBack` | 10.02_devices/2_src/rx0102ucpu.cpp:745-937 | FILL, WRITE, any functions and INITs that do not write the sector, READ and EMPTY give the same 128 bytes in order, unless those between leave the stream failed as above; zeros come back then |
| `Rx01Commands.BytesAreLost` | 10.02_devices/2_src/rx0102ucpu.cpp:791-937 | On a new image a READ of track 70 between makes the bytes written to track 1 come back as zeros |
| `Rx01.RxDrive.SectorRead` | 10.02_devices/2_src/rx0102drive.cpp:189-219 | Succeeds exactly for a valid address and an open image; replaces the first 128 bytes of the buffer by the sector as the image file delivers it |
| `Rx01.RxDrive.SectorWrite` | 10.02_devices/2_src/rx0102drive.cpp:222-260 | Succeeds exactly for a valid address and an open image; changes the sector or, read-only or without the track, nothing |
| `Rx01.RxDrive.Seek` | 10.02_devices/2_src/rx0102ucpu.cpp:402-442 | A drive that moves arrives at the track |
| `Rx01.RxBox.GoFunction` | 10.02_devices/2_src/rx0102ucpu.cpp:791-903 | Starting a function sets up program, port and signals as the model does |
| `Rx01.RxBox.RxdbAfterWrite` | 10.02_devices/2_src/rx0102ucpu.cpp:483-559 | A write of RXDB refines the model event |
| `Rx01.RxBox.RxdbAfterRead` | 10.02_devices/2_src/rx0102ucpu.cpp:448-478 | A read of RXDB returns the word shown and refines the model event |
| `Rx01.RxBox.Worker` | 10.02_devices/2_src/rx0102ucpu.cpp:906-937 | The thread runs until it waits or is complete, with the state of the model run |
| `PaperTape.TapeLoads` | 10.05_cputest/2_src/papertape.cpp:53-122 | The tape of any list of blocks with leaders between them and an end block or nothing behind loads them in order and reports success |
| `PaperTape.AllPlacedMeaning` | 10.05_cputest/2_src/papertape.cpp:98-112 | Every byte of memory then has the value of the last block that covers it, or its old one |
| `PaperTape.PlacedMeaning` | 10.05_cputest/2_src/testbus.cpp:50-61 | The bytes of a block are at their addresses, odd and even alike, and no other byte changed |
| `PaperTape.DamageDetected` | 10.05_cputest/2_src/papertape.cpp:114-121 | Changing the value of any single data byte makes the loader report a botched tape |
| `PaperTape.TruncationDetected` | 10.05_cputest/2_src/papertape.cpp:53-122 | A tape that ends anywhere within a block is a botch with the data before the end in memory, but for one that ends with the first byte of a header, which counts as loaded |
| `PaperTape.OutsideFound` | 10.05_cputest/2_src/papertape.cpp:98-112 | A block that reaches beyond memory stops at the first byte outside, with the bytes before it in memory |
| `PaperTape.TestBus.MemDepositByte` | 10.05_cputest/2_src/testbus.cpp:50-61 | One half of a word is replaced if it is inside memory, nothing otherwise |
| `PaperTape.ReadData` | 10.05_cputest/2_src/papertape.cpp:98-112 | The byte loop, with its 16-bit address and 8-bit sum, places the data or stops with the right failure |
| `PaperTape.PapertapeLoad` | 10.05_cputest/2_src/papertape.cpp:44-122 | The loader leaves outcome and memory as the description of the tape format says, for every content of the file |

## Left out

- StorageImage.BinFile.Write: requires a gap below 2^31 bytes, because the loop does not end for a larger one (StorageImage.GapCloses).
- MscpDrive.Drive.Write: inherits the gap condition of the image file; which units meet it for all accepted transfers is MscpDrive.WritesEndExactly, MscpDrive.SmallUnitsEnd and MscpDrive.ImageSizedEnd.
- UdaPort.Uda.PostResponse: requires readable descriptors; the original dereferences a null pointer when the descriptor cannot be read.
- UdaPort.HandshakeCompletes: a host that writes SA before the step bit, resets during the handshake and the wrap-around diagnostic mode are not covered.
- MscpProtocol.ResponsesInOrder: a run without DMA failure and reset; a response is read and its slot given back in one step of the host.
- MscpProtocol.CreditsConserved: for hosts that send sequential commands only, one credit each.
- MscpPolling.NoStaleResponse: the message queue is reduced to the epochs of its commands; thread cancellation at shutdown is not modelled.
- MscpServer.Server.BeginPoll: Poll and Reset are one method for each locked region and not one loop, because other threads act between them; where a thread stands is ghost state.
- MscpTransport.HostQueuesMessage: requires a message buffer outside the communications area, in existing memory.
- MscpTransport.PostIsPosted: requires a response buffer outside the communications area; a host that names one inside has its own descriptors overwritten.
- UdaPort.PostedMeaning: the same condition on the buffer.
- MscpTransport.HostReadsMessage: for one exchange; that buffers of other slots stay as they are is up to the host and is not part of this model.
- MscpServer.Server.Respond: the result of the command itself is an input.
- Rl11.Rl11.StateReadWrite: for a drive that is ready the model assumes that it stays locked on during the pass, and that the selected unit does not change.
- Rl11.Rl11.StateSeek: the delay of a SEEK given while the drive still seeks is not modelled.
- Rk11.Rk11.ReadWriteCommand: a new command in RKCS is an input that says after how many sectors it arrives; RKDS, interrupts, seek timing and the Seek, Drive Reset and Read Check functions are left out.
- Rk11Commands.CommandEnds: for commands without FMT, IBA and SSE; whole commands with one of them are Rk11Commands.OnePlaceRead, Rk11Commands.OnePlaceWrite, Rk11Commands.HeadersRead and Rk11Commands.StopEffect, combinations of them follow with Rk11Commands.BitsIgnored and Rk11Commands.OnePlaceRepeats, but for a Read with FMT and IBA.
- Rx01Commands.BytesComeBack: for a controller that waits for transfer requests and DONE; the single events are modelled at any time.
- Rx01.RxDrive.Seek: requires a drive that moves or is at the track, because the loop does not end otherwise (Rx01Program.SeekEnds); Rx01.RxBox is for emulation speeds from one half on.
- Rx01.RxBox.InitBox: an INIT that arrives while the worker waits inside a transfer is not modelled.
- RX deleted-data marks, the RX02 with its densities, formatting and DMA, and the power switch of the box.
- RL status word, lamps, volume check reset, READ HEADER and GET STATUS register sequences, panel.
- PaperTape.TapeLoads: blocks whose load address is 1 are excluded; a block outside memory is PaperTape.OutsideFound, and PaperTape.PapertapeLoad covers every file.
- COMPARE HOST DATA and the other MSCP opcodes: only the endcode and the credits of a response are modelled.
- MscpDrive.Drive.Read: requires a length above 0, which the original asserts.
- storageimage_memory_c, shared images and file system mirroring.
- KE11 register reads and the packing of SC/SR: the registers shown are fields, SR is its flags.
- M9312, RF11, DL11, KW11, serial adapter, panel, menus, bus arbitration, the CPU cores and the disassembler.
