# Nova Voyager bootloader: the DFU engine, the flash driver and the boot loop

A Dafny model of the Nova Voyager USB DFU bootloader, with proofs about it.

The C sources keep their state in static variables and device registers, so the
model does too. `FlashController.FlashUnit` is the flash controller with the driver
of `src/flash_if.c` on top; `UsbPeripheral.Usb` is endpoint 0 with its toggling
register and gapped packet memory; `ControlEndpoint.Ep0` and `UsbDfu.DfuDriver`
hold the variables and handlers of `src/usb_dfu.c`; `Clock.Rcc`, `Boot.Board` and
`DfuMode` are `src/main.c`. Every method is proved against a function on values:
`NorFlash` (erase and program), `Ep0Transfer` (a control-IN data stage),
`DfuProtocol` (the DFU 1.1 state machine with the DfuSe extension, one step per USB
event) and `OptionBytes`. The theorems are about runs of those functions:

- `Safety`: what holds whatever the host sends. Control invariant, the reachable
  states, flash confinement, at-most-once deferred execution, the history of the
  address pointer, the only way into manifestation.
- `Requests`, `Transfers`: what the host sees, in the bytes of the wire: which requests
  stall, the replies to the others, the status stage of a block, and the status replies
  around its execution with what each stands for in flash.
- `Restart`: ABORT and bus reset as ways out of any state.
- `Conforming`: what a host that keeps to the protocol can rely on.
- `Session`, `Download`, `Upload`: any packet split of a block, whole downloads over a
  flash that may refuse operations, reading back, and the round trip.
- `DataStage`, `Polling`: replies taken packet by packet, the bus address, and polls
  that find a completion and a reception together.
- `DfuMode`: the driver in its main loop, serving any traffic; the reset countdown;
  downloads, read-backs and round trips served by the driver.
- `Boot`, `Clock`, `OptionBytes`: boots, resets, torn downloads, clock bring-up.
- `Update`: a firmware update from the first packet to the boot behind the reset.

## Assumptions about the hardware

- Flash is NOR. Erasing sets a 2 KB page to 0xFF. A half-word store is refused, and
  changes nothing, at an odd address, on a half-word that is not erased unless the
  value is 0, or when the controller reports a fault. `faults(k)` says whether the
  controller refuses its k-th operation, and operations are granted when it refuses
  none of them; every theorem is for every `faults` and says what being granted
  decides. `flash_wait` returns.
- A SETUP packet sets both STAT fields of endpoint 0 to NAK, a completed IN packet
  sets STAT_TX to NAK, a received OUT packet sets STAT_RX to NAK, a bus reset clears
  both. Packets have at most 64 bytes. Registers change only between polls. Between two
  polls there may come nothing, one event, or the acknowledgement of the queued packet
  and then a SETUP or OUT packet.
- Clock ready bits and the F1 button are arbitrary inputs.

## Where the code does not do what one might expect

- An oversized DNLOAD leaves a decoded command pending, and CLRSTATUS brings the
  device back to IDLE with it (`Session.StaleCommand`). A data block is then not
  written; the old command runs instead. A data block is carried out as sent exactly
  when no command is pending (`Session.DataBlockWrittenUnlessStale`), which holds in
  every conforming run (`Conforming.PendingOnlyInTransfer`).
- ABORT resets the address pointer, and UPLOAD is refused in DNLOAD_IDLE, so SET_ADDRESS
  followed by ABORT reads from the start of the region whatever address was set
  (`Upload.UploadAfterSetAddress`); the pointer survives only through ERROR and
  CLRSTATUS (`Upload.UploadAfterRecovery`, `Upload.UploadsStartAtRegion`).
- SET_ADDRESS 0 is confirmed but never takes effect (`Requests.SetAddressAnswered`).
- Opcode 0 in block 0 passes for a command that succeeded (`Transfers.UnknownCarried`).
- A completion seen in the same poll as a SETUP is handled after it. It drops the first
  packet of a reply longer than one packet (`Ep0Transfer.StaleCompletion`), and it puts
  a waiting address in effect at once: a SET_ADDRESS then moves the device while its
  status packet is still queued, and the host at the old address never gets it
  (`Polling.CoalescedSetAddress`). The poll is harmless exactly when the reply is one
  packet and no other address is waiting (`Polling.CoalescedSetup`).
- A bus reset keeps a SET_ADDRESS whose status stage never came
  (`DataStage.AddressOutlivesReset`). The first request behind the reset then ends with
  the device at that address instead of 0, exactly when one was waiting
  (`DataStage.StaleBusAddress`).
- A block that ends short of its announced length is written as far as it came. For
  block 0 that is a write of the command's bytes to the address an earlier block left
  behind (`Session.PartialBlock`); a block 0 is written only when it is incomplete, and
  every other write goes to its own block's address (`Safety.WrittenBlock`).
- `flash_disable_write_protection` asks for a reset when the WRP values read clear,
  not, as its comment says, when the new values stuck: the other option bytes survive
  exactly when their own writes took (`OptionBytes.ResetKeepsOptions`).
- The project's README (line 101) puts the reset vector within 0x08003000..0x0803FFFF;
  `src/main.c:273` also accepts 0x08040000, and so does the model. A vector that passes
  is in that range exactly when it is not 0x08040000 (`Boot.ResetVectorInFlash`,
  `Boot.VectorBehindFlashAccepted`).

## Model

| member | source | states |
|---|---|---|
| Words.Le32LeastFirst | src/usb_dfu.c:525-530 | A word in memory is its four bytes, least significant first |
| NorFlash.ValidAddresses | src/flash_if.c:26-34 | The addresses the driver accepts are 0x08003000..0x0803F7FF |
| NorFlash.EmptyWrite | src/flash_if.c:165-166 | Nothing to write is success, at any address |
| NorFlash.EndpointCheckSound | src/flash_if.c:169-172 | Checking both ends in wrapping arithmetic covers the whole range exactly for lengths up to the region size, which is every length that does not wrap back into it |
| NorFlash.PageStaysInRegion | src/flash_if.c:42-43 | Aligning a valid address down to its page stays in the region, and so does the whole page |
| NorFlash.PaddedStaysInRegion | src/flash_if.c:186-190 | The padded odd tail of a write at an even address never leaves the region |
| NorFlash.OddWriteRefused | src/flash_if.c:161-199 | A non-empty write at an odd address fails and changes nothing |
| NorFlash.WriteToErased | src/flash_if.c:162-207 | A write to erased, even addresses succeeds exactly when the controller grants every half-word and then leaves exactly its bytes; refused or not, nothing outside the padded range changes |
| NorFlash.EraseConfined | src/flash_if.c:37-73 | No erase, whatever the address and faults, changes a byte outside the region |
| NorFlash.WriteConfined | src/flash_if.c:162-207 | No write the range check is sound for, whatever the address, data and faults, changes a byte outside the region |
| NorFlash.ErasesPageAround | src/flash_if.c:37-73 | An erase at any valid address, page-aligned or not, succeeds exactly when the controller grants it and then sets the 2 KB page around it to 0xFF and nothing else; anywhere else it fails and changes nothing |
| NorFlash.WritesHalfWords | src/flash_if.c:162-207 | A write at an even address over anything, erased or not: half-word after half-word goes in, little-endian with an odd tail padded 0xFF, up to the first one the controller does not take; it succeeds exactly when there is none, and fails without a change when an end lies outside 0x08003000..0x0803F7FF |
| FlashController.FlashUnit.ErasePage | src/flash_if.c:37-73 | Result, memory and operation count are those of Erase, which ErasesPageAround describes for every address; the controller comes back to LOCK set and PER clear on every exit |
| FlashController.FlashUnit.StoreAll | src/flash_if.c:186-206 | Exactly the half-words before the first refused one are programmed, little-endian with an odd tail padded 0xFF; success means all of them; PG ends clear and LOCK set on both exits |
| FlashController.FlashUnit.Write | src/flash_if.c:162-207 | The outcome, memory and operation count are those of the specification for every address and every length that is refused or that the range check is sound for; the controller is back at rest on every exit |
| FlashController.FlashUnit.DisableWriteProtection | src/flash_if.c:91-159 | The option block and the reset request are those of ClearWrp for every fault pattern; main flash is not touched |
| OptionBytes.ResetExactlyWhenCleared | src/flash_if.c:83-93 | A reset is requested exactly when a page was protected and the erase took, then no page is protected; otherwise no option value changed |
| OptionBytes.NeverLiftsReadProtection | src/flash_if.c:122-131 | No fault pattern leaves RDP at the unlock code 0xA5 unless it held it before |
| OptionBytes.ResetKeepsOptions | src/flash_if.c:122-158 | After a reset request RDP holds the unlock code exactly when it held it before and its write-back took, and is left erased otherwise; USER, DATA0, DATA1 are kept exactly when their own write-back took |
| OptionBytes.FaultFreeReset | src/flash_if.c:95-158 | When programming succeeds the WRP values are clear, USER, DATA0, DATA1 and the protection level are unchanged |
| PacketMemory.Write | src/usb_dfu.c:131-139 | The packet at the offset is the data, for every length; words beyond it and all gaps are unchanged |
| PacketMemory.Read | src/usb_dfu.c:142-150 | The buffer gets exactly the packet's bytes at the given index and nothing else changes |
| PacketMemory.WriteThenRead | src/usb_dfu.c:131-150 | Reading back what was written returns it, odd lengths included |
| PacketMemory.WordsOfPacket | src/usb_dfu.c:131-150 | Two bytes of a packet lie in one word, the first one in its low half |
| EndpointRegister.SetTxStatusExact | src/usb_dfu.c:153-160 | From every register value the written word brings STAT_TX to the requested status and disturbs no other bit |
| EndpointRegister.SetRxStatusExact | src/usb_dfu.c:163-169 | The same for STAT_RX |
| EndpointRegister.ResetWordNeedsClearedStatus | src/usb_dfu.c:668-670 | The bus reset handler's word leaves reception enabled exactly when the controller had cleared STAT_RX, NAK on transmission exactly when it had cleared STAT_TX, and the CTR flags as they were |
| EndpointRegister.FieldsOfRegister | src/usb_dfu.c:705-717 | Which bits of the register the handlers go by |
| UsbPeripheral.Usb.QueuePacket | src/usb_dfu.c:176-182 | The endpoint answers with exactly the packet, from the buffer its table names; reception buffer and the other buffer table entries are untouched |
| UsbPeripheral.Usb.Reinitialise | src/usb_dfu.c:659-673 | Whatever the buffer table held, it names both buffers and a reception limit of 64 bytes afterwards; reception is enabled, nothing is queued, and the device is at address 0 |
| UsbPeripheral.SetupLayout | src/usb_dfu.c:438-439 | Where the fields of a request lie in its eight bytes |
| UsbPeripheral.ParseSetupBytes | src/usb_dfu.c:438-439 | Reading the SETUP struct from the bytes the host sent gives the request it sent |
| ControlEndpoint.Ep0.TxChunk | src/usb_dfu.c:172-183 | The next packet and the rest are a cut of what the pointer still had to send |
| ControlEndpoint.Ep0.SendData | src/usb_dfu.c:187-203 | The transfer in flight is that of the bytes pointed at, wherever they are; reception is enabled |
| Ep0Transfer.PacketisationCorrect | src/usb_dfu.c:172-203 | For every reply and wLength the host gets the clipped reply in the expected number of packets, and its stop rule fires exactly on the last one queued |
| Ep0Transfer.StaleCompletion | src/usb_dfu.c:705-717 | The packets of a reply stay intact under a completion handled behind its SETUP exactly when it is a single packet; what that completion does to the bus address is CoalescedSetup |
| UsbDfu.DfuDriver.ExecutePending | src/usb_dfu.c:272-310 | The context after the deferred operation is Execute of the context before, in every branch and error exit |
| UsbDfu.DfuDriver.HandleDfuGetStatus | src/usb_dfu.c:264-324 | The context and the reply are those of the protocol, whose bytes are in Requests.StatusTells and the Carried lemmas of Transfers; reception is enabled |
| UsbDfu.DfuDriver.HandleDfuDnload | src/usb_dfu.c:333-381 | Context and endpoint are those of the protocol in every refusal and acceptance |
| UsbDfu.DfuDriver.HandleDfuUpload | src/usb_dfu.c:384-414 | Context and reply are those of the protocol, the 16-bit narrowing of the available length included |
| UsbDfu.DfuDriver.HandleDfuAbort | src/usb_dfu.c:426-434 | Context and endpoint are those of the protocol, which Requests.AbortAnswered and Restart.ForgetsEverything describe |
| UsbDfu.DfuDriver.HandleSetup | src/usb_dfu.c:437-505 | The whole device steps as the protocol says for the SETUP packet found in packet memory, whatever its bytes; RX ends VALID |
| UsbDfu.DfuDriver.HandleEp0Out | src/usb_dfu.c:508-542 | The same for the OUT packet found in packet memory, what it queues being Requests.PacketTaken; RX ends VALID |
| UsbDfu.DfuDriver.HandleEp0In | src/usb_dfu.c:545-568 | The same for a completed IN packet |
| UsbDfu.DfuDriver.UsbReset | src/usb_dfu.c:658-689 | The same for a bus reset |
| UsbDfu.DfuDriver.UsbPoll | src/usb_dfu.c:692-720 | One poll of any register snapshot is the protocol's reception step followed by its completion step; RX is VALID after every SETUP, OUT and bus reset |
| UsbDfu.DfuDriver.ServeTick | src/usb_dfu.c:692-720 | Whatever comes between two polls (nothing, an event, a completion and then a reception) and the poll behind it are one step of the specification and leave the device ready for the next |
| Safety.ControlInvariantHolds | src/usb_dfu.c:264-434 | In every run: no unused state, an error status exactly in ERROR, a pending block has an accepted length and number, a data block's write address is pointer plus offset, and a block 0 with data in the buffer is incomplete |
| Safety.EndpointInvariantHolds | src/usb_dfu.c:172-225 | In every run what is still to be sent never exceeds wLength and packets never exceed 64 bytes |
| Safety.ReachableStates | include/usb_dfu.h:20-32 | Exactly eight of the eleven states are reachable from power-up |
| Safety.OnlyExecutionTouchesFlash | src/usb_dfu.c:272-310 | Nothing but a GETSTATUS taken from DNBUSY touches the flash controller |
| Safety.FlashConfined | src/usb_dfu.c:287-308 | No event sequence whatsoever changes a byte outside 0x08003000..0x0803F7FF |
| Safety.WrittenBlock | src/usb_dfu.c:300-309 | In every run a write of a data block goes to its own address, and a write for block 0 is one of an incomplete block 0 |
| Safety.AtMostOncePerDownload | src/usb_dfu.c:268-313 | Executions never outnumber accepted DNLOADs, one in flight counted |
| Safety.StatusSettles | src/usb_dfu.c:264-313 | Two GETSTATUS reach a fixed point |
| Safety.BufferFromLatestDownload | src/usb_dfu.c:511-533 | In every run the buffer is a subsequence of the bytes received since the latest accepted DNLOAD |
| Safety.PointerIsLastMove | src/usb_dfu.c:278-286 | The pointer is the operand of the last executed SET_ADDRESS, or the region start when an ABORT or bus reset came later; erases never move it |
| Safety.PointerWithoutMoves | src/usb_dfu.c:278-294 | Without such an event the pointer stays what it was |
| Safety.ManifestationOrigin | src/usb_dfu.c:310-342 | MANIFEST_WAIT_RESET is reached only through a successful execution, then an empty DNLOAD, then a GETSTATUS, with no other state in between |
| Safety.NoManifestation | src/usb_dfu.c:334-342 | Without an empty DNLOAD there is no manifestation |
| Safety.NoWrapIntoRegion | src/usb_dfu.c:371 | For every 32-bit pointer and 16-bit block, an address that lands in the region did not wrap |
| Safety.StatusReplyMeaning | src/usb_dfu.c:315-323 | An error status comes exactly with bState 10, and a poll timeout exactly with bState 4, which is told exactly from DNLOAD_SYNC |
| Requests.StatusTells | src/usb_dfu.c:264-324 | The six bytes of GETSTATUS in every state but DNBUSY, as numbers, and the two transitions it makes |
| Requests.StateTold | src/usb_dfu.c:327-330 | The byte of GETSTATE in every state, as a number; nothing moves |
| Requests.DnloadAnswered | src/usb_dfu.c:333-381 | For every state, block and length: confirmed, taken with nothing queued, stalled without a change, or stalled as an error |
| Requests.DnloadRefused | src/usb_dfu.c:358-380 | A DNLOAD of 1 to 1024 bytes stalls and changes nothing exactly outside IDLE and DNLOAD_IDLE or for block 1 |
| Requests.PacketTaken | src/usb_dfu.c:508-542 | What an OUT packet does to the buffer, the pending command and the endpoint, in every state and for every length |
| Requests.StatusPacket | src/usb_dfu.c:518-535 | For a packet that fits, the empty status packet is queued exactly when the block has its announced length |
| Requests.UploadAnswered | src/usb_dfu.c:384-414 | For every state, block and wLength: a stall without a change, an empty packet behind the region, or the flash from the block's address on as the host reads it |
| Requests.ClrStatusAnswered | src/usb_dfu.c:417-423 | Always confirmed; leaves ERROR and does nothing elsewhere |
| Requests.AbortAnswered | src/usb_dfu.c:426-434 | Always confirmed; from every state IDLE, no error, no command, pointer and write address at 0x08003000 |
| Requests.BusResetSeen | src/usb_dfu.c:658-689 | The same and an empty buffer, nothing in flight, bus address 0; a waiting address stays |
| Requests.DescriptorAnswered | src/usb_dfu.c:228-261 | The host reads the descriptor of wValue clipped to what it asked for, or gets a stall |
| Requests.SetAddressAnswered | src/usb_dfu.c:457-460 | Confirmed at the old address; the new one counts once the status packet is taken, except address 0, which never does |
| Requests.OthersAnswered | src/usb_dfu.c:461-504 | The replies to the remaining standard requests; everything else stalls and changes nothing |
| Restart.ForgetsEverything | src/usb_dfu.c:426-434 | Behind an ABORT no sequence of events, and so no reply, tells the device from a freshly initialised one over the same flash; nor behind a bus reset |
| Restart.DownloadsBehindStart | src/usb_dfu.c:658-689 | From every context whatever, behind an ABORT or a bus reset every download session ends as DownloadWritesImage says |
| Conforming.HoldsWhatWasDelivered | src/usb_dfu.c:508-542 | In every conforming run the device holds exactly what the host delivered: the data so far, or the command it encodes with its 32-bit operand |
| Conforming.PendingOnlyInTransfer | src/usb_dfu.c:30-38 | In every conforming run a command is pending only while its DNLOAD is being carried out |
| Conforming.ExecutesWhatWasSent | src/usb_dfu.c:272-310 | Every operation a conforming run executes is the one sent: whole blocks at pointer plus offset, commands with the encoded operand, and the outcome reported |
| Conforming.SessionConforms | src/usb_dfu.c:264-381 | Every download session is a conforming run as long as the controller grants its operations |
| Session.OnlyVisibleEventsMatter | src/usb_dfu.c:437-568 | Status stages, standard requests and GETSTATE never influence the DFU context, in any run |
| Session.Reassembles | src/usb_dfu.c:511-533 | For every split of a block into packets the device ends up with the concatenation, or the command decoded from it |
| Session.AcknowledgedOnce | src/usb_dfu.c:518-535 | The last data packet completes its block and no other one does; what is queued then is Transfers.StatusStage |
| Session.TransferExecutesBlock | src/usb_dfu.c:264-381 | DNLOAD, its data in any split and two GETSTATUS carry out that block and nothing else |
| Transfers.StatusStage | src/usb_dfu.c:518-535 | Over a whole block, in any packet split, nothing is queued before its last packet; then the empty status packet is, and nothing behind it |
| Transfers.FirstReply | src/usb_dfu.c:268-271 | Behind its data GETSTATUS tells 00 64 00 00 04 00 and nothing is done yet |
| Transfers.SetAddressCarried | src/usb_dfu.c:278-286 | The next GETSTATUS tells 00 00 00 00 05 00 and the pointer is the little-endian operand; without an operand it tells errADDRESS in state 10 |
| Transfers.EraseCarried | src/usb_dfu.c:287-294 | For every operand, aligned or not: 00 00 00 00 05 00 and exactly the page around it erased, if it lies in the region and the controller grants it; else errERASE in state 10 and nothing changed |
| Transfers.UnknownCarried | src/usb_dfu.c:295-299 | Opcode 0 does nothing and tells success; any other unknown opcode tells errVENDOR in state 10 |
| Transfers.DataCarried | src/usb_dfu.c:300-309 | A data block is written at the pointer plus 1024 bytes a block: 00 00 00 00 05 00, or errWRITE in state 10; the address an incomplete block 0 would go to moves behind it on success |
| Transfers.ManifestCarried | src/usb_dfu.c:311-342 | Behind an empty DNLOAD in DNLOAD_IDLE GETSTATUS tells 00 00 00 00 08 00 |
| Session.DataBlockWrittenUnlessStale | src/usb_dfu.c:274-309 | A data block is carried out as sent exactly when no command was pending |
| Session.StaleCommand | src/usb_dfu.c:349-353 | Every block-0 command, in any packet split, can be left pending in IDLE by an oversized DNLOAD and CLRSTATUS |
| Session.PartialBlock | src/usb_dfu.c:300-309 | A block cut short, in any packet split, is written as far as it came: a data block at its own address, block 0 at the address an earlier block left behind |
| Download.ErasePhase | src/usb_dfu.c:287-294 | If the controller grants every erase, page after page leaves exactly those pages at 0xFF and the pointer where it was; if not, the device ends in ERROR with nothing changed outside the pages |
| Download.WritePhase | src/usb_dfu.c:300-309 | If the controller grants every half-word, block after block the erased pages hold the image so far and nothing else changes; if not, ERROR with nothing changed outside the pages |
| Download.DownloadWritesImage | src/usb_dfu.c:264-381 | Every session for an image that fits, in any packet split, with any status stages between and for every fault pattern: it ends in DNLOAD_IDLE exactly when every erase and half-word was granted, with the image in flash, the rest of its pages erased and every other byte unchanged; else it ends in ERROR with an error status and nothing changed outside the pages |
| Download.WithImageBytes | src/flash_if.c:186-190 | What that memory is, byte by byte |
| Download.MakePlan | tools/test_ep0.c:339-394 | For every image that fits there are the transfers of such a session |
| Download.SessionExists | tools/test_ep0.c:339-394 | And events on the bus that carry them out |
| Upload.ReadBlockGivesFlash | src/usb_dfu.c:398-413 | One UPLOAD drained through endpoint 0, and whatever idling follows it, gives the flash from the block's address on, clipped at the inclusive end, in the packets the host acknowledges |
| Upload.ReadPastEnd | src/usb_dfu.c:400-405 | Past the region an UPLOAD gives one empty packet and returns to IDLE |
| DataStage.CompletionsTakePackets | src/usb_dfu.c:545-561 | Completions move only the transfer in flight, one packet each |
| DataStage.ReadingIsCompletions | src/usb_dfu.c:545-561 | The host's reading leaves the device where as many completions do |
| DataStage.BusAddressMoves | src/usb_dfu.c:563-567 | With one event per poll the bus address moves only on a bus reset and when a whole reply was taken |
| DataStage.CompletionsApplyAddress | src/usb_dfu.c:545-567 | For every reply, a waiting address takes effect with the completion of its last packet and not earlier |
| DataStage.StaleBusAddress | src/usb_dfu.c:658-689 | Once the reply to the first request behind a bus reset is taken, unless that is a SET_ADDRESS, the device is at address 0 exactly when no SET_ADDRESS was still waiting |
| DataStage.AddressOutlivesReset | src/usb_dfu.c:658-689 | A SET_ADDRESS followed by a bus reset before its status stage is such a waiting address |
| Polling.CoalescedSetup | src/usb_dfu.c:705-717 | A SETUP polled together with a completion leaves its whole reply to be read at the expected address exactly when the reply is one packet and no other address is waiting |
| Polling.CoalescedSetAddress | src/usb_dfu.c:563-567 | A SET_ADDRESS polled together with a completion moves the device while its status packet is still queued |
| Polling.CoalescedPacket | src/usb_dfu.c:705-717 | An OUT packet polled together with a completion is served first, and the status packet it queues stays queued |
| Polling.ResetServedAlone | src/usb_dfu.c:695-699 | A poll that finds a bus reset serves nothing else, whatever the endpoint register shows |
| Polling.PolledIsStep | src/usb_dfu.c:692-720 | Polling the snapshot that a tick leaves is one step of the run |
| Upload.ReadBackGivesRegion | src/usb_dfu.c:384-414 | Uploading until a block comes back empty, with any status stages and requests that move nothing in between: the bytes acknowledged on the bus are exactly the flash from the pointer to the last byte of the region, and the device is back in IDLE |
| Upload.ReadBackExists | src/usb_dfu.c:384-414 | For every device and anything the host may do in between there are such uploads, as many as there are block numbers |
| Upload.RoundTrip | src/usb_dfu.c:264-434 | Download, ABORT, upload, for every fault pattern and with the status stages in between: if every operation was granted the bytes acknowledged in the uploads are the image where the host put it and around it what the download left; else they differ from the old region in the pages of the image at most |
| Upload.UploadsStartAtRegion | src/usb_dfu.c:384-434 | As long as CLRSTATUS never leaves ERROR, every upload is numbered from the region start |
| Upload.UploadAfterSetAddress | src/usb_dfu.c:426-434 | After SET_ADDRESS and ABORT an upload reads from that address exactly when it is the region start |
| Upload.UploadAfterRecovery | src/usb_dfu.c:417-423 | After SET_ADDRESS, an error and CLRSTATUS it reads from that address |
| DfuMode.RunLoop | src/main.c:354-372 | The driver polls in every iteration, serves whatever came between two polls as the specification says, never changes flash outside the region, and resets in exactly the iteration that observes MANIFEST_WAIT_RESET for the 50th time |
| DfuMode.ServeDownload | src/main.c:354-372 | The driver in its loop carries out any download session, coalesced packets included: no reset, and the outcome is that of DownloadWritesImage for every fault pattern |
| DfuMode.ServeReadBack | src/main.c:354-372 | The driver in its loop serves any read-back with no completion polled together with a SETUP: the controller sent exactly the flash from the pointer to the end of the region |
| DfuMode.ServeRoundTrip | src/main.c:354-372 | The driver in its loop serves a download, ABORT and read-back: what the controller sent in the uploads is what RoundTrip says |
| Clock.Rcc.RccWait | src/main.c:98-104 | Succeeds exactly when one of the next 200000 reads shows the flag |
| Clock.Rcc.ClockInit | src/main.c:200-228 | Ends within three timeouts for every behaviour of the ready bits; all failures leave the same settings; success means PLL selection was seen |
| Clock.UpExactlyInOrder | src/main.c:200-228 | The clock comes up exactly when crystal ready, then PLL ready, then PLL selected can be seen in this order, each within 200000 reads of the one before |
| Clock.UpSeesInOrder | src/main.c:200-228 | And those are the reads it ends with |
| Boot.Board.BootBoard | src/main.c:376-414 | One boot from the button sample to its end is BootOnce, which BootEnds describes, for every flash, option block, magic word and clock |
| Boot.Board.RunDfuMode | src/main.c:334-352 | DFU mode up to its loop, the self-reset and the dead-clock exits included |
| Boot.BootEnds | src/main.c:313-414 | Where every boot ends, and what it leaves in the magic word: DFU mode exactly for the button, the magic word or want of an application; a dead clock leads to the application or to a stop; a reset exactly when some page is protected and the option erase is granted |
| Boot.ButtonEntersDfu | src/main.c:386-389 | With F1 held and a working clock the board reaches the DFU loop, at once or behind one reset, whatever is in flash |
| Boot.PlausibleVectors | src/main.c:264-276 | The check of the vector table in numbers |
| Boot.ResetLeadsToDfu | src/main.c:343-349 | The boot behind a write-protection reset enters DFU mode whatever button and application say, asks for no other reset, and finds no page protected |
| Boot.AtMostOneReset | src/main.c:343-349 | However the flash faults, two boots settle: at most one write-protection reset |
| Boot.TornDownload | src/main.c:264-276 | With the first page erased, an interrupted download passes for an application exactly when its whole vector table went in and is plausible |
| Boot.TornDownloadEntersDfu | src/main.c:383-403 | After a power failure within the first four half-words the next boot takes the DFU branch and never jumps |
| Boot.ResetVectorInFlash | src/main.c:273-274 | A reset vector that passes lies between the region start and the end of flash exactly when it is not 0x08040000 |
| Boot.VectorBehindFlashAccepted | src/main.c:273-274 | There is a memory that passes with its reset vector at 0x08040000 |
| Update.InstalledIsPlausible | src/main.c:264-276 | An image downloaded to the region start passes for an application exactly when it has eight bytes and they are a plausible vector table |
| Update.UpdateObserves | src/main.c:354-372 | An update, from the first transfer to the end of the countdown, makes exactly fifty observations, the last one at its last iteration, if every operation was granted, and none otherwise |
| Update.UpdateExists | src/main.c:354-372 | For every image that fits there is such an update |
| Update.Install | src/main.c:354-372 | The driver serving an update resets exactly when the controller grants every operation, with the image in flash; otherwise it stays in ERROR with nothing changed outside the pages |
| Update.InstallAndBoot | src/main.c:354-414 | Update, reset and the boot behind it: the reset comes exactly when every operation was granted, and then, without F1 and the magic word, the board starts the application exactly when the image begins with a plausible vector table |

## Left out

- GPIO and USB power-up in `usb_init`, busy-wait delays, the assembly of `jump_to_app` and `Reset_Handler`: bring-up without logic; a jump is a final outcome.
- Descriptor contents: descriptors are arbitrary byte sequences below 64 KB, chosen by wValue.
- The 120 MHz and HSE-fail builds: they add no harder property.
- Endpoints other than 0 and the EP_ID field of the interrupt status: only endpoint 0 is enabled.
- DfuMode.RunLoop: a bus reset that comes while a packet or completion still waits, and more than one packet between two polls, which the endpoint refuses; UsbPoll states what a poll makes of every snapshot.
- DfuMode.ServeReadBack: no completion polled together with a SETUP, which loses packets of longer replies (Polling.CoalescedSetup); a status packet polled together with the last completion is covered.
- DfuMode.ServeRoundTrip: the same.
- FlashController.FlashUnit.Write: no write longer than MAX_WRITE whose wrapped ends are both valid; it would run on through the end of flash, and the driver's only caller passes at most 1024 bytes.
- Upload.RoundTrip: what a completion polled together with a SETUP does to the uploads.
- Flash faults that leave a page half erased or a half-word half programmed.
- Full conformance to the DFU 1.1 state diagram: the code stalls unexpected requests without entering dfuERROR, and a short upload leaves UPLOAD_IDLE; the model does what the code does.
