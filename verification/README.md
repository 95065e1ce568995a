# Verified models of the vision sensing controller and USB bridge drivers

This project models, in Dafny, the two protocol stacks of these drivers that carry the most state, and
four smaller pieces with invariants of their own, and proves what they promise.

* **The vision sensing controller over SPI** (`drivers/misc/mei/hw-vsc.c`). `Crc32` and `VscTransport`:
  framing, the hunt for the sync byte, reassembly of an answer over at most five transfers of changing
  size, validation, sequence freshness. `VscWakeup`: the wake-up handshake between callers, the interrupt
  handler and the interrupt thread, step by step. `VscParse` and `VscLayout`: the three image parsers and
  the file layout they read. `VscFrames`, `VscReceiver`, `VscLoad`, `VscBoot`, `VscEndToEnd`: the frames
  of the boot loader and the firmware download, a receiver written independently from the frame layouts,
  the loader that fills and sends the frames, and the whole way from packed images to booted device.
* **The USB bridge** (`drivers/mfd/ljca.c`, `drivers/spi/spi-ljca.c`, `drivers/gpio/gpio-ljca.c`).
  `Ljca`: messages, matching of acknowledgements and the write that waits for one, for a single caller.
  `LjcaRuns`, `LjcaSafety`, `LjcaBuffers`, `LjcaRaces`: the same pieces interleaved, any number of
  callers against the read completion, one assignment at a time; what holds of every run, exactly what
  kind of step can spoil the rest, and concrete runs in which it does. `LjcaSpi`: SPI transfers in
  fragments on top of it. `LjcaGpio`: interrupt masking.
* **Camera ownership and power data** (`drivers/misc/ivsc`). `MeiAce`: the two-phase command against its
  receive callback, as a state machine and as the class that steps through it. `MeiCsi`: the one-phase
  command. `IntelVsc`: hand-over of camera and link. `MeiPse`: reassembly of a power record and the
  percentages printed from it.

Code that updates state in place is a class whose methods are proved equal to functions of the old
state; the laws are proved about those functions. Protocols are state machines over single steps, and
their laws are about every run.

## What is assumed

* Hardware, firmware and the kernel's services answer by arbitrary functions of time or of what they were
  sent; timeouts and transfer faults may strike anywhere. Allocation never fails and nothing is logged.
* `hw-vsc.c:182` indexes the answer by whole packets; the byte offset that lines 178-187 work with is
  modelled.
* The answer's length field is not checked before `hw-vsc.c:186`; devices are assumed to send at most 2048
  (`SaneAnswer`).
* `hw-vsc.c:222` takes the next sequence number before the mutex; callers are taken one after another.
* `hw-vsc.c:626` and `hw-vsc.c:704` compare the vision image's slot with the runtime image's location,
  while their message speaks of the calculated one. The model does as the code does.
* The parsers check only that a header starts inside the file. A read past the end of a file, or a
  fragment that runs past it, is the outcome `Overread` or `Undefined`, about which nothing is claimed.
* A copy past a caller's buffer sets a flag `overrun`; what the memory behind it becomes is not modelled.
* A frame is on the wire when its transfer returned no error.
* `ljca.c:399-400` reads a stub's buffer pointer once; the copy to it may come at any time later.
* One read request of the USB bridge is in flight at a time; it is submitted again only when its completion
  is over (`ljca.c:619-620`).
* Pins with an interrupt mapping are pins of the chip (`mapped` implies below `num`).
* A zero return of a camera or link command means that the firmware applied it; a failing one may or may
  not have been applied.

## Where the code does less than it seems to

Each of these is a lemma with a concrete input or run, beside a law over all inputs or runs that says
exactly when it happens, or which kinds of step it takes.

* A bulk message cut short without an error status makes a waiting `ljca_stub_write` return zero with no
  acknowledgement (`Ljca.WriteOutcome`, `Ljca.ShortSendReturnsZero`).
* After a timeout, a failed or a short send the stub still points at the caller's buffer, and every later
  answer of its type and command is copied there (`Ljca.ArmedAfter`, `Ljca.LateCopyExactly`).
* A completion that has read the stub's buffer pointer before it is cleared copies after the call has
  returned zero (`LjcaRaces.SecondAnswerCopiedAfterReturn`, `LjcaBuffers.ReleasedBufferExactly`).
* A late acknowledgement checked before the next caller sets its command and delivered after completes that
  caller's different command (`LjcaRaces.WrongCommandCompletes`, `LjcaSafety.CrossingCompletesWrongCommand`).
* A second caller on the same stub clears the first one's length before it has the mutex
  (`LjcaRaces.OverlappingCallerClearsLength`, `LjcaBuffers.LengthExactly`, `LjcaBuffers.EnterClearsLength`).
* The late answer to a call without a buffer, its completion past the pointer when the next call of the
  same command hands its own buffer over, completes that call and leaves its buffer as it was
  (`LjcaRaces.UnfilledBuffer`, `LjcaBuffers.ResultExactly`, `LjcaBuffers.LateBufferStaysUnfilled`).
* The re-enable work is not under the bus lock and can unmask a masked pin at the device
  (`LjcaGpio.TornWorkUnmasks`, `LjcaGpio.WorkInsideRoundUnmasks`, `LjcaGpio.DeviceAgreesExactly`).
* An ACE command can succeed on a reply or response copied before it reset the completions
  (`MeiAce.LateReplyPasses`, `MeiAce.UncleanResetPasses`).
* The id and the status of an ACE or CSI reply can come from two different messages
  (`MeiAce.SplitVerdict`, `MeiCsi.TwoResponsesPass`), and an empty CSI message passes for a response
  (`MeiCsi.EmptyMessageAnswers`).
* A three-plus-two boot over a table that still holds a runtime image puts the DL_SET check sum on top of
  an entry (`VscBoot.TableOverflow`, `VscEndToEnd.StaleRuntimeOverflows`).
* A power dump that times out leaves its position behind and the next one is mixed with it
  (`MeiPse.TimedOutDumpMixes`, `MeiPse.NextIsOwnExactly`); a fraction that rounds up to a whole loses its
  carry (`MeiPse.CarryIsLost`, `MeiPse.FractionBound`).

## Model

| member | source | states |
|---|---|---|
| Crc32.ComputeCrc32 | drivers/misc/mei/hw-vsc.c:39 | the byte loop of `crc32` leaves the register that absorbing the bytes one by one defines |
| Crc32.SelfCheckedIsResidue | drivers/misc/mei/hw-vsc.c:38-41 | a packet carries its own check value iff the register over all of it, check value included, is one fixed residue |
| Crc32.RegisterIsDivision | drivers/misc/mei/hw-vsc.c:39 | read from the other end, the register over any message is what long division by 0x04C11DB7 leaves of its bits as they are sent, the division of clause 3.2.9 of IEEE 802.3 |
| Crc32.RemainderIsStandard | drivers/misc/mei/hw-vsc.c:38-41 | so a check value is the complement of the remainder the standard gives, started from all ones |
| Crc32.ResidueIsStandard | drivers/misc/mei/hw-vsc.c:38-41 | that residue is 0xDEBB20E3 |
| Crc32.BurstDetected | drivers/misc/mei/hw-vsc.c:38-45 | any change confined to four consecutive bytes of a packet with a right check value, check value included, makes it wrong |
| VscTransport.PacketRoundTrip | drivers/misc/mei/hw-vsc.c:220-227 | a built packet is sync byte, command, length, number, payload and check value, each at its offset; every field and payload byte reads back, and its check value is right |
| VscTransport.BuiltPacketVerdict | drivers/misc/mei/hw-vsc.c:31-60 | validation never fails a built packet for its check value; it gives EIO iff the command is the fatal error, EAGAIN iff it is NACK or busy or the number is another, and accepts it iff neither |
| VscTransport.BurstRejected | drivers/misc/mei/hw-vsc.c:38-45 | validation rejects every non-trivial change within four consecutive bytes outside the length field |
| VscTransport.FindSyncByte | drivers/misc/mei/hw-vsc.c:122-131 | the first sync byte, or -1 iff there is none |
| VscTransport.HuntOver | drivers/misc/mei/hw-vsc.c:154-196 | when the loop ends with nothing missing, what was gathered begins with the packet at the stream's first sync byte; when it ends short, no answer was in time |
| VscTransport.SyncInThreeIsInTime | drivers/misc/mei/hw-vsc.c:133-147 | a sync byte within the first three transfers is always in time |
| VscTransport.VscHw.Collect | drivers/misc/mei/hw-vsc.c:167-187 | hunting or appending keeps what is gathered equal to the stream from its first sync byte, inside the buffer, and asks for exactly what is missing |
| VscTransport.VscHw.Reassemble | drivers/misc/mei/hw-vsc.c:154-189 | at most five transfers, the first one exactly the request and what the buffer held behind it, every later one all zeros; ends with nothing missing or all five used, unless one failed |
| VscTransport.VscHw.XferInternal | drivers/misc/mei/hw-vsc.c:135-199 | the verdict depends on the device's stream alone: validation of the packet at the first sync byte if it is in time, EAGAIN iff it is not, the fault if a transfer failed; only zeros follow the request |
| VscTransport.VscHw.Xfer | drivers/misc/mei/hw-vsc.c:201-256 | bad arguments change nothing; otherwise the request goes out under the next number, once and followed by zeros only, counted whatever comes of it, and the caller gets the accepted answer's payload, cut to its buffer, or nothing |
| VscTransport.AcceptedExactly | drivers/misc/mei/hw-vsc.c:47-57 | whatever calls went before, an in-time answer to an earlier or the current request is accepted iff its verdict suits and that request lies a multiple of 2^32 back, and then its payload is delivered |
| VscTransport.Freshness | drivers/misc/mei/hw-vsc.c:220-239 | while at most 2^32 requests have been numbered, failed and unwoken ones included, a call that succeeds has the answer to its own request |
| VscTransport.StaleAfterWrap | drivers/misc/mei/hw-vsc.c:222 | one request later the first one's answer is accepted and delivered again |
| VscWakeup.InvStep | drivers/misc/mei/hw-vsc.c:67-119 | every step keeps the counter, the pin, the mutex and the handshakes paid for consistent |
| VscWakeup.HandshakeSafe | drivers/misc/mei/hw-vsc.c:67-119 | over every interleaving the counter is never negative, successes never exceed interrupts, and the pin is low only under the mutex |
| VscWakeup.ExitRaisesPin | drivers/misc/mei/hw-vsc.c:251-255 | whoever gives the mutex back does so with the pin high |
| VscWakeup.NoReadMidTransfer | drivers/misc/mei/hw-vsc.c:89-92 | the last access of `spi_need_read` answers yes iff no transfer has the pin down |
| VscWakeup.AssertedExactly | drivers/misc/mei/hw-vsc.c:67-112 | after any run the counter is found positive iff more wake-ups came than were taken off it, and a caller transfers, or the interrupt thread goes on, iff the firmware's pin is then up |
| VscWakeup.OrdinaryTransfer | drivers/misc/mei/hw-vsc.c:101-119 | with a wake-up pending, the firmware's pin up and the mutex free, a call goes through the whole handshake, and only that wake-up is gone |
| VscWakeup.OrdinaryRead | drivers/misc/mei/hw-vsc.c:89-92 | and the interrupt thread, asking undisturbed, is told to read |
| VscParse.SkuAccepted | drivers/misc/mei/hw-vsc.c:743-756 | accepted iff the first word plus four is the file's size and that is 5 to 4100, despite the 32-bit sum |
| VscParse.BootFiles.ParseMainFw | drivers/misc/mei/hw-vsc.c:478-661 | the method leaves the table and verdict of the specification, error exits with their partial effects included |
| VscParse.BootFiles.ParseSensorFw | drivers/misc/mei/hw-vsc.c:663-736 | the same for the sensor file |
| VscParse.BootFiles.ParseSkuCnfFw | drivers/misc/mei/hw-vsc.c:738-757 | the same for the SKU file |
| VscLayout.PackedIsWellFormed | drivers/misc/mei/hw-vsc.c:513-582 | serialising any images and locations gives a file whose headers chain as the parsers walk them |
| VscLayout.WalkFinds | drivers/misc/mei/hw-vsc.c:551-582 | the walk over a well-formed file finds every header where it starts |
| VscLayout.RecoveredInOrder | drivers/misc/mei/hw-vsc.c:551-582 | ranges recovered from one file are disjoint and in file order |
| VscLayout.MainRoundTrip | drivers/misc/mei/hw-vsc.c:478-661 | a well-formed main file is accepted iff stepping A0 has the highest security version or stepping A1 has not, and the slots that matter are given; then each role's fragment is exactly its image at its place |
| VscLayout.MainAcceptedExactly | drivers/misc/mei/hw-vsc.c:495-658 | acceptance of any bytes whatever as a main file: magic, three to six images, headers chaining inside the file with the magic at all but the second, a manifest that suits the silicon, and the slots that matter |
| VscLayout.HeaderRejected | drivers/misc/mei/hw-vsc.c:495-524 | a wrong magic or image count is a rejection that changes nothing, a boot loader header that is missing or wrong one that has stored option and count only |
| VscLayout.BrokenChainRejected | drivers/misc/mei/hw-vsc.c:551-582 | a chain that breaks off before the file's count, past the end or for want of the magic, is a rejection that leaves the table alone |
| VscLayout.SensorRoundTrip | drivers/misc/mei/hw-vsc.c:663-736 | the same for the sensor file's vision and configuration images |
| VscLayout.SensorAcceptedExactly | drivers/misc/mei/hw-vsc.c:674-736 | acceptance of any bytes as a sensor file: magic, two to six images and at most six in all, both headers inside the file and with the magic |
| VscLayout.SkuRoundTrip | drivers/misc/mei/hw-vsc.c:738-757 | a packed SKU file comes back whole at its fixed location |
| VscLayout.PlacementLeast | drivers/misc/mei/hw-vsc.c:621-650 | with a zero slot, or the slot it is compared with, the place is the least 4 KiB multiple not below the previous fragment's end, and the slot otherwise; a configuration image is at any slot given |
| VscLayout.PlacementWraps | drivers/misc/mei/hw-vsc.c:622-624 | the exact condition for the 32-bit sum to leave the place at or after that end |
| VscLayout.PlacementDisjoint | drivers/misc/mei/hw-vsc.c:618-650 | under the header's bounds the three ACE ranges increase and do not overlap, and nothing wraps |
| VscFrames.SwabTwice | drivers/misc/mei/hw-vsc.c:291-317 | swapping every word twice changes nothing |
| VscFrames.SumIsAdditive | drivers/misc/mei/hw-vsc.c:759-768 | a check sum counts every byte once, wherever it is, in 32 bits |
| VscReceiver.RomChunksReceived | drivers/misc/mei/hw-vsc.c:785-807 | the receiver rebuilds the boot image from its chunks and is done exactly with the flagged one |
| VscReceiver.BootloaderReceived | drivers/misc/mei/hw-vsc.c:812-865 | the boot loader's stream is taken whole: the image byte for byte at its location |
| VscReceiver.OptionsReadBack | drivers/misc/mei/hw-vsc.c:846-996 | the option word reads back from the start and table frames, though no receiver check depends on it |
| VscReceiver.FwChunksReceived | drivers/misc/mei/hw-vsc.c:882-898 | raw chunks, last one padded, rebuild an image, and the next header falls on a frame boundary |
| VscReceiver.FragReceived | drivers/misc/mei/hw-vsc.c:903-930 | one fragment's stream adds exactly that image |
| VscReceiver.DlSetStep | drivers/misc/mei/hw-vsc.c:971-1005 | the receiver reads the listed entries back from the DL_SET frame and its check sum holds |
| VscReceiver.CamBootStep | drivers/misc/mei/hw-vsc.c:1049-1058 | the boot frame's check sum holds and ends the download |
| VscReceiver.FirmwareReceived | drivers/misc/mei/hw-vsc.c:932-1059 | the firmware stream leaves every fragment that is there, in order, byte for byte, then one boot command |
| VscLoad.SumCrcOf | drivers/misc/mei/hw-vsc.c:759-768 | the loop computes the byte sum in 32 bits |
| VscLoad.Loader.RomDevXfer | drivers/misc/mei/hw-vsc.c:280-320 | a frame travels byte-swapped iff the pin is released within 25 polls and the transfer succeeds, timeout or the fault being returned otherwise; the answer comes back swapped |
| VscLoad.Loader.LoadBoot | drivers/misc/mei/hw-vsc.c:770-810 | on success exactly the image's chunk frames go out, on failure a strict prefix |
| VscLoad.Loader.LoadBootloader | drivers/misc/mei/hw-vsc.c:812-865 | on success exactly the boot loader's stream: query, start, chunks; and it succeeds iff the image is not empty, no attempt at a frame of it fails and byte 4 of the answer to the query, un-swapped, is either token |
| VscLoad.Loader.FillDlSet | drivers/misc/mei/hw-vsc.c:973-1003 | the frame filled entry by entry is the DL_SET frame of the fragments that are there |
| VscLoad.Loader.LoadFwBin | drivers/misc/mei/hw-vsc.c:867-901 | raw chunk frames, all on success, a strict prefix on failure |
| VscLoad.Loader.LoadFwFrag | drivers/misc/mei/hw-vsc.c:903-930 | a fragment's start frame and chunks |
| VscLoad.Loader.LoadFw | drivers/misc/mei/hw-vsc.c:932-1059 | on success exactly the firmware stream, in order, on failure a strict prefix; with both cores' images there it fails only by the first attempt that does, with its result |
| VscBoot.AllCounts | drivers/misc/mei/hw-vsc.c:1084-1105 | the image counts every accepted combination of files ends up with |
| VscBoot.TableOverflow | drivers/misc/mei/hw-vsc.c:976-1003 | exactly when the check sum is written over a location/size pair |
| VscBoot.TableFits | drivers/misc/mei/hw-vsc.c:976-1003 | from a zeroed table never, and the table is full iff six in main or four plus two, with all three ACE fragments there |
| VscBoot.ListedIsDownloaded | drivers/misc/mei/hw-vsc.c:983-1047 | the table lists exactly what is downloaded before the SKU file, unless ACE images come without a runtime |
| VscBoot.WireRoundTrip | drivers/misc/mei/hw-vsc.c:291-317 | un-swapping the frames on the wire gives back the frames sent |
| VscBoot.BootReceived | drivers/misc/mei/hw-vsc.c:812-1059 | the receiver, fed the wire, ends booted with every fragment at its location and the listed table |
| VscBoot.WireBootsExactly | drivers/misc/mei/hw-vsc.c:812-1059 | of a stream that boots the receiver nothing short of the whole does |
| VscBoot.ParsesExactly | drivers/misc/mei/hw-vsc.c:1077-1119 | parsing succeeds iff every file asked for is found and accepted, the sensor file being asked for unless the main file brings six images; and which error a missing or a rejected file gives |
| VscBoot.Vsc.InitHw | drivers/misc/mei/hw-vsc.c:1061-1138 | nothing is sent unless all files parse; after that the wire carries the boot stream of the parsed table, all of it iff the boot succeeds and a strict beginning of it iff it fails; and it succeeds iff the three images needed are there, the token is one of the two and no attempt at a frame of the stream times out or faults |
| VscEndToEnd.FourPlusTwo | drivers/misc/mei/hw-vsc.c:1061-1138 | images packed as four plus two arrive, each byte for byte at its parsed place, in order, and the table lists them |
| VscEndToEnd.Six | drivers/misc/mei/hw-vsc.c:1061-1138 | the same with all six in the main file, no sensor file asked for |
| VscEndToEnd.BootFourPlusTwo | drivers/misc/mei/hw-vsc.c:1061-1138 | `init_hw` itself, on files packed as four plus two, returns success iff the token is one of the two and none of the frames, counted from the images' lengths, fails on the bus; its wire boots the receiver iff it does, and then with exactly the packed images and their table |
| VscEndToEnd.BootSix | drivers/misc/mei/hw-vsc.c:1061-1138 | the same with all six in the main file |
| VscEndToEnd.StaleRuntimeOverflows | drivers/misc/mei/hw-vsc.c:976-1003 | any three-plus-two boot over a stale runtime image lists five entries for a count of four |
| Ljca.DeliverAllStub | drivers/mfd/ljca.c:379-406 | after any messages a stub is acknowledged iff one answers its type and command, and its length is the last one's |
| Ljca.DeliverAllMemory | drivers/mfd/ljca.c:398-400 | the waiting buffer holds the answers' data, each copied over the last, and nothing of other messages |
| Ljca.DeliverAllNotices | drivers/mfd/ljca.c:379-391 | after any messages the listeners have been told exactly of those for them, in order |
| Ljca.EncodedIsNoticed | drivers/mfd/ljca.c:387-391 | a message built without the ACK flag reaches its type's listener with command and data |
| Ljca.EncodedAnswers | drivers/mfd/ljca.c:379-402 | one built with it answers its own type and command and no other, with its data |
| Ljca.WriteOutcome | drivers/mfd/ljca.c:408-481 | exactly when a write returns zero, with which length, and which error it returns otherwise |
| Ljca.ShortSendReturnsZero | drivers/mfd/ljca.c:452-457 | a short send without error status returns zero, unacknowledged, the buffer still armed |
| Ljca.WriteMemory | drivers/mfd/ljca.c:398-400 | the caller's buffer afterwards is its own answers' data over what was there |
| Ljca.ArmedAfter | drivers/mfd/ljca.c:452-475 | after a write that got to send the stub still points at the buffer iff the message was not out whole or an awaited acknowledgement did not come |
| Ljca.LateCopyExactly | drivers/mfd/ljca.c:398-475 | in exactly those cases every later answer of its type and command is copied over the buffer; in the others nothing later changes it |
| Ljca.LjcaDev.StubFind | drivers/mfd/ljca.c:355-366 | the first stub of the type, or none |
| Ljca.LjcaDev.Parse | drivers/mfd/ljca.c:379-406 | the bridge after one message is the specification's, and a listener is told of it iff it is whole, no acknowledgement, and of a type whose first stub has a listener |
| Ljca.LjcaDev.ReadComplete | drivers/mfd/ljca.c:577-624 | only a message without error that validates has any effect, on stubs and listeners alike |
| Ljca.LjcaDev.StubWrite | drivers/mfd/ljca.c:408-481 | one message out, framed and flagged, and state, result and length as specified; listeners are told exactly of what is for them meanwhile |
| Ljca.LjcaDev.Transfer | drivers/mfd/ljca.c:483-510 | the write goes to the first stub of the caller's type and waits |
| LjcaRuns.InvStep | drivers/mfd/ljca.c:379-481 | every single assignment of caller or completion, pointer read and copy apart, keeps mutual exclusion, the armed stub and the evidence for its flag |
| LjcaSafety.AcknowledgedByOwnStub | drivers/mfd/ljca.c:442-476 | over every interleaving a completely sent waiting call returns zero only after a validated acknowledgement of its own type was delivered since it cleared the flag, and of its own command if also checked since it set it |
| LjcaSafety.NoticesExactly | drivers/mfd/ljca.c:379-391 | over every interleaving the listeners have been told exactly of the messages that are for them, in order, whatever callers do |
| LjcaSafety.AcknowledgedByOwnCommand | drivers/mfd/ljca.c:392-402 | it was of its own command, unless the call itself set that while the completion was at work on an acknowledgement of another for its stub; nothing else is asked of the interleaving, nor of other calls |
| LjcaSafety.CrossingCompletesWrongCommand | drivers/mfd/ljca.c:392-402 | wherever a call can do that, it can go on to return zero on the other command's acknowledgement |
| LjcaBuffers.ReleasedBufferExactly | drivers/mfd/ljca.c:398-481 | over every interleaving a buffer given up by a successful call is left alone until handed in again iff no completion had then read the pointer to it without having copied; no completion but that one ever writes it |
| LjcaBuffers.LengthExactly | drivers/mfd/ljca.c:398-472 | over every interleaving the length a waiting call takes is zero if a call has zeroed it, at the door or on leaving, since a completion last wrote it, and that message's otherwise |
| LjcaBuffers.TakenIsReturned | drivers/mfd/ljca.c:471-481 | and that is the length it returns, whatever happens before it gives the mutex back |
| LjcaBuffers.EnterClearsLength | drivers/mfd/ljca.c:427 | from any state in which a call has been completed, one more caller at the door can make it return zero without a length |
| LjcaBuffers.ResultExactly | drivers/mfd/ljca.c:398-472 | over every interleaving, the buffer used on one stub only: what completed a waiting call is of its type, and of its command unless that was set in a crossing; the length is its exactly if not zeroed since; the buffer is what it was when the completion read the stub's pointer, overlaid with the data iff the pointer was this buffer's |
| LjcaBuffers.LateBufferStaysUnfilled | drivers/mfd/ljca.c:398-476 | wherever a call can hand its buffer over to a completion past another pointer, it can go on to return zero on that acknowledgement with the buffer as it was |
| LjcaRaces.SecondAnswerCopiedAfterReturn | drivers/mfd/ljca.c:398-481 | a run in which a second acknowledgement changes the buffer after the call has returned zero |
| LjcaRaces.WrongCommandCompletes | drivers/mfd/ljca.c:392-402 | a run in which a call is completed by another command's acknowledgement |
| LjcaRaces.OverlappingCallerClearsLength | drivers/mfd/ljca.c:427 | a run in which a two-byte acknowledgement is returned with length zero |
| LjcaRaces.UnfilledBuffer | drivers/mfd/ljca.c:398-400 | a run of two calls, one after the other, in which the second returns zero and length two on its own command's acknowledgement with its buffer untouched |
| LjcaSpi.IndicatorFields | drivers/spi/spi-ljca.c:62-66 | the three bit fields of the indicator read back |
| LjcaSpi.PacketsPartition | drivers/spi/spi-ljca.c:165-208 | the fragments are an exact partition: contiguous, 58 bytes but for the last, numbered modulo 64, only the last one marked, none over the bridge's limit |
| LjcaSpi.SharesSum | drivers/spi/spi-ljca.c:171-189 | the lengths a read asks for are between 1 and 58 and add up to the whole |
| LjcaSpi.SentIsOnTheBridge | drivers/spi/spi-ljca.c:126-208 | what the messages of a partition are, read from their own bytes: command, joined payloads or lengths asked for |
| LjcaSpi.EchoedFragment | drivers/spi/spi-ljca.c:108-121 | with an echoing device a fragment comes back unchanged, in place and in bounds |
| LjcaSpi.ReplyTaken | drivers/spi/spi-ljca.c:114-121 | an acknowledgement with 1 to 58 bytes is taken and its bytes land at their place in the receive buffer; one without any, or shorter than its header, is not |
| LjcaSpi.MirrorEchoes | drivers/spi/spi-ljca.c:108-112 | such devices exist, and may send other messages besides |
| LjcaSpi.SpiDev.ReadWrite | drivers/spi/spi-ljca.c:85-124 | one packet out; timeout without an answer, EIO for an unusable one, otherwise its bytes in the receive buffer |
| LjcaSpi.SpiDev.Transfer | drivers/spi/spi-ljca.c:165-208 | the messages sent are exactly the partition's, all on success and up to the failing one otherwise; by their bytes they are writes whose payloads join to the data if there is only data, reads asking for 58 at a time and the rest if there is only room, and write-reads if there is both; with an echoing device rx equals tx |
| LjcaSpi.SpiDev.TransferOne | drivers/spi/spi-ljca.c:216-241 | loopback of any length, whose remainder modulo 65536 alone is transferred: the whole buffer below 65536 |
| LjcaGpio.AsyncExactly | drivers/gpio/gpio-ljca.c:240-254 | one run of the work unmasks each due, unmasked pin in range exactly once and clears exactly the bits in range |
| LjcaGpio.EnabledOutsideLock | drivers/gpio/gpio-ljca.c:288-376 | over every run a pin outside its own round is enabled iff unmasked |
| LjcaGpio.ToldExactly | drivers/gpio/gpio-ljca.c:240-376 | over every run the device was last told to unmask a pin iff the rounds have settled on that, or the work has told it so against them and no round has had a message for the pin since |
| LjcaGpio.DeviceAgreesExactly | drivers/gpio/gpio-ljca.c:240-376 | so outside its round a pin and the device disagree iff the pin is masked and such a message has strayed |
| LjcaGpio.DeviceAgrees | drivers/gpio/gpio-ljca.c:351-376 | with the work and the rounds on this one pin apart, whatever other pins do, the two agree |
| LjcaGpio.TornWorkUnmasks | drivers/gpio/gpio-ljca.c:247-252 | a run in which the work, interrupted between test and message, unmasks a masked pin |
| LjcaGpio.WorkInsideRoundUnmasks | drivers/gpio/gpio-ljca.c:359-373 | a run in which the work inside a round does |
| LjcaGpio.GpioDev.IrqBusUnlock | drivers/gpio/gpio-ljca.c:351-376 | a newly unmasked pin gets an unmask message, after its configuration if it is valid, a newly masked one a mask message, an unchanged one none; the pin is then enabled iff unmasked |
| LjcaGpio.GpioDev.EventCb | drivers/gpio/gpio-ljca.c:256-286 | handlers run and pins become due in order up to the first unmapped one; the work is queued iff none is met |
| LjcaGpio.PinsOfEvent | drivers/gpio/gpio-ljca.c:262-270 | the pins of an event built from items are their indices, in order, whatever their values |
| LjcaGpio.GpioDev.Async | drivers/gpio/gpio-ljca.c:240-254 | the loop over set bits does what AsyncExactly is about |
| LjcaGpio.GpioDev.IrqSetType | drivers/gpio/gpio-ljca.c:308-341 | which trigger sets which bits of the pin's mode, the refused one included, other pins untouched |
| MeiAce.OnlyTheseComplete | drivers/misc/ivsc/mei_ace.c:396-445 | over every run in which no message has the bits of a reply to a command, or of a control notification, its completion is never counted and no command gets past waiting for it, whatever else arrives, replies to GET_FW_ID included |
| MeiAce.ByTheBits | drivers/misc/ivsc/mei_ace.c:396-462 | which message is a reply, a GET_FW_ID reply or a control notification, and where its fields are, by the bits of its bytes |
| MeiAce.FirmwareIdExactly | drivers/misc/ivsc/mei_ace.c:438-444 | over every run those who wait for the firmware's id are woken iff a GET_FW_ID reply came, and have the last one's |
| MeiAce.FailureCodes | drivers/misc/ivsc/mei_ace.c:215-262 | with what a command fails: its send's or its wait's own error, -110 where a wait ends without one, -1 where a reading is wrong |
| MeiAce.OrdinaryCommandSucceeds | drivers/misc/ivsc/mei_ace.c:207-272 | a command sent and answered in time by a reply and a notification with its own fields and a zero status returns zero |
| MeiAce.InvStep | drivers/misc/ivsc/mei_ace.c:207-272 | every step of sender and callback keeps counters, sources of the buffers and readings consistent |
| MeiAce.CommandCompleted | drivers/misc/ivsc/mei_ace.c:207-272 | over every interleaving zero is returned only after a reply and a response completed since the resets, with own id and zero status read from replies and own id from a response; counters stay in {0,1}; the two reply readings are of one message iff none was copied between |
| MeiAce.CommandReadsFreshMessages | drivers/misc/ivsc/mei_ace.c:215-216 | over every interleaving, if neither reset came while the callback had yet to complete a message of that kind with the command's own id, all those messages arrived after the resets |
| MeiAce.UncleanResetPasses | drivers/misc/ivsc/mei_ace.c:215-272 | wherever a reset comes then, the command can go on to return zero on the message copied before it |
| MeiAce.LateReplyPasses | drivers/misc/ivsc/mei_ace.c:215-272 | a run in which it does |
| MeiAce.SplitVerdict | drivers/misc/ivsc/mei_ace.c:237-250 | a run with clean resets that returns zero though no reply carries both own id and zero status |
| MeiAce.MeiAce.Receive | drivers/misc/ivsc/mei_ace.c:420-462 | by the message's bits: a GET_FW_ID reply sets the module id and wakes, touching neither counter nor buffer; a reply to a command and a control notification each go to their own buffer and completion; anything else changes nothing |
| MeiAce.MeiAce.SendCommandSync | drivers/misc/ivsc/mei_ace.c:207-272 | the method's every step, and every step of the callback between any two of them, is one of the machine's, and its zero return has what CommandCompleted and CommandReadsFreshMessages ask for |
| MeiAce.MeiAce.SetCameraOwnership | drivers/misc/ivsc/mei_ace.c:290-312 | the mutex is free again, and a zero return comes with the status in the response buffer |
| MeiCsi.SuccessExactly | drivers/misc/ivsc/mei_csi.c:89-134 | if the responses read from had whole headers: zero iff the last one by the reading of the status has status 0 or -1 and the last one by the reading of the id is the command's own; any other status is returned as it is, another id as -1 |
| MeiCsi.ResponsesAre | drivers/misc/ivsc/mei_csi.c:303-335 | by its first four bytes a message is a response iff it has one of the six command ids, zero to five |
| MeiCsi.MessageReadBack | drivers/misc/ivsc/mei_csi.c:115-131 | id, signed status and content read back from a message that was built with them |
| MeiCsi.EmptyMessageAnswers | drivers/misc/ivsc/mei_csi.c:303-335 | an empty message completes a SET_OWNER command with the last one's verdict |
| MeiCsi.TwoResponsesPass | drivers/misc/ivsc/mei_csi.c:115-131 | two responses neither of which would do can make a command succeed |
| MeiCsi.MeiCsi.Rx | drivers/misc/ivsc/mei_csi.c:290-343 | responses go to the buffer, at most one completion; privacy changes go to the registered callback alone |
| MeiCsi.MeiCsi.Send | drivers/misc/ivsc/mei_csi.c:89-134 | the result is the specification's for what arrived in its two pauses |
| MeiCsi.MeiCsi.SetOwner | drivers/misc/ivsc/mei_csi.c:136-152 | the packet sent and the result |
| IntelVsc.OwnershipSafe | drivers/misc/ivsc/intel_vsc.c:129-224 | at every moment of every history of acquires and releases failing anywhere, the link is the IPU's only while the camera is |
| IntelVsc.MipiOnlyWhenGranted | drivers/misc/ivsc/intel_vsc.c:158-177 | MIPI is configured only right after camera and link were granted, in that acquire |
| IntelVsc.Vsc.Acquire | drivers/misc/ivsc/intel_vsc.c:129-183 | nothing is sent unless both components stand registered; zero iff all three commands return zero, and then the firmware's state is as asked for |
| IntelVsc.Vsc.Release | drivers/misc/ivsc/intel_vsc.c:186-224 | link before camera, stopping at the first failure; zero iff both return zero, and then both are the firmware's |
| IntelVsc.UnregisteredForgets | drivers/misc/ivsc/intel_vsc.c:58-127 | whatever was registered before, after an unregistration a component stands registered iff a complete registration came later with no other unregistration after it |
| IntelVsc.Vsc.RegisterAce | drivers/misc/ivsc/intel_vsc.c:58-78 | over every history of registrations the flag says whether a complete one has no unregistration after it; a complete one makes the component stand, an incomplete one changes nothing, and the other component is left as it was |
| IntelVsc.Vsc.RegisterCsi | drivers/misc/ivsc/intel_vsc.c:93-114 | the same for the CSI component and its three operations |
| MeiPse.Reassembled | drivers/misc/ivsc/mei_pse.c:747-770 | from position zero any cut into non-empty pieces ends with the record in place, the position back at zero and exactly one completion, at the last piece |
| MeiPse.Partway | drivers/misc/ivsc/mei_pse.c:749-752 | part of a record, however cut, completes nothing and leaves its length behind as the position |
| MeiPse.SuccessiveDumps | drivers/misc/ivsc/mei_pse.c:747-770 | a dump after a whole one, or after one that ended in an error anywhere, is exactly its own record |
| MeiPse.TimedOutDumpMixes | drivers/misc/ivsc/mei_pse.c:749-759 | a dump after one of which only part arrived, however it is cut, is complete early, and is that part followed by its own beginning |
| MeiPse.NextIsOwnExactly | drivers/misc/ivsc/mei_pse.c:749-759 | a command gets its own record, whatever that is and however it is cut, iff it starts at position zero |
| MeiPse.MeiPse.RxDump | drivers/misc/ivsc/mei_pse.c:747-770 | the method is the specification, in place |
| MeiPse.PercentageIsRounded | drivers/misc/ivsc/mei_pse.c:481-495 | the number printed is the percentage rounded half up at the sixth decimal, whenever nothing wraps |
| MeiPse.FractionBound | drivers/misc/ivsc/mei_pse.c:484-485 | the fraction is at most 10^6, and exactly when it is 10^6 |
| MeiPse.CarryIsLost | drivers/misc/ivsc/mei_pse.c:489-494 | durations for which it is |
| MeiPse.PercentagesAddUp | drivers/misc/ivsc/mei_pse.c:477-495 | the four values of a subsystem add up to 100%, at most two units of the last place over and one under |
| MeiPse.DurationReadBack | drivers/misc/ivsc/mei_pse.c:73-96 | from a record that holds a subsystem in its place the duration read for each of its states is that state's |
| MeiPse.MeiPse.PowerStates | drivers/misc/ivsc/mei_pse.c:477-495 | the two loops print those values in 64-bit arithmetic, with no outcome for durations that add up to zero |

## Left out

- Crc32.SelfCheckedIsResidue: the table-driven form of the kernel's `crc32` is not part of this model; the bitwise form defines it.
- VscTransport.VscHw.Xfer: the wake-up handshake is a parameter here and a state machine of its own in VscWakeup; two callers racing for the next sequence number are not modelled.
- VscWakeup.NoReadMidTransfer: speaks of the access that decides; the three accesses of one call are not atomic, and a transfer may start right after.
- VscLoad.Loader.LoadFw: the clearing of the transport's `rx_buf` at line 974 is not modelled; no frame depends on it.
- LjcaRuns.InvStep: the send and its result are one step, and a copy is not interrupted byte by byte.
- LjcaSafety.AcknowledgedByOwnStub: says nothing of a send cut short without an error status, which returns zero without an acknowledgement.
- LjcaSafety.NoticesExactly: registering and unregistering event callbacks are not modelled; who listens stays as it is over a run.
- LjcaSpi.SpiDev.TransferOne: the clock set-up that may precede a transfer is not modelled, and nothing is said of what a device that does not loop back puts in the receive buffer.
- LjcaGpio.GpioDev.EventCb: the interrupt handlers of other drivers are a list of pins; an event that announces more items than it carries is only flagged.
- LjcaGpio.DeviceAgrees: a mask or unmask message counts as told whether or not its transfer succeeded, as the driver ignores the result.
- MeiAce.MeiAce.Receive: the GET_FW_ID command that the firmware's ready notification triggers is not sent here; the notification changes nothing else.
- MeiAce.MeiAce.SetCameraOwnership: the fields of the command packet and the wait for the firmware's id before it are not modelled.
- MeiAce.MeiAce.SendCommandSync: single bytes of a buffer being overwritten while it is read are not modelled; a copy is one step.
- MeiPse.MeiPse.RxDump: notifications other than power data, the trace log among them, are not part of this class.
- Probe, removal, suspend and resume, matching of ACPI names, and enumeration of stubs: plumbing without a hard property.
- `drivers/i2c/busses/i2c-ljca.c`, `drivers/misc/ivsc/mei_ace_debug.c` and the set and get commands of `mei_pse.c` and `mei_csi.c`: they repeat the command pattern with less state.
- Reading the silicon's version and formatting file names: the version is a parameter.
- The kernel's MEI core and the headers that stand in for it: not part of this model.
- Real time: a timeout is a wait that may fail.
