# Verified model of the LMS control firmware

The repository holds the gateware of an FPGA board and the firmware of its Nios II control processor,
together with the hardware abstraction layer and the drivers linked with it. This project models the
parts of that firmware that hold state over many calls, and proves what they keep:

- the interrupt-driven UART driver, as a step system in which an interrupt may run between any two
  statements of `write` and `read`, and as a class whose methods are those statements
  (`UartModel`, `UartProofs`, `UartReceive`, `UartTheorems`, `UartCalls`, `UartDriver`);
- the alarm scheduler on a 32-bit tick counter, refined to a clock with unbounded deadlines, over the
  intrusive circular list it is kept in (`LinkedList`, `AlarmModel`, `AlarmSystem`);
- the SPI master, the flash library and the gateware-write command, down to what the flash chip
  stores and what the host is told (`Spi`, `FlashChip`, `FlashLib`, `Gateware`, `GatewareReplies`);
- the microcontroller upload command (`McuUpload`), the wall clock (`TimeOfDay`), the two number
  printers and the format strings of the log printer (`Printers`, `LogPrintf`), the file descriptor
  table (`FdTable`, `FdCalls`), interrupt registration and dispatch (`Irq`), and the program break with the slab
  allocator on it (`Heap`).

`Bytes`, `Arithmetic`, `Errno` and `Wrappers` hold what these share.

`dafny verify dfyconfig.toml` verifies everything.

Code that changes state in place is a class whose methods follow the C statements; each method's
contract equates the new state with a function of the old one, and the theorems are about that
function. Words are integers reduced modulo 2^32 where the code computes with them, byte-sized
bit vectors where it shuffles bits of a byte, and sequences of bits in `Irq`. Devices appear as
parameters: interrupts and ready flags come in any order, the flash chip takes any number of frames
for an operation, status registers give any answers.

## What the proofs found

Where a property that the code suggests is false, the project has a lemma with an input that shows it
(named first in each point) and the exact condition under which the property holds.

- The receive ring overflows if a receive interrupt is served while it is full, and the RRDY mask does
  not prevent that: the service routine looks at the status register only, and `read` re-enables RRDY
  even if it has removed nothing (`MaskCanBeBypassed`, `EmptyReadDefeatsMask`; `ExactIffNoOverflow`,
  `MaskIffNoFullReenable`).
- An alarm with the longest delay, 2^32-1 ticks, fires at the next tick instead of after 2^32 ticks,
  except when the counter itself stands at 2^32-1 (`LongestDelayFiresAtOnce`; `StartIsExact`).
- A callback that stops the alarm behind its own leaves the tick on an entry that is linked to itself
  (`ReturnsIff`, whose input is any removed entry; `StopInCallback`).
- A command of two zero lengths never returns (`EmptyCommandNeverReturns`).
- A sector erase that begins while a page program is still running erases nothing and reports success
  (`EraseTooSoon`; `EraseNeedsIdleChip`).
- A payload that straddles a page is stored wrongly (`StraddlingPayloadIsLost`,
  `SomeTransferIsLost`; `TransferIsStoredIff`).
- The upload accepts portion 1 first after reset (`PortionOneIsAcceptedFirst`; `OrderIsChecked`).
- A boot command in the middle of an upload resets the microcontroller but not the sequence
  (`BootLosesUpload`; `LoadedIffNotBooted`).
- The wait with limit 500 never gives up, because its counter has 8 bits (`WaitCanGiveUp`).
- `settimeofday` multiplies in 32 bits and `gettimeofday` in 64, so a clock that is set later than 2^32
  microseconds (71 minutes) after reset reads back wrong at the usual tick rates
  (`RoundTripFails`; `RoundTripIff`, `RoundTripIffEarly`).
- When the tick counter wraps, the clock falls behind, except at one tick a second
  (`BehindAfterWrap`; `ExactUntilWrap`).
- The scan that grants an exclusive lock stops one short of the highest descriptor
  (`LockWhileShared`; `LockIsRightIff`); still no two descriptors ever hold one device (`OneHolder`).
- `fcntl` does not look whether a descriptor is open, and flags it leaves on a free one survive until an
  `open`, a failed one included, tries that descriptor (`StaleFlagsAreCleared`; `CallKeepsTidy`).
- The test of an interrupt number is signed and lets numbers from 2^31 up through (`AdmittedIff`).
- A profiling slab that `sbrk` refuses is used all the same (`RefusedSlabIsUsed`; `StepSoundIff`).

Where comments and code disagree the model follows the code:

- the comment above the error check of the receive interrupt says that the data is discarded; the code
  returns without reading RXDATA, so the byte stays in the device;
- `alt_sbrk.c` says that no bounds are checked; the code refuses blocks beyond the heap limit;
- the comment on `alt_fd_lock` promises the lock only to a descriptor alone on its device.

## Model

| member | source | states |
|---|---|---|
| UartTheorems.TransmitIsExact | software/lms_ctr_bsp/drivers/src/altera_avalon_uart_write.c:152-207 | In every interleaving of one writer, one reader and interrupts, TXDATA followed by the ring is exactly the bytes accepted, at most 63 wait, and a finished write has accepted a prefix of its buffer: all of it if it was blocking |
| UartTheorems.ReceiveIsExact | software/lms_ctr_bsp/drivers/src/altera_avalon_uart_read.c:157-212 | In every interleaving without an overflow the buffers that reads returned followed by the ring are, in order, the bytes taken from RXDATA; an empty-handed read was non-blocking or asked for nothing |
| UartReceive.ExactIffNoOverflow | software/lms_ctr_bsp/drivers/src/altera_avalon_uart_init.c:176-197 | Receive exactness holds throughout a run if and only if no receive interrupt of the run is taken with a full ring |
| UartReceive.OverflowLoses | software/lms_ctr_bsp/drivers/src/altera_avalon_uart_init.c:178-186 | A receive interrupt taken with a full ring makes the ring look empty: the 63 bytes in it and the new one are lost |
| UartReceive.MaskIffNoFullReenable | software/lms_ctr_bsp/drivers/src/altera_avalon_uart_read.c:226-229 | With receive interrupts taken only while RRDY is enabled, "RRDY enabled implies room" holds throughout a run if and only if no read re-enables RRDY over a full ring; then nothing overflows and the receive side is exact |
| UartReceive.DisciplineSuffices | software/lms_ctr_bsp/drivers/src/altera_avalon_uart_init.c:186-197 | From any state within the invariants, that of initialisation included, reads that ask for at least one byte and no receive interrupt between the last removal of a read and its re-enable keep every re-enable away from a full ring, throughout a run |
| UartTheorems.MaskCanBeBypassed | software/lms_ctr_bsp/drivers/src/altera_avalon_uart_init.c:130-141 | From initialisation, a run of interrupts the device really requests ends with lost bytes: the service routine looks at the status register and not at the mask |
| UartTheorems.EmptyReadDefeatsMask | software/lms_ctr_bsp/drivers/src/altera_avalon_uart_read.c:212-229 | A read of length 0 over a full ring re-enables RRDY, and a regular receive interrupt then loses bytes |
| UartTheorems.NoLostWakeup | software/lms_ctr_bsp/drivers/src/altera_avalon_uart_write.c:173-179 | In every run: with interrupts on the shadow register is the device register, and a non-empty ring keeps DCTS enabled, and TRDY too without flow control, whenever no write is in progress or a write is blocked |
| UartTheorems.NoLostReceiveWakeup | software/lms_ctr_bsp/drivers/src/altera_avalon_uart_read.c:191-229 | In every run without an overflow: with interrupts on, RRDY is masked only while the ring is full or a read that has taken bytes is in progress, so a read blocked on an empty ring always has RRDY enabled |
| UartTheorems.TransmitInterruptsDrain | software/lms_ctr_bsp/drivers/src/altera_avalon_uart_init.c:298-310 | k transmit interrupts, with CTS up under flow control, send exactly the first k waiting bytes in order, so 63 of them empty the ring and close can return |
| UartCalls.SourcesFollowRing | software/lms_ctr_bsp/drivers/src/altera_avalon_uart_init.c:206-283 | In every run a transmit interrupt that leaves the ring empty ends with TRDY and DCTS masked at the device; one that leaves bytes waiting keeps DCTS, and TRDY is on unless CTS throttles twice |
| UartCalls.NoStorm | software/lms_ctr_bsp/drivers/src/altera_avalon_uart_init.c:271-282 | No interrupt storm: without flow control the device requests no more transmit interrupts in a row than bytes wait in the ring, at most one if it is empty, and none once that one has masked the sources |
| UartCalls.NonBlockingNeverWaits | software/lms_ctr_bsp/drivers/src/altera_avalon_uart_write.c:160-199 | In every run a non-blocking write or read never comes to the statements that wait, and RTS stays asserted in the shadow and at the device |
| UartCalls.UndisturbedWrite | software/lms_ctr_bsp/drivers/src/altera_avalon_uart_write.c:152-229 | A write that nothing disturbs accepts exactly as many bytes as fit into the ring, in order, reports EWOULDBLOCK exactly if that is not all, and ends with TRDY and DCTS enabled at the device |
| UartCalls.UndisturbedRead | software/lms_ctr_bsp/drivers/src/altera_avalon_uart_read.c:157-237 | A read that nothing disturbs returns exactly as many bytes as wait or as were asked for, from the head of the ring, reports EWOULDBLOCK exactly if none wait, and ends with RRDY enabled at the device |
| UartProofs.EventKeepsTx | software/lms_ctr_bsp/drivers/src/altera_avalon_uart_init.c:206-283 | Every statement of write and read and every interrupt keeps transmit exactness, the agreement of the control registers and the absence of lost wakeups |
| UartReceive.EventKeepsRx | software/lms_ctr_bsp/drivers/src/altera_avalon_uart_read.c:164-170 | Every event that is not an overflow keeps receive exactness and the reader's bookkeeping |
| UartReceive.EventKeepsRxWake | software/lms_ctr_bsp/drivers/src/altera_avalon_uart_read.c:212-229 | Every event that is not an overflow keeps "RRDY is masked only by a full ring or a read that has taken bytes" |
| UartProofs.TxIrqMoves | software/lms_ctr_bsp/drivers/src/altera_avalon_uart_init.c:211-282 | The transmit half of the service routine moves the head of the ring, and only it, to TXDATA; nothing if the ring is empty or CTS throttles |
| UartProofs.TxIrqSources | software/lms_ctr_bsp/drivers/src/altera_avalon_uart_init.c:214-282 | What the service routine leaves enabled is determined by the ring, CTS and flow control: nothing of the transmitter once the ring is empty; RRDY and RTS as they were |
| UartReceive.RxIrqMoves | software/lms_ctr_bsp/drivers/src/altera_avalon_uart_init.c:178-197 | With room in the ring and no line error the received byte is appended, and RRDY is masked when the ring becomes full |
| UartProofs.PushContents | software/lms_ctr_bsp/drivers/src/altera_avalon_uart_write.c:203-206 | Storing behind the ring and advancing its end appends the byte; storing alone shows nothing to the other side |
| UartProofs.PopContents | software/lms_ctr_bsp/drivers/src/altera_avalon_uart_init.c:237-239 | Advancing the start removes exactly the head |
| UartProofs.ContentsLength | software/lms_ctr_bsp/drivers/src/altera_avalon_uart_init.c:178-193 | The two indices determine the number of waiting bytes, which is at most 63; full and empty are told apart |
| UartDriver.Driver.RxIrq | software/lms_ctr_bsp/drivers/src/altera_avalon_uart_init.c:153-198 | The in-place receive half does to the fields what the step system's receive half does |
| UartDriver.Driver.TxIrq | software/lms_ctr_bsp/drivers/src/altera_avalon_uart_init.c:206-283 | The in-place transmit half does to the fields what the step system's transmit half does |
| UartDriver.Driver.Irq | software/lms_ctr_bsp/drivers/src/altera_avalon_uart_init.c:107-144 | The service routine on the fields is one interrupt event of the step system |
| UartDriver.Driver.Write | software/lms_ctr_bsp/drivers/src/altera_avalon_uart_write.c:137-229 | With interrupts between its statements, with and without flow control: returns the number of bytes accepted, appends exactly that prefix of the buffer to what has been accepted, reports EWOULDBLOCK if and only if it is short, accepts all when blocking, and while bytes wait leaves DCTS enabled, and TRDY too without flow control |
| UartDriver.Driver.Read | software/lms_ctr_bsp/drivers/src/altera_avalon_uart_read.c:137-237 | With interrupts between its statements: moves n bytes into the buffer and touches no more of it, returns 0 only when asked for 0 or non-blocking, leaves RRDY enabled, and keeps the receive side exact as long as nothing has overflowed |
| UartDriver.Driver.CopyLoop | software/lms_ctr_bsp/drivers/src/altera_avalon_uart_write.c:152-207 | The copy loop takes the writer from its first to its last loop test of the step system and leaves bytes over only when non-blocking and full |
| UartDriver.Driver.ReadLoop | software/lms_ctr_bsp/drivers/src/altera_avalon_uart_read.c:157-212 | The outer loop delivers exactly what it has put into the buffer |
| UartDriver.Driver.Close | software/lms_ctr_bsp/drivers/src/altera_avalon_uart_init.c:298-310 | Returns if and only if the ring is empty, once everything accepted has been sent, or else EWOULDBLOCK if non-blocking; it terminates because interrupts drain the ring |
| LinkedList.List.Insert | software/lms_ctr_bsp/HAL/inc/sys/alt_llist.h:90-98 | Inserting in place prepends to the sequence of elements; the circle stays doubly linked |
| LinkedList.List.Remove | software/lms_ctr_bsp/HAL/inc/sys/alt_llist.h:105-117 | Removing in place deletes exactly that element; for an entry already removed nothing changes |
| LinkedList.BothChains | software/lms_ctr_bsp/HAL/inc/sys/alt_llist.h:64-67 | Following next from the head visits the elements and comes back; following previous visits them in reverse |
| LinkedList.Replay | software/lms_ctr_bsp/HAL/inc/sys/alt_llist.h:90-117 | Any legal sequence of insertions and removals over a pool of entries takes the list to the sequence that the operations mean |
| LinkedList.RemoveTwice | software/lms_ctr_bsp/HAL/inc/sys/alt_llist.h:110-116 | A second removal of the same entry changes nothing |
| LinkedList.WithoutSplit | software/lms_ctr_bsp/HAL/inc/sys/alt_llist.h:107-108 | Deleting an element joins what is before it to what is behind it |
| LinkedList.ReturnsIff | software/lms_ctr_bsp/HAL/inc/sys/alt_llist.h:105-117 | Following next from an entry gets to the head if and only if the entry is still linked; a removed entry leads back to itself for ever |
| AlarmModel.StartStands | software/lms_ctr_bsp/HAL/src/alt_alarm_start.c:80-96 | An alarm started with nticks < 2^32-1 stands for the ideal deadline start + nticks + 1: time is the deadline modulo 2^32, and the flag is set if and only if the deadline lies in the next epoch |
| AlarmModel.StartIsExact | software/lms_ctr_bsp/HAL/src/alt_alarm_start.c:80-96 | An alarm is first due after exactly nticks + 1 ticks if and only if nticks is not 2^32-1 or the counter stands at 2^32-1 |
| AlarmModel.LongestDelayFiresAtOnce | software/lms_ctr_bsp/HAL/src/alt_alarm_start.c:80-96 | An alarm started at tick 0 with the longest delay, 2^32-1, is first due at the very next tick |
| AlarmModel.TickStands | software/lms_ctr_bsp/HAL/src/alt_tick.c:104-138 | One tick calls back exactly at the ideal deadline, and what is left stands for the unchanged deadline or for the deadline plus the callback's answer |
| AlarmModel.TickAllStands | software/lms_ctr_bsp/HAL/src/alt_tick.c:100-141 | One tick over any list makes exactly the callbacks of the ideal list, in order, and keeps all alarms standing for their deadlines |
| AlarmModel.StepRefines | software/lms_ctr_bsp/HAL/src/alt_tick.c:96-141 | Starting, stopping and ticking keep the scheduler a refinement of the ideal one with unbounded deadlines |
| AlarmModel.SchedulerRefinesIdeal | software/lms_ctr_bsp/HAL/src/alt_tick.c:87-148 | Over every run, across any number of wraps of the counter, exactly the callbacks of the ideal scheduler are made, at the same ticks and in the same order |
| AlarmModel.WaitClosed | software/lms_ctr_bsp/HAL/src/alt_tick.c:109-115 | Between starts and callbacks only the wrap of the counter clears the flag |
| AlarmModel.TickAllAppend | software/lms_ctr_bsp/HAL/src/alt_tick.c:100-141 | A tick treats the alarms of a list independently and in order |
| AlarmSystem.Scheduler.Start | software/lms_ctr_bsp/HAL/src/alt_alarm_start.c:64-112 | Puts the alarm first in the list with the computed fields; reports a missing clock before a missing alarm, and then changes nothing |
| AlarmSystem.Scheduler.Stop | software/lms_ctr_bsp/HAL/src/alt_tick.c:66-73 | Takes exactly that alarm out of the list |
| AlarmSystem.Scheduler.Tick | software/lms_ctr_bsp/HAL/src/alt_tick.c:87-148 | The traversal over the linked list, which unlinks entries as it goes, visits every alarm once, makes the callbacks of one step on values and leaves the list well-formed with the values of that step |
| AlarmSystem.Scheduler.StopInCallback | software/lms_ctr_bsp/HAL/src/alt_tick.c:100-141 | When a callback stops other alarms, the traversal gets back to the head of the list, and so ends, if and only if the entry it has saved is not among them |
| AlarmSystem.ValuesWithout | software/lms_ctr_bsp/HAL/src/alt_tick.c:121-124 | Unlinking an entry drops exactly its alarm from the values |
| Spi.EveryScheduleIsGood | software/lms_ctr_bsp/drivers/src/altera_avalon_spi.c:57-118 | For every schedule of ready flags: at most one byte is outstanding, sent minus received is 1 minus the credit, the -1024 branch is not taken, the chip select stays as it was, the slave has seen a prefix of the outgoing bytes, and a finished loop has exchanged them all and stored the last read_length replies |
| Spi.PollKeepsGood | software/lms_ctr_bsp/drivers/src/altera_avalon_spi.c:82-117 | Every poll, whatever the flags, keeps the transfer invariant |
| Spi.TwoPollsPerByte | software/lms_ctr_bsp/drivers/src/altera_avalon_spi.c:79-118 | A loop that is not finished has used fewer effective polls than two per byte |
| Spi.EmptyCommandNeverReturns | software/lms_ctr_bsp/drivers/src/altera_avalon_spi.c:100-115 | With both lengths 0 the loop never ends, whatever the flags do |
| Spi.Command | software/lms_ctr_bsp/drivers/src/altera_avalon_spi.c:41-134 | For a non-empty command the routine performs exactly the exchange of write_data and read_length zeros, and returns the last read_length replies |
| Spi.ExchangeAllAppend | software/lms_ctr_bsp/drivers/src/altera_avalon_spi.c:93-98 | Exchanging two byte strings one after the other is exchanging their concatenation |
| Spi.ToggledBytesAreFrames | software/lms_ctr_bsp/drivers/src/altera_avalon_spi.c:66-76 | A toggling command on a released bus sends every byte in a frame of its own and leaves the bus released, merged or not |
| FlashChip.ReverseTwice | software/lms_ctr_app/spi_flash_lib.c:16-23 | Reversing the bit order twice is the identity |
| FlashChip.ReverseMirrors | software/lms_ctr_app/spi_flash_lib.c:16-23 | Every bit moves to the mirrored place |
| FlashChip.AddressRoundTrip | software/lms_ctr_app/spi_flash_lib.c:53-55 | The three address bytes decode to the address modulo 2^24 |
| FlashChip.CommandIsFrame | software/lms_ctr_bsp/drivers/src/altera_avalon_spi.c:66-131 | A command on a released bus is received as one frame of mirrored bytes, and the data read are the mirrored replies |
| FlashChip.MergedCommandsAreOneFrame | software/lms_ctr_app/spi_flash_lib.c:118-119 | Two commands of which the first keeps the chip select are received as one frame |
| FlashLib.MirroredLocation | software/lms_ctr_app/spi_flash_lib.c:53-55 | The chip sees the command code and the address most significant bit and byte first |
| FlashLib.WaitOutcome | software/lms_ctr_app/spi_flash_lib.c:134-180 | The wait succeeds if and only if the operation in progress ends within the retries; then the chip is idle and write-enabled and nothing else has changed |
| FlashLib.AwaitErasedOutcome | software/lms_ctr_app/spi_flash_lib.c:216-233 | The polling behind an erase succeeds if and only if the operation in progress ends within the retries |
| FlashLib.EraseNeedsIdleChip | software/lms_ctr_app/spi_flash_lib.c:184-234 | A sector is erased if and only if the chip is idle when the call begins, because a busy chip ignores the write-enable |
| FlashLib.EraseTooSoon | software/lms_ctr_app/spi_flash_lib.c:184-234 | From an idle chip with a non-zero latency, an erase issued right after a page program reports success and erases nothing, whatever the page, the address and the sector |
| FlashLib.EraseOnlyIfAsked | software/lms_ctr_app/spi_flash_lib.c:184-234 | Without the request to erase no memory changes, and the call succeeds exactly if the operation in progress ends within the retries |
| FlashLib.WritePageOutcome | software/lms_ctr_app/spi_flash_lib.c:96-119 | A page program is only issued to an idle chip with the latch set, so it takes effect |
| FlashLib.WritePagesOutcome | software/lms_ctr_app/spi_flash_lib.c:50-130 | Writing n pages succeeds if and only if the chip keeps pace, and then exactly the addressed bytes have been programmed |
| FlashLib.ReadPagesReturn | software/lms_ctr_app/spi_flash_lib.c:57-88 | Reading n pages from an idle chip returns the mirrored bytes of the addressed range |
| FlashLib.WriteThenRead | software/lms_ctr_app/spi_flash_lib.c:31-131 | n pages written to blank flash and read back once the chip is idle are the same buffer, for every n and page address in the 24-bit range |
| FlashLib.FlashBus.WaitForStatus | software/lms_ctr_app/spi_flash_lib.c:134-180 | The polling method does to the chip what the wait on values does, within STATUS_RETRIES + 1 polls |
| FlashLib.FlashBus.EraseSector | software/lms_ctr_app/spi_flash_lib.c:184-234 | The method does to the chip what the erase on values does |
| FlashLib.FlashBus.Transfer | software/lms_ctr_app/spi_flash_lib.c:31-131 | Reading or writing page by page over the bus is the transfer on values; a length that is not a number of pages is refused |
| Gateware.TransferIsStoredIff | software/lms_ctr_app/main.c:741-829 | In every transfer from portion 0 to the empty packet that fits the flash and whose pages find the chip ready, the flash from page 0 on holds the concatenated payloads if and only if no payload straddles a page, other than one whose left-over part equals its beginning |
| Gateware.StraddlingPayloadIsLost | software/lms_ctr_app/main.c:802-810 | On a chip without latency, nine payloads of 31 bytes and the empty packet make a transfer, and the flash does not hold the stream unless the last 23 bytes of the payload equal its first 23 |
| Gateware.SomeTransferIsLost | software/lms_ctr_app/main.c:741-829 | A session, a chip and a transfer to them exist for which the flash does not hold the stream |
| Gateware.TransferLands | software/lms_ctr_app/main.c:741-829 | Straddling or not, the flash then holds exactly what the copies have placed |
| Gateware.LandedIffSurvive | software/lms_ctr_app/main.c:802-810 | What is placed is the stream if and only if every payload survives |
| Gateware.StraddleExact | software/lms_ctr_app/main.c:802-810 | One payload is buffered correctly if and only if it fits the page or its left-over part equals its beginning |
| Gateware.PacketBalances | software/lms_ctr_app/main.c:755-812 | fpga_byte = flash_page * 256 + flash_page_data_cnt is kept by every packet, straddling ones included |
| Gateware.PacketOutcome | software/lms_ctr_app/main.c:745-828 | A packet keeps the indices in range; for its reply see the rows of GatewareReplies |
| GatewareReplies.PageReply | software/lms_ctr_app/main.c:779-828 | A packet that completes a page is answered with an error if and only if an erasure or program of that page runs out of retries or the size is exceeded; the page counts as written if and only if the flash calls succeed, and then the array holds it; otherwise the full page is kept |
| GatewareReplies.BufferedReply | software/lms_ctr_app/main.c:755-828 | A packet that completes no page leaves the flash alone, appends its payload to the page buffer, and is answered with an error if and only if the size is exceeded |
| GatewareReplies.SentAgain | software/lms_ctr_app/main.c:752-793 | After an error of the flash the same packet can be sent again: it then does exactly what it would have done in the first place |
| GatewareReplies.SizeRecorded | software/lms_ctr_app/main.c:814-825 | The end packet puts the size, least significant byte first, and the autoload flag at the start of the page buffer, unless it reports an error |
| Gateware.PacketKeeps | software/lms_ctr_app/main.c:755-828 | Every packet keeps flash, buffer and blank rest of the sector consistent with what has been placed |
| Gateware.PageGoesOut | software/lms_ctr_app/main.c:779-799 | A full page is programmed once, into memory erased in the same session, and pages before it stay |
| Gateware.EraseClears | software/lms_ctr_app/main.c:783-784 | Before a sector's first page the whole sector becomes blank and nothing before it changes |
| Gateware.EndStoresAll | software/lms_ctr_app/main.c:769-773 | The empty packet writes the page that has been started |
| Gateware.Programmer.FillPage | software/lms_ctr_app/main.c:755-777 | The in-place copy into the page buffer is the one on values |
| Gateware.Programmer.Handle | software/lms_ctr_app/main.c:741-829 | The command over the global variables and the flash bus does and replies what the packet step does, of which the rows of GatewareReplies say what that is |
| McuUpload.UploadIsExact | software/lms_ctr_app/main.c:1003-1173 | In every run in which a start precedes portion 1, the bytes pushed into the FIFO since the last start are the payloads of portions 0 to last_portion in order, 8192 bytes once portion 255 is in |
| McuUpload.OrderIsChecked | software/lms_ctr_app/main.c:1005-1013 | Every packet of a run is accepted or refused as its number demands if and only if the run does not send portion 1 before a first start |
| McuUpload.RefusedChangesNothing | software/lms_ctr_app/main.c:1008-1012 | A gap or a repeat changes neither the registers nor last_portion |
| McuUpload.PortionOneIsAcceptedFirst | software/lms_ctr_app/main.c:1006-1008 | After reset portion 1 is accepted first, since last_portion is 0 |
| McuUpload.LoadedIffNotBooted | software/lms_ctr_app/main.c:1048-1060 | What the microcontroller holds is the whole upload if and only if it was not booted since the start: a boot resets it but not last_portion |
| McuUpload.BootLosesUpload | software/lms_ctr_app/main.c:1048-1060 | After the start, portion 1 and a boot, the microcontroller holds nothing of the two payloads, and portion 2 is still accepted as the next one |
| McuUpload.StepLogs | software/lms_ctr_app/main.c:1015-1119 | One packet pushes its payload exactly if it is accepted and not a boot, after the control writes of portion 0 |
| McuUpload.ControlsAreModes | software/lms_ctr_app/main.c:1015-1061 | In every run the control register is given exactly a reset and then the mode 1, 2 or 3 for every portion 0, and the reset alone for any other mode, in the order of the packets |
| McuUpload.ModeComesFirst | software/lms_ctr_app/main.c:1015-1061 | Portion 0 writes the reset, then the mode, and then its payload unless it boots |
| McuUpload.WaitCanGiveUp | software/lms_ctr_app/main.c:1065-1143 | A wait with an 8-bit retry counter can give up if and only if its limit is at most 255: the one of 30 can, the one of 500 cannot |
| McuUpload.Loader.Handle | software/lms_ctr_app/main.c:1003-1180 | The command is the step on values; portion 0 writes 0 and then 1, 2 or 3 for EEPROM, SRAM and boot, and then its payload unless it boots; the payload follows a wait for an empty buffer, and the accesses are made in this order; it answers wrong order exactly for a gap or a repeat, and an error exactly if the last portion is followed by 30 answers without the programmed bit |
| McuUpload.Loader.Load | software/lms_ctr_app/main.c:1063-1171 | The payload is written after an answer with an empty buffer or 30 without; then an answer with an empty buffer is awaited, and behind the last portion the programmed bit, in this order |
| McuUpload.Loader.WaitFor | software/lms_ctr_app/main.c:1150-1170 | The bounded wait counts to its limit if and only if none of that many answers shows the bit |
| McuUpload.Loader.WaitUntilEmpty | software/lms_ctr_app/main.c:1125-1143 | The wait of 500 ends at the first answer with an empty buffer |
| TimeOfDay.ClockIsExact | software/lms_ctr_bsp/HAL/src/alt_gettod.c:89-112 | A clock set when the 32-bit product does not wrap reads, m ticks later and before the tick counter wraps, exactly m ticks more, normalised and never clamped, if the rate divides a million |
| TimeOfDay.ExactUntilWrap | software/lms_ctr_bsp/HAL/src/alt_gettod.c:89-112 | With the 32-bit tick counter wrapping: the clock reads exactly m ticks more if and only if the counter has not wrapped in between or there is one tick a second |
| TimeOfDay.BehindAfterWrap | software/lms_ctr_bsp/HAL/src/alt_gettod.c:89-112 | At more than one tick a second a clock read after the wrap of the counter is behind |
| TimeOfDay.ClockIsMonotone | software/lms_ctr_bsp/HAL/src/alt_gettod.c:89-112 | Each tick adds its length, so time does not run backwards |
| TimeOfDay.RoundTripIff | software/lms_ctr_bsp/HAL/src/alt_settod.c:80-84 | For a time other than zero and a rate that divides a million, set and then get returns the time if and only if the 32-bit product wrapped a multiple of 15625 times |
| TimeOfDay.RoundTripFails | software/lms_ctr_bsp/HAL/src/alt_settod.c:80-84 | At 1000 ticks a second and 72 minutes after reset, a clock set to one second does not read one second |
| TimeOfDay.RoundTripIffEarly | software/lms_ctr_bsp/HAL/src/alt_settod.c:80-84 | At 64 or more ticks a second, that is if and only if the clock is set before 2^32 microseconds since reset |
| TimeOfDay.ExactIffRateDivides | software/lms_ctr_bsp/HAL/src/alt_gettod.c:91-93 | A clock set at reset stays exact if and only if the rate divides a million |
| TimeOfDay.TicksAddUp | software/lms_ctr_bsp/HAL/src/alt_gettod.c:91-93 | Whole seconds and the remainder in microseconds add up to all ticks |
| TimeOfDay.ReadingIsSum | software/lms_ctr_bsp/HAL/src/alt_gettod.c:89-112 | What is read is normalised and equals the sum of offset and ticks to the microsecond, unless microseconds and total are negative; then it is 0 |
| TimeOfDay.WrapsCancel | software/lms_ctr_bsp/HAL/src/alt_settod.c:83-84 | Wraps of the product cancel in multiples of 15625 |
| TimeOfDay.Clock.SetTimeOfDay | software/lms_ctr_bsp/HAL/src/alt_settod.c:72-96 | Stores the offset and the zone, or reports ENOSYS and changes nothing else without a clock |
| TimeOfDay.Clock.GetTimeOfDay | software/lms_ctr_bsp/HAL/src/alt_gettod.c:76-124 | The two loops compute the normal form of the sum; without a clock the caller's structures are left alone |
| Printers.FieldReadsBack | software/lms_ctr_bsp/HAL/src/alt_log_printf.c:206-297 | A printed field reads back as the number, for every 32-bit value, base, sign, width and padding, and is max(width, digits + sign) characters long |
| Printers.PaddingIsPlaced | software/lms_ctr_bsp/HAL/src/alt_log_printf.c:257-279 | Zero padding stands between the sign and the digits and prints no blank; blanks stand in front of the sign, and the digits behind them have no leading zero |
| Printers.DecodeDigits | software/lms_ctr_bsp/HAL/src/alt_log_printf.c:281-297 | The numeral of a value decodes to the value |
| Printers.NoLeadingZero | software/lms_ctr_bsp/HAL/src/alt_log_printf.c:247-255 | A numeral other than that of 0 has no leading zero |
| Printers.FirstDigit | software/lms_ctr_bsp/HAL/src/alt_log_printf.c:281-297 | Dividing by the largest place value yields the first digit, and the remainder has the others |
| Printers.DigitCount | software/lms_ctr_bsp/HAL/src/alt_log_printf.c:247-255 | A value between two powers of the base has as many digits as the powers say |
| Printers.Console.CountDigits | software/lms_ctr_bsp/HAL/src/alt_log_printf.c:247-255 | The counting loop finds the number of digits and the largest place value, which does not exceed 32 bits |
| Printers.Console.PrintPadding | software/lms_ctr_bsp/HAL/src/alt_log_printf.c:257-279 | Prints what a field has before its digits: zeros behind the sign or blanks in front of it |
| Printers.Console.PrintDigits | software/lms_ctr_bsp/HAL/src/alt_log_printf.c:281-297 | Printing from the largest place value down prints the digits |
| Printers.Console.PrintInteger | software/lms_ctr_bsp/HAL/src/alt_log_printf.c:206-297 | Prints the field of the value, nothing else |
| LogPrintf.MachineIsGrammar | software/lms_ctr_bsp/HAL/src/alt_log_printf.c:130-340 | For every format string the character-by-character state machine prints what the format's pieces mean, one after the other, and never lacks an argument if and only if the pieces do not |
| LogPrintf.DirectiveReadsBack | software/lms_ctr_bsp/HAL/src/alt_log_printf.c:152-317 | Written with any leading zero, positive width, precision and l, an integer directive takes one argument and prints blanks, sign, zeros and the fewest digits: o in base 8, x and X in base 16 with small or capital letters, d, i and u in base 10, and d and i take the word as signed; the text reads back as that number, and precision and l make no difference |
| LogPrintf.TextDirectives | software/lms_ctr_bsp/HAL/src/alt_log_printf.c:319-334 | %c prints the character and %s the string behind blanks up to the width, uncut and never zero-padded, and takes one argument |
| LogPrintf.UnknownLetter | software/lms_ctr_bsp/HAL/src/alt_log_printf.c:200-337 | A directive with any other letter, a percent sign behind flags included, prints nothing and takes no argument |
| LogPrintf.PiecesAreAll | software/lms_ctr_bsp/HAL/src/alt_log_printf.c:130-170 | Every format string is the concatenation of its pieces and of a last directive without a letter, if it breaks off in one |
| LogPrintf.SpecMeans | software/lms_ctr_bsp/HAL/src/alt_log_printf.c:152-199 | A directive written with a leading zero and the numeral of a width is taken for exactly that flag and that width |
| LogPrintf.SpecRuns | software/lms_ctr_bsp/HAL/src/alt_log_printf.c:152-199 | Behind any flags the state variables hold the leading zero and the number that the digits before the decimal point write down, -1 if there are none |
| LogPrintf.Printf | software/lms_ctr_bsp/HAL/src/alt_log_printf.c:114-341 | The loop over the format prints what the state machine does |
| LogPrintf.Convert | software/lms_ctr_bsp/HAL/src/alt_log_printf.c:202-336 | The letter of a directive prints its argument and takes it, or neither if it is unknown |
| Printers.TopNibble | software/lms_ctr_bsp/HAL/src/alt_printf.c:98-111 | The topmost four bits are the first digit in base 16 |
| Printers.Console.PrintHex | software/lms_ctr_bsp/HAL/src/alt_printf.c:84-113 | Shifting and masking prints the same string as the division algorithm for a plain %x |
| FdTable.OpenOutcome | software/lms_ctr_bsp/HAL/src/alt_open.c:105-171 | open succeeds exactly if the name is known, a descriptor is free, no descriptor anywhere holds the device and the driver agrees; it returns the lowest free descriptor; a failed open leaves the table as it was unless the free descriptor had stale flags |
| FdTable.ScanIsComplete | software/lms_ctr_bsp/HAL/src/alt_open.c:79-87 | The scan up to the high-water mark finds a holder if there is one in the whole table |
| FdTable.HeldUntilReleased | software/lms_ctr_bsp/HAL/src/alt_open.c:64-92 | Over every run, once a descriptor holds a device every open of it fails until that descriptor unlocks it or, above 2, is closed |
| FdTable.EndReleases | software/lms_ctr_bsp/HAL/src/alt_ioctl.c:129-138 | Unlocking or closing the holder leaves the device held by nobody |
| FdCalls.ExclusiveIff | software/lms_ctr_bsp/HAL/src/alt_ioctl.c:127-133 | A request for exclusive access is answered with 0 if and only if the descriptor holds the device afterwards, and if and only if no other descriptor below the high-water mark is open on it; otherwise the answer is -EACCES and the table is unchanged |
| FdCalls.ExclusiveKeepsOut | software/lms_ctr_bsp/HAL/src/alt_ioctl.c:127-133 | Once it has been granted, every open of the device fails in every run until the descriptor unlocks it or, above 2, is closed |
| FdCalls.SharedReleases | software/lms_ctr_bsp/HAL/src/alt_ioctl.c:134-138 | Giving up exclusive access always answers 0 and clears the hold and nothing else |
| FdCalls.OtherRequests | software/lms_ctr_bsp/HAL/src/alt_ioctl.c:147-165 | Every other request, and every request of a file, is answered by the driver, by -ENOTTY without one and by -EBADFD for a negative descriptor, and changes no descriptor |
| FdCalls.OpenErrors | software/lms_ctr_bsp/HAL/src/alt_open.c:105-171 | A failed open returns -1 with ENODEV for an unknown name, else EMFILE for a full table, else EACCES for a device that any descriptor holds, else the error of the driver |
| FdCalls.OpenedFlags | software/lms_ctr_bsp/HAL/src/alt_open.c:131-170 | After a successful open the flags read are those asked for without the two lock bits, which cannot be passed in; no other descriptor changes |
| FdCalls.FlagsReadBack | software/lms_ctr_bsp/HAL/src/alt_fcntl.c:82-92 | After F_SETFL the two flags that may be set read as the argument has them, all others as before, and the lock is unchanged |
| FdCalls.CloseFrees | software/lms_ctr_bsp/HAL/src/alt_close.c:79-99 | close frees a descriptor above 2 whatever the driver answers, leaves a standard stream as it was, and reports the driver's error |
| FdCalls.RedirectMoves | software/lms_ctr_bsp/HAL/src/alt_io_redirect.c:58-72 | Redirecting moves the opened device and its flags into the slot of the stream and frees the descriptor; if the open fails the stream stays |
| FdTable.OneHolder | software/lms_ctr_bsp/HAL/src/alt_fd_lock.c:54-75 | Over every run no two descriptors hold one device, a descriptor that shares a held device comes after the holder, and in-use descriptors above 2 are within the high-water mark |
| FdTable.LockIsRightIff | software/lms_ctr_bsp/HAL/src/alt_fd_lock.c:61-69 | The lock is granted exactly to lone descriptors if and only if the highest descriptor allocated so far is not the only other one on the device |
| FdTable.LockWhileShared | software/lms_ctr_bsp/HAL/src/alt_fd_lock.c:61 | Two opens and a lock on the first: granted although the device is shared |
| FdTable.CallKeepsInv | software/lms_ctr_bsp/HAL/src/alt_get_fd.c:77-89 | Every open, close, ioctl and fcntl keeps the table invariant |
| FdTable.CallKeepsTidy | software/lms_ctr_bsp/HAL/src/alt_fcntl.c:86-92 | Free descriptors keep zero flags exactly if fcntl does not set flags on a free descriptor; then a failed open changes no descriptor |
| FdTable.StaleFlagsAreCleared | software/lms_ctr_bsp/HAL/src/alt_fcntl.c:86-92 | On the table of a fresh start, fcntl sets flags on the free descriptor 3, and an open that then fails clears them |
| FdTable.FlagBits | software/lms_ctr_bsp/HAL/src/alt_fcntl.c:86-92 | Flag updates by fcntl keep the two lock bits |
| FdTable.RedirectKeepsQuiet | software/lms_ctr_bsp/HAL/src/alt_io_redirect.c:59-72 | Redirecting the standard streams at start-up establishes the invariant |
| FdTable.Descriptors.GetFd | software/lms_ctr_bsp/HAL/src/alt_get_fd.c:54-101 | Claims the first free descriptor and raises the high-water mark, or reports EMFILE |
| FdTable.Descriptors.FileLocked | software/lms_ctr_bsp/HAL/src/alt_open.c:64-92 | Marks the descriptor as a device's and reports EACCES exactly if another descriptor holds the device |
| FdTable.Descriptors.OpenFile | software/lms_ctr_bsp/HAL/src/alt_open.c:105-171 | The call on the array is the one on values |
| FdTable.Descriptors.FdLock | software/lms_ctr_bsp/HAL/src/alt_fd_lock.c:54-75 | The scan and the flag on the array are those on values |
| FdTable.Descriptors.IoctlFile | software/lms_ctr_bsp/HAL/src/alt_ioctl.c:106-168 | The call on the array is the one on values |
| FdTable.Descriptors.FcntlFile | software/lms_ctr_bsp/HAL/src/alt_fcntl.c:66-101 | The call on the array is the one on values |
| FdTable.Descriptors.CloseFile | software/lms_ctr_bsp/HAL/src/alt_close.c:64-101 | The call on the array is the one on values; the standard streams stay open |
| Irq.LastOneWins | software/lms_ctr_bsp/HAL/src/alt_iic_isr_register.c:75-101 | From any state in which shadow, register and handlers agree, after any registrations, null ones included, the shadow is the register and every line has the handler and context of its last registration, or its old one if there is none, and is enabled exactly if that handler is not null |
| Irq.AdmittedIff | software/lms_ctr_bsp/HAL/src/alt_iic_isr_register.c:82 | The signed comparison refuses a line number exactly from 32 up to below 2^31; it lets 2^31 and above through, which no table entry belongs to |
| Irq.Processor.RegisterIsr | software/lms_ctr_bsp/HAL/src/alt_iic_isr_register.c:82-98 | After every statement of a registration, if interrupts are enabled then the shadow is the register and exactly the lines with a handler are enabled; a number from 32 up is refused with EINVAL |
| Irq.Processor.Switch | software/lms_ctr_bsp/HAL/inc/priv/alt_legacy_irq.h:68-99 | Sets or clears the line's bit in the shadow and the register, keeps whether interrupts were enabled, and has them disabled at every statement in between |
| Irq.SearchEndsIff | software/lms_ctr_bsp/HAL/src/alt_irq_handler.c:141-155 | The unbounded search for a set bit ends if and only if some line is pending |
| Irq.BitSet | software/lms_ctr_bsp/HAL/inc/priv/alt_legacy_irq.h:75-94 | Setting or clearing one bit of the shadow changes no other |
| Irq.Processor.ServeOne | software/lms_ctr_bsp/HAL/src/alt_irq_handler.c:132-155 | Calls the handler, with its context, of the lowest-numbered pending line; it is never null |
| Irq.Processor.FindLowest | software/lms_ctr_bsp/HAL/src/alt_irq_handler.c:139-155 | The shifting mask stops at the lowest-numbered set bit |
| Irq.Processor.Dispatch | software/lms_ctr_bsp/HAL/src/alt_irq_handler.c:128-159 | Every call is for the line that is lowest among those pending and enabled at that moment, with the handler it has then, also when handlers register and unregister handlers; the loop ends at the first quiet reading |
| Heap.RunSoundIff | software/lms_ctr_bsp/HAL/src/alt_gmon.c:133-148 | In every run all blocks and records stay apart, aligned and below the limit if and only if every record is at most 1020 bytes and every slab it needs is granted |
| Heap.StepSoundIff | software/lms_ctr_bsp/HAL/src/alt_gmon.c:137-147 | One request keeps memory sound exactly if it can be served; a refused slab is used all the same |
| Heap.RefusedSlabIsUsed | software/lms_ctr_bsp/HAL/src/alt_gmon.c:137-147 | With a heap of 256 bytes the first record of 12 bytes is put at address 2^32-1, the failure value of sbrk |
| Heap.SbrkOutcome | software/lms_ctr_bsp/HAL/src/alt_sbrk.c:75-96 | A request, negative ones included, is granted exactly if the new break is within the limit, if and only if the 32-bit sum does not wrap to the wrong side of the limit; a granted block starts at the aligned break, and a refused request only aligns the break |
| Heap.Allocator.ExtendHeap | software/lms_ctr_bsp/HAL/src/alt_sbrk.c:68-136 | The method is the extension on values, for increments of either sign |
| Heap.Allocator.McountAllocate | software/lms_ctr_bsp/HAL/src/alt_gmon.c:133-148 | The method is the allocation on values, 32-bit arithmetic included |

## Left out

- UartDriver.Driver.Write: a blocked write assumes that the device interrupts after finitely many rounds, because its transmitter is ready or, under flow control, because CTS rises; `NoLostWakeup` proves that the interrupt is enabled.
- UartDriver.Driver.Close: a blocking close assumes the same of the device.
- UartDriver.Driver.Read: the blocking branch assumes that a byte arrives after finitely many rounds; that RRDY is enabled then is `NoLostReceiveWakeup`. Lengths are not negative.
- UartReceive.DisciplineSuffices: one direction only; the exact condition is the one of `MaskIffNoFullReenable`.
- AlarmSystem.Scheduler.Tick: the callbacks answer and leave the list alone; what stopping alarms in a callback does is `StopInCallback`.
- Irq.Processor.RegisterIsr: numbers from 2^31 up, which the signed test admits (`AdmittedIff`), index outside the handler table in C and are excluded.
- Irq.Processor.Dispatch: handlers may register and unregister handlers and change the device lines, but interrupts do not nest; the lines are assumed to be quiet after finitely many handlers.
- TimeOfDay.ClockIsExact: seconds stay below 2^31-1; beyond that the C code overflows a signed integer.
- Heap.RunSoundIff: the heap lies in the lower half of the address space and the requests of a run do not shrink it; `SbrkOutcome` has the wrap-around and negative increments.
- Spi.Command: both lengths zero are excluded, since the routine then does not return (`EmptyCommandNeverReturns`). Its flags are polled until the controller becomes ready, which it does after finitely many fruitless polls; stale receive data is discarded before the model begins.
- Gateware.TransferIsStoredIff: the exact condition is for transfers whose pages find the chip ready; without that, `EraseNeedsIdleChip` and `WritePagesOutcome` say what each flash call does.
- Negative lengths of `read` and `write`, and two writers or two readers at once: the driver's semaphores exclude the latter.
- The event flags and semaphores of a multi-threaded configuration are no operations here.
- Alarm callbacks that start other alarms, list entries that were never initialised, and insertion of an entry that is already linked.
- The width of `flash_page` and of the packet counters other than `fpga_byte`, and a payload count above 32, which reads past the packet.
- The status check before a flash read is never reached, since the transfer forces fast reads.
- The autoload record behind the last page is kept in the buffer but not written by this version of the command.
- Bytes that pad the last flash page are whatever the buffer held before.
- The slave-select mask of the SPI controller: there is one slave. The flash routines never toggle the chip select.
- UartCalls.NoStorm: without flow control; with it a low CTS that is reported again and again is served each time.
- LogPrintf.Printf: a format whose letters find no argument of their kind is excluded, since the C code then reads beyond its arguments. Widths are unbounded integers, while `fmtBeforeDecimal` has 32 bits.
- The format strings of the small printer, which knows `%c`, `%s` and a plain `%x`.
- Device names: a lookup is a parameter of `open`, and no name is both a device and a file system. Driver callbacks do not touch the table.
- The profiling lists that records are pushed onto, and stack checking.
- Interrupt priority masks, the interrupt vector custom instruction and the external interrupt controller.
- The I2C, LM75, DAC, ADF4002 and Si5351 commands, GPIO, and all other packets of the command loop: single register writes.
- Gateware, timing constraints and build scripts, DMA, generic flash and boot code.
