# Firmware models

Dafny models of the parts of the repository in which something can go wrong unseen: the interrupt-driven
UART transfer layer, the clock generator driver, the flash driver, the integer conversions of the debug
console and the priority scheduler of the Kinetis firmware under `scheduling/NonPreemtiveScheduler`, and the
HID descriptor parser, the CMSIS-DAP memory accesses and the Atmel Cortex-M7 programmer of `edbg`.

`dafny verify dfyconfig.toml` verifies all of it.

| module | about |
|---|---|
| `Machine`, `Bits` | 32-bit words, unsigned quotients, and bitwise operators on naturals |
| `UartRx`, `UartRxDriver`, `UartRxService` | reception: the queue model with its whole-run theorems, the driver on head, tail and array that refines it, and what it does for its users |
| `UartTx`, `UartTxService` | transmission, in the same way |
| `UartBaud` | the baud rate arithmetic of UART_Init and its registers |
| `PllDiv` | the PLL divider search and the registers it is for |
| `McgMode` | the mode machine of the clock generator and CLOCK_SetMcgConfig |
| `ClockFreq` | the two formulas for the core clock |
| `FlashImage`, `FlashDriver`, `FlashProtection` | the flash driver over a model of the controller's commands |
| `Scheduler` | the scheduler, the counted tasks and the main loop, for any number of tasks |
| `HidParser` | the report size in a HID report descriptor |
| `Dap`, `Cm7` | block transfers through a CMSIS-DAP adapter, and programming on top of them |
| `Console` | printing and scanning of integers |

Code that updates state is modelled by classes and methods; each method is tied to a function or a relation
on values, about which the whole-run and for-all statements are proved. C's fixed widths are written out
where they matter. Hardware is assumed to settle: a status bit that is waited for takes the value its control
bits select, and each wait has as its precondition that they select it. A flash command may fail at any time,
and one outside the flash, or across the end of a sector or block where it must not be, is an access error.
An adapter answers each request it knows correctly.

## What came to light

Where the code does not do what its documentation or its names suggest, the model follows the code, and the
statements say exactly when it does.

- The idle main loop of the scheduler goes on counting: with a 32-bit counter it prints again after
  2^32 - limit further turns (`Scheduler.QuietAfterwards`).
- UART_Init accepts an SBR that needs more than the 13 bits it is written to, such as 12500 for 300 baud from
  60 MHz (`UartBaud.RegistersExact`, `UartBaud.AcceptedButNotHeld`).
- UART_TransferGetReceiveCount does not count the bytes that came out of the ring buffer: it is right exactly when
  the ring was empty at the request (`UartRx.CountExact`, `UartRx.CountFallsShort`).
- CLOCK_CalcPllDiv finds wrong dividers from 512 MHz on and dividers too large for PRDIV with references
  from 66 MHz on (`PllDiv.TruncatedQuotient`, `PllDiv.FoundExactly`, `PllDiv.ProgrammedFreq`, `PllDiv.WideDivider`,
  `PllDiv.WrongFrequency`).
- CLOCK_SetMcgConfig looks at IRCST where it means IREFST, so that a change of OSCSEL is silently dropped, or made
  while the clock is in use; from PBE to PEE it ignores the PLL dividers; CLOCK_SetFbeMode never writes the C4 it
  computes (`McgMode.Mcg.SetMcgConfig`, `McgMode.DroppedChange`, `McgMode.Mcg.SetFbeMode`).
- The two core clock formulas differ for OSCSEL 2 with RANGE 0 in FEE mode, for OSCSEL 3, for a set LP in FLL
  modes, and in PLL modes for any OSCSEL but 0 or an unlocked PLL (`ClockFreq.CoreClocksAgree`).
- FLASH_Erase with a length of 0 erases a sector, or everything (`FlashDriver.EraseOfNothing`).
- The range check of the flash driver lets ranges through that wrap round the address space
  (`FlashDriver.CheckRangeAccepts`). Programming and verifying them ends in an access error at the end of the flash,
  FLASH_Erase may answer with success and have erased nothing (`FlashDriver.EraseRound`,
  `FlashDriver.ErasesNothing`), and FLASH_IsProtected calls them unprotected.
- FLASH_IsProtected can miss the last region of a range that does not start at a region
  (`FlashProtection.AnswerRight`, `FlashProtection.WrongAnswer`).
- The option check of `edbg` accepts a negative offset when a size is given (`Cm7.CheckForProgramming`,
  `Cm7.NegativeOffsetAccepted`), cuts off files that are too large when none is (`Cm7.Options.Check`), and lets a
  read go past the end of the flash (`Cm7.CheckForReading`, `Cm7.ReadPastTheEndAccepted`).
- %d prints a negative number without its sign (`Console.PrintThenScan`). Scanning looks for 0x and a leading 0 before
  the sign: -0x1F is read as 0, and -017 by %i as -17 (`Console.ScanSignBeforePrefix`, `Console.ScanSignedOctal`).

## Model

| member | source | states |
|---|---|---|
| UartRx.Conservation | scheduling/NonPreemtiveScheduler/drivers/fsl_uart.c:766-1098 | Over every run of receive requests, interrupts, aborts and ring-buffer changes: the bytes given to users or lost, in order, then the ring buffer, then the hardware FIFO, are the bytes that arrived; the users' buffers hold, request by request, exactly what was given. |
| UartRx.NothingLost | scheduling/NonPreemtiveScheduler/drivers/fsl_uart.c:766-1098 | Buffers, then ring, then FIFO hold all arrived bytes in order if, and only if, there was no overrun notification and no ring buffer was replaced with bytes in it; in any run the bytes missing are as many as the notifications and the bytes of replaced rings. |
| UartRx.Announced | scheduling/NonPreemtiveScheduler/drivers/fsl_uart.c:766-1098 | Over every run each lost byte has an overrun notification of its own or was in a replaced ring, and each request that ended its RxIdle notification or was aborted. |
| UartRx.CountMisses | scheduling/NonPreemtiveScheduler/drivers/fsl_uart.c:766-927 | In every run, while a request is pending, the receive count is what the request has received less the bytes it took from the ring buffer. |
| UartRx.CountExact | scheduling/NonPreemtiveScheduler/drivers/fsl_uart.c:766-927 | Over every run, as long as a request made with fewer bytes in the ring than it asks for is pending: the count is the number of bytes received so far if, and only if, the ring was empty when it was made; otherwise it is short by what the ring held. |
| UartRx.CountFallsShort | scheduling/NonPreemtiveScheduler/drivers/fsl_uart.c:766-927 | A run of five events after which two bytes of the pending request are in the user buffer and the count is 0. |
| UartRx.PendingImpliesEmptyRing | scheduling/NonPreemtiveScheduler/drivers/fsl_uart.c:804-863 | In every run a pending request implies an empty ring buffer, and the receive interrupt is enabled exactly when a byte has somewhere to go. |
| UartRx.StepKeeps | scheduling/NonPreemtiveScheduler/drivers/fsl_uart.c:766-1098 | Every event keeps the invariant; only an arrival adds to what has been read or waits to be read. |
| UartRx.RingKeepsNewest | scheduling/NonPreemtiveScheduler/drivers/fsl_uart.c:1037-1077 | With no request pending the handler empties the FIFO into the ring, which then holds the last (size - 1) bytes of its old contents and the new ones; each byte lost comes with one overrun notification. |
| UartRx.ReceiveKeeps | scheduling/NonPreemtiveScheduler/drivers/fsl_uart.c:766-886 | A request, and the requests its callback makes, keep the invariant and read nothing from the data register; with none pending the interrupt ends up enabled. |
| UartRxDriver.QueuePop | scheduling/NonPreemtiveScheduler/drivers/fsl_uart.c:819-833 | Advancing the tail, round the end of the array, takes the front off the queue the indices stand for. |
| UartRxDriver.QueuePush | scheduling/NonPreemtiveScheduler/drivers/fsl_uart.c:1062-1075 | Storing at the head and advancing it appends to that queue. |
| UartRxDriver.QueuePushFull | scheduling/NonPreemtiveScheduler/drivers/fsl_uart.c:1048-1075 | On a full ring, moving the tail first loses exactly the oldest byte. |
| UartRxDriver.Uart.constructor | scheduling/NonPreemtiveScheduler/drivers/fsl_uart.c:626-667 | A new handle has no ring, no request and the interrupt off. |
| UartRxDriver.Uart.RingBufferLength | scheduling/NonPreemtiveScheduler/drivers/fsl_uart.c:174-190 | The length computed from head and tail is the length of the queue, also across the wrap. |
| UartRxDriver.Uart.IsRingBufferFull | scheduling/NonPreemtiveScheduler/drivers/fsl_uart.c:192-208 | Full means size - 1 bytes in the queue. |
| UartRxDriver.Uart.CopyFromRing | scheduling/NonPreemtiveScheduler/drivers/fsl_uart.c:819-834 | The copying loop pops the front of the queue into user memory, in order, and leaves the rest. |
| UartRxDriver.Uart.ReceiveNonBlocking | scheduling/NonPreemtiveScheduler/drivers/fsl_uart.c:766-886 | Refines the queue model; the state stays busy exactly while bytes are missing; the count returned is what came out of the ring. |
| UartRxDriver.Uart.AbortReceive | scheduling/NonPreemtiveScheduler/drivers/fsl_uart.c:888-907 | Only the pending request ends; with a ring the interrupt stays on. |
| UartRxDriver.Uart.GetReceiveCount | scheduling/NonPreemtiveScheduler/drivers/fsl_uart.c:909-927 | Refused without a pending request; otherwise the count and the bytes the request took from the ring buffer are together the bytes received so far. |
| UartRxDriver.Uart.StartRingBuffer | scheduling/NonPreemtiveScheduler/drivers/fsl_uart.c:669-688 | Refines the queue model for every ring of 1 to 65536 bytes. |
| UartRxDriver.Uart.StopRingBuffer | scheduling/NonPreemtiveScheduler/drivers/fsl_uart.c:690-709 | Refines the queue model. |
| UartRxDriver.Uart.ReadNonBlocking | scheduling/NonPreemtiveScheduler/drivers/fsl_uart.c:612-624 | A chunk moves from the FIFO to the pending buffer in order. |
| UartRxDriver.Uart.FillPending | scheduling/NonPreemtiveScheduler/drivers/fsl_uart.c:1010-1035 | Reading in chunks, with re-entry of the callback between them, is the same as draining the FIFO byte by byte. |
| UartRxDriver.Uart.PutInRing | scheduling/NonPreemtiveScheduler/drivers/fsl_uart.c:1042-1075 | One turn of the ring loop pushes one byte; indices stay inside the array. |
| UartRxDriver.Uart.FillRing | scheduling/NonPreemtiveScheduler/drivers/fsl_uart.c:1037-1077 | The ring loop is draining byte by byte. |
| UartRxDriver.Uart.HandleIRQ | scheduling/NonPreemtiveScheduler/drivers/fsl_uart.c:1000-1098 | The receive part of the handler refines the model step; rxState is busy exactly when rxDataSize is positive. |
| UartRxDriver.DrainChunk | scheduling/NonPreemtiveScheduler/drivers/fsl_uart.c:1010-1035 | Taking a chunk and then draining equals draining byte by byte, callback included. |
| UartRxService.IrqServes | scheduling/NonPreemtiveScheduler/drivers/fsl_uart.c:1000-1098 | An interrupt leaves no byte in the FIFO for which there is a request or a ring buffer. |
| UartRxService.LongRequest | scheduling/NonPreemtiveScheduler/drivers/fsl_uart.c:1010-1035 | A request that misses more bytes than the FIFO holds gets them all, in order, where it wants them, and stays pending. |
| UartRxService.ShortRequest | scheduling/NonPreemtiveScheduler/drivers/fsl_uart.c:1010-1095 | One that misses no more ends with what it had and the bytes it was missing, and is notified; if the callback asks for nothing, the rest goes to the ring buffer, or stays in the FIFO with the interrupt off, and nothing else changes. |
| UartRxService.RequestFromRing | scheduling/NonPreemtiveScheduler/drivers/fsl_uart.c:804-863 | A request that the ring buffer can satisfy ends at once with the oldest bytes of it, and is notified. |
| UartRxService.RequestPastRing | scheduling/NonPreemtiveScheduler/drivers/fsl_uart.c:819-848 | One that it cannot takes all of it and stays pending for the rest. |
| UartRxService.AbortEnds | scheduling/NonPreemtiveScheduler/drivers/fsl_uart.c:888-907 | An abort ends the request with what it has received; the ring buffer, the FIFO and memory stay. |
| UartRxService.InterruptReadsAll | scheduling/NonPreemtiveScheduler/drivers/fsl_uart.c:1000-1098 | In every run, after an interrupt all bytes that have arrived are read, unless there is neither a request nor a ring buffer. |
| UartRxService.EveryRequestServed | scheduling/NonPreemtiveScheduler/drivers/fsl_uart.c:766-1098 | Over every run, a request that is not aborted has ended after an interrupt if, and only if, as many bytes as it asks for were buffered or have arrived since; it has then got the first of them in order, and otherwise all of them. |
| UartRxService.MemoryUntouched | scheduling/NonPreemtiveScheduler/drivers/fsl_uart.c:766-1098 | Over every run, without a pending request, as after an abort, user memory does not change until the next request. |
| UartRxService.ReceiveOnce | scheduling/NonPreemtiveScheduler/drivers/fsl_uart.c:766-1098 | A session with the driver: after a request, its bytes and one interrupt, memory holds the bytes and is otherwise what it was, the driver is idle and has notified once. |
| UartTx.Conservation | scheduling/NonPreemtiveScheduler/drivers/fsl_uart.c:711-749 | In every run: the interrupt is enabled exactly while something is left to send; the bytes written to D are what each ended request wrote followed by what the present one has written; one TxIdle per completed request. |
| UartTx.RequestConserved | scheduling/NonPreemtiveScheduler/drivers/fsl_uart.c:711-749 | While a request is being sent, what it has written followed by what is left is the request. |
| UartTx.FillKeeps | scheduling/NonPreemtiveScheduler/drivers/fsl_uart.c:1110-1149 | An interrupt writes no more than the free FIFO slots, and stops early only when nothing is left. |
| UartTx.FillChunk | scheduling/NonPreemtiveScheduler/drivers/fsl_uart.c:1110-1149 | Writing a chunk and filling on equals filling byte by byte, callback included. |
| UartTx.Uart.SendNonBlocking | scheduling/NonPreemtiveScheduler/drivers/fsl_uart.c:711-739 | Refused without effect while busy, otherwise the whole request is left to send. |
| UartTx.Uart.AbortSend | scheduling/NonPreemtiveScheduler/drivers/fsl_uart.c:741-749 | Refines the model step. |
| UartTx.Uart.GetSendCount | scheduling/NonPreemtiveScheduler/drivers/fsl_uart.c:751-764 | The number of bytes the present request has written. |
| UartTx.Uart.WriteNonBlocking | scheduling/NonPreemtiveScheduler/drivers/fsl_uart.c:556-568 | Writes the bytes in order, each taking a FIFO slot. |
| UartTx.Uart.HandleIRQ | scheduling/NonPreemtiveScheduler/drivers/fsl_uart.c:1110-1149 | The transmit part of the handler refines the model step. |
| UartTxService.IrqSends | scheduling/NonPreemtiveScheduler/drivers/fsl_uart.c:1110-1149 | With the data register empty an interrupt leaves nothing to send or a full FIFO, and writes the first bytes that are left in order; the last of them ends the request with one notification. With the data register full it does nothing. |
| UartTxService.FillSends | scheduling/NonPreemtiveScheduler/drivers/fsl_uart.c:1113-1148 | Filling some slots writes exactly the first bytes that are left. |
| UartTxService.AbortStops | scheduling/NonPreemtiveScheduler/drivers/fsl_uart.c:741-749 | An abort leaves nothing to send and takes nothing back. |
| UartTxService.EveryRequestSent | scheduling/NonPreemtiveScheduler/drivers/fsl_uart.c:711-1149 | Over every run, a request that is not aborted has been sent as a whole after an interrupt if, and only if, the FIFO had a slot for each of its bytes, at the request or since; otherwise as many of its bytes as there were slots. |
| UartTxService.QuietUntilAsked | scheduling/NonPreemtiveScheduler/drivers/fsl_uart.c:711-1149 | Over every run, with nothing left to send, as after an abort, nothing is written until the next request. |
| UartTxService.SendOnce | scheduling/NonPreemtiveScheduler/drivers/fsl_uart.c:711-1149 | A session with the driver: a request that fits the FIFO is written by one interrupt and notified once. |
| UartBaud.AcceptedExactly | scheduling/NonPreemtiveScheduler/drivers/fsl_uart.c:219-261 | A rate is accepted if, and only if, the ideal divider in 1/32 steps has an SBR of 1 to 65535 and the rounded rate is within 3% (of the rate rounded down to hundreds). |
| UartBaud.AcceptedMeans | scheduling/NonPreemtiveScheduler/drivers/fsl_uart.c:219-261 | An accepted rate has 32 * SBR + BRFA = floor(2 * src / baud), SBR >= 1, BRFA <= 31 and is within 3%. |
| UartBaud.FallbackRejected | scheduling/NonPreemtiveScheduler/drivers/fsl_uart.c:224-261 | The fallback to SBR = 1 is always rejected. |
| UartBaud.TruncationRejected | scheduling/NonPreemtiveScheduler/drivers/fsl_uart.c:224-261 | An SBR truncated to 16 bits is always rejected. |
| UartBaud.OrdinaryAccepted | scheduling/NonPreemtiveScheduler/drivers/fsl_uart.c:219-261 | baud >= 100, src >= 25 * baud and an SBR that fits are always accepted. |
| UartBaud.Registers.Init | scheduling/NonPreemtiveScheduler/drivers/fsl_uart.c:219-278 | The registers change only when the rate is accepted, and then hold the dividers. |
| Bits.Set5Is | scheduling/NonPreemtiveScheduler/drivers/fsl_uart.c:271-278 | Storing a five-bit field keeps the three bits above it. |
| UartBaud.RegistersExact | scheduling/NonPreemtiveScheduler/drivers/fsl_uart.c:271-278 | For an accepted rate the registers hold the ideal divider if, and only if, src < 0x2000 * 16 * baud, which the program does not check. |
| UartBaud.AcceptedButNotHeld | scheduling/NonPreemtiveScheduler/drivers/fsl_uart.c:219-278 | 300 baud from 60 MHz is accepted and the registers hold another divider. |
| PllDiv.RunCalcPllDiv | scheduling/NonPreemtiveScheduler/drivers/fsl_clock.c:740-835 | The loop with its running best values computes the search function. |
| PllDiv.FoundIsClosest | scheduling/NonPreemtiveScheduler/drivers/fsl_clock.c:740-835 | Below 512 MHz the pair found is allowed, gives the frequency returned, and is the closest of all allowed pairs, those the search skips included. |
| PllDiv.NothingExactly | scheduling/NonPreemtiveScheduler/drivers/fsl_clock.c:740-835 | Below 512 MHz nothing is found exactly when no allowed reference satisfies 23 * ref <= desired < 56 * ref (or the reference is out of range). |
| PllDiv.FoundExactly | scheduling/NonPreemtiveScheduler/drivers/fsl_clock.c:740-835 | At any frequency, when something is found at all, in terms of the quotient as its eight bits hold it. |
| PllDiv.TruncatedQuotient | scheduling/NonPreemtiveScheduler/drivers/fsl_clock.c:782 | A counterexample at 572 MHz: the truncated quotient finds dividers although nothing is within reach. |
| PllDiv.DividersFit | scheduling/NonPreemtiveScheduler/drivers/fsl_clock.c:773-835 | VDIV fits its bits, the reference stays in 2 to 4 MHz, and PRDIV is at most 24 below 52 MHz. |
| PllDiv.PllRegisters.EnablePll0 | scheduling/NonPreemtiveScheduler/drivers/fsl_clock.c:837-855 | The register fields hold the dividers modulo 32 and the other bits of C6 stay. |
| PllDiv.PllRegisters.GetPll0Freq | scheduling/NonPreemtiveScheduler/drivers/fsl_clock.c:621-643 | The frequency by the register fields, 0 when the PLL is not locked. |
| PllDiv.ProgrammedFreq | scheduling/NonPreemtiveScheduler/drivers/fsl_clock.c:621-855 | The dividers found, once programmed, make CLOCK_GetPll0Freq return exactly the predicted frequency if, and only if, PRDIV fits five bits. |
| PllDiv.WideDivider | scheduling/NonPreemtiveScheduler/drivers/fsl_clock.c:740-835 | PRDIV exceeds its five bits only with references from 66 MHz on. |
| PllDiv.WrongFrequency | scheduling/NonPreemtiveScheduler/drivers/fsl_clock.c:621-855 | With 66 MHz and 48 MHz asked for it does, and another frequency is programmed. |
| McgMode.GetModeInMode | scheduling/NonPreemtiveScheduler/drivers/fsl_clock.c:1074-1172 | In each valid mode, with the status settled, CLOCK_GetMode recognises the mode. |
| McgMode.RouteEnds | scheduling/NonPreemtiveScheduler/drivers/fsl_clock.c:1652-1670 | Every route of the matrix reaches its target, in at most four steps. |
| McgMode.ChecksFollowMatrix | scheduling/NonPreemtiveScheduler/drivers/fsl_clock.c:1174-1527 | The parameter checks of the setters accept exactly the modes from which the matrix goes straight to the mode they set. |
| McgMode.StepLegal | scheduling/NonPreemtiveScheduler/drivers/fsl_clock.c:1707-1760 | From every reachable state no routed setter is refused by its check, every wait can end, and the step leads to the next mode of the route. |
| McgMode.Mcg.SetFeiMode | scheduling/NonPreemtiveScheduler/drivers/fsl_clock.c:1174-1232 | Refused exactly from the modes its check does not list; otherwise exactly the control bits of the mode change, the DRS workaround leaving no trace. |
| McgMode.Mcg.SetFeeMode | scheduling/NonPreemtiveScheduler/drivers/fsl_clock.c:1234-1299 | Refused exactly from the modes its check does not list; otherwise exactly the control bits of the mode change, the DRS workaround leaving no trace. |
| McgMode.Mcg.SetFbiMode | scheduling/NonPreemtiveScheduler/drivers/fsl_clock.c:1301-1363 | Refused exactly from the modes its check does not list; otherwise exactly the control bits of the mode change, the DRS workaround leaving no trace. |
| McgMode.Mcg.SetFbeMode | scheduling/NonPreemtiveScheduler/drivers/fsl_clock.c:1365-1435 | The same; the new value of C4 is computed but never written. |
| McgMode.Mcg.SetBlpiMode | scheduling/NonPreemtiveScheduler/drivers/fsl_clock.c:1437-1450 | Only LP is set, and only when the internal clock drives the output. |
| McgMode.Mcg.SetBlpeMode | scheduling/NonPreemtiveScheduler/drivers/fsl_clock.c:1452-1465 | Only LP is set, and only when the external clock drives the output. |
| McgMode.Mcg.SetPbeMode | scheduling/NonPreemtiveScheduler/drivers/fsl_clock.c:1467-1506 | Never refused; the PLL is set up while disabled. |
| McgMode.Mcg.SetPeeMode | scheduling/NonPreemtiveScheduler/drivers/fsl_clock.c:1508-1527 | Refused exactly outside PBE; otherwise the output clock is switched to the PLL. |
| McgMode.Mcg.ExternalModeToFbeModeQuick | scheduling/NonPreemtiveScheduler/drivers/fsl_clock.c:1529-1553 | Refused exactly when the internal clock is the reference. |
| McgMode.Mcg.SetExternalRefClkConfig | scheduling/NonPreemtiveScheduler/drivers/fsl_clock.c:645-690 | When the change of OSCSEL is refused, and when it is made although the clock is in use. |
| McgMode.Mcg.SetInternalRefClkConfig | scheduling/NonPreemtiveScheduler/drivers/fsl_clock.c:692-738 | When it is refused, and that the status follows when the internal clock is used. |
| McgMode.Mcg.Prepare | scheduling/NonPreemtiveScheduler/drivers/fsl_clock.c:1672-1703 | The first part: OSCSEL, the internal modes and the internal reference; which mode the walk starts from. |
| McgMode.Mcg.Walk | scheduling/NonPreemtiveScheduler/drivers/fsl_clock.c:1705-1760 | The loop: at most four matrix steps, each successful, ending in the target mode, with the configured FLL and PLL settings applied. |
| McgMode.Mcg.SetMcgConfig | scheduling/NonPreemtiveScheduler/drivers/fsl_clock.c:1672-1768 | From every valid mode and for every configuration: success, the target mode, and which settings are in force, FCRDIV and C4 included; exactly when OSCSEL is silently not changed (or changed in use), and exactly when the PLL dividers are ignored. |
| McgMode.DroppedChange | scheduling/NonPreemtiveScheduler/drivers/fsl_clock.c:1672-1703 | A configuration that is reported as successful with OSCSEL not changed. |
| ClockFreq.QuotTwice | scheduling/NonPreemtiveScheduler/drivers/fsl_clock.c:231-283 | Dividing twice is dividing once by the product. |
| ClockFreq.Divided | scheduling/NonPreemtiveScheduler/drivers/fsl_clock.c:231-283 | A shift by FRDIV and a division by 32, 20 or 12 are one division by 32 to 1024, 1280 or 1536. |
| ClockFreq.SystemClock.FllReference | scheduling/NonPreemtiveScheduler/devices/system_MK64F12.c:155-187 | The FLL reference by OSCSEL, RANGE and FRDIV. |
| ClockFreq.SystemClock.FllMultiplied | scheduling/NonPreemtiveScheduler/devices/system_MK64F12.c:189-216 | The multiplier by DMX32 and DRS, wrapping to 32 bits. |
| ClockFreq.SystemClock.SystemCoreClockUpdate | scheduling/NonPreemtiveScheduler/devices/system_MK64F12.c:147-251 | For every value of the registers: MCGOUTCLK by their bytes (`OutputClock`), divided by 1 + CLKDIV1 / 2^28; a reserved CLKS changes nothing. |
| ClockFreq.ControlFields | scheduling/NonPreemtiveScheduler/devices/system_MK64F12.c:150-245 | Where each field of the control registers is, by division and remainder. |
| ClockFreq.OtherFields | scheduling/NonPreemtiveScheduler/drivers/fsl_clock.c:66-98 | The same for the status register and OUTDIV1. |
| ClockFreq.NominalIs | scheduling/NonPreemtiveScheduler/devices/system_MK64F12.c:147-251 | The clock by the fields is the clock by the bytes, with the frequencies, dividers and multipliers in numbers. |
| ClockFreq.CoreClocksAgree | scheduling/NonPreemtiveScheduler/drivers/fsl_clock.c:204-593 | With CLKS valid and the status settled both formulas give the same core clock if, and only if, the settings satisfy `Agreeing`, for all values of all the registers. |
| ClockFreq.BootClockRun | scheduling/NonPreemtiveScheduler/sources/clock_config.c:103-130 | With the settings of BOARD_BootClockRUN both formulas give 120 MHz. |
| ClockFreq.BootClockVlpr | scheduling/NonPreemtiveScheduler/sources/clock_config.c:76-97 | With those of BOARD_BootClockVLPR both give 4 MHz. |
| ClockFreq.InternalReference | scheduling/NonPreemtiveScheduler/devices/system_MK64F12.c:189-216 | The eight frequencies of the FLL with the internal reference. |
| ClockFreq.FllRanges | scheduling/NonPreemtiveScheduler/devices/system_MK64F12.c:189-216 | A reference of 31.25 to 39.06 kHz gives 20 to 25 MHz, or two, three or four times as much. |
| ClockFreq.CrystalReference | scheduling/NonPreemtiveScheduler/devices/system_MK64F12.c:155-187 | The 50 MHz crystal gives such a reference exactly for FRDIV 6 and 7 with RANGE not 0. |
| FlashImage.AlignUpRounds | scheduling/NonPreemtiveScheduler/drivers/fsl_flash.c:41-46 | The mask trick rounds up to the next multiple of a power of two. |
| FlashImage.ProgrammedBlank | scheduling/NonPreemtiveScheduler/drivers/fsl_flash.c:822-887 | Programming an erased range stores the data there and changes nothing else. |
| FlashImage.ProgrammedJoin | scheduling/NonPreemtiveScheduler/drivers/fsl_flash.c:822-887 | Programming in two pieces is programming at once. |
| FlashDriver.CheckRangeAccepts | scheduling/NonPreemtiveScheduler/drivers/fsl_flash.c:2768-2797 | The check accepts exactly the aligned ranges inside the flash, and aligned ranges that wrap round the address space and end below its end. |
| FlashDriver.AcceptedFits | scheduling/NonPreemtiveScheduler/drivers/fsl_flash.c:2768-2856 | The 24 bits that the commands of an accepted range start at, and that the range fits into the flash from there exactly when it does not wrap. |
| FlashDriver.EndOfErase | scheduling/NonPreemtiveScheduler/drivers/fsl_flash.c:705-714 | The end address FLASH_Erase computes is the last byte before the limit, for every start and length. |
| FlashDriver.Flash.Match | scheduling/NonPreemtiveScheduler/drivers/fsl_flash.c:2768-2856 | The converted address and the range check every operation starts with. |
| FlashDriver.Flash.Erase | scheduling/NonPreemtiveScheduler/drivers/fsl_flash.c:685-754 | For every start and length: refusals change nothing; the sectors from that of the start to the limit are erased in order, one command each, even from an unaligned start, up to the end of the flash; the result is known exactly without a failing command, and how far it came with one. |
| FlashDriver.ErasesIntersecting | scheduling/NonPreemtiveScheduler/drivers/fsl_flash.c:685-754 | For a range of positive length that does not wrap these are exactly the sectors that contain a byte of it. |
| FlashDriver.EraseRound | scheduling/NonPreemtiveScheduler/drivers/fsl_flash.c:705-716 | Of a range that goes past the end of the address space only the sector of the start is erased, if the end comes round to it, and else nothing, with success. |
| FlashDriver.ErasesNothing | scheduling/NonPreemtiveScheduler/drivers/fsl_flash.c:685-754 | Such a range from the second sector on: a success, and nothing erased. |
| FlashDriver.EachSectorOnce | scheduling/NonPreemtiveScheduler/drivers/fsl_flash.c:716-749 | Each of them gets exactly one command, in order. |
| FlashDriver.EraseOfNothing | scheduling/NonPreemtiveScheduler/drivers/fsl_flash.c:685-754 | A length of 0 erases the sector the start is inside of, or, at the start of the flash, the whole of it, ending in an access error. |
| FlashDriver.Flash.Program | scheduling/NonPreemtiveScheduler/drivers/fsl_flash.c:822-887 | For every start and length: success exactly when the range does not wrap and no command fails, and then the data is programmed by phrase commands, each aligned and inside the flash, that cover the range in order; else what fits, or what came before the failing command, is programmed, and nothing outside the range changes. |
| FlashDriver.Flash.ProgramSection | scheduling/NonPreemtiveScheduler/drivers/fsl_flash.c:926-1051 | The same by section commands, each aligned, in one sector and at most 0x400 bytes; of a range that does not fit, exactly how many bytes get in. |
| FlashDriver.Flash.ProgramInSector | scheduling/NonPreemtiveScheduler/drivers/fsl_flash.c:987-1029 | The passes through the RAM buffer, and where the controller refuses one. |
| FlashDriver.PassStep | scheduling/NonPreemtiveScheduler/drivers/fsl_flash.c:992-1010 | A pass is in one sector of the flash, or it is the one that is refused. |
| FlashDriver.SectorShare | scheduling/NonPreemtiveScheduler/drivers/fsl_flash.c:966-985 | What ALIGN_UP and the comparison make the share of a sector, also when the 32-bit sums wrap. |
| FlashDriver.ProgramBothWays | scheduling/NonPreemtiveScheduler/drivers/fsl_flash.c:822-1051 | FLASH_Program and FLASH_ProgramSection on the same aligned range and data have the same result, and leave the same contents when they succeed. |
| FlashDriver.Flash.VerifyErase | scheduling/NonPreemtiveScheduler/drivers/fsl_flash.c:1318-1375 | For every start and length: section commands, each aligned and in one block, cover the range in order; without a failing command it succeeds exactly when all bytes are erased and the range does not wrap, and is an access error if all bytes in the flash are erased. |
| FlashDriver.ShareStep | scheduling/NonPreemtiveScheduler/drivers/fsl_flash.c:1338-1373 | The part of a block verified at once is a section the command can read, or is behind the flash. |
| FlashDriver.EraseAndVerify | scheduling/NonPreemtiveScheduler/drivers/fsl_flash.c:685-1375 | Verifying right after a successful erase of the same range succeeds, when no command fails, exactly for the ranges that do not wrap. |
| FlashDriver.EraseThenProgram | scheduling/NonPreemtiveScheduler/drivers/fsl_flash.c:685-887 | Erasing and then programming stores the data and changes nothing outside the sectors of the range. |
| FlashProtection.IsProtected | scheduling/NonPreemtiveScheduler/drivers/fsl_flash.c:1449-1639 | For every start and length: no index past the tables; the state of the regions looked at, one for each region size in the range; it is the state of the regions of the range if, and only if, the offsets of its ends fit in one region or the region missed is like one looked at; a range that wraps is called unprotected. |
| FlashProtection.CountRegions | scheduling/NonPreemtiveScheduler/drivers/fsl_flash.c:1592-1619 | The scan visits consecutive regions from that of the start. |
| FlashProtection.RegionStatus | scheduling/NonPreemtiveScheduler/drivers/fsl_flash.c:1505-1590 | The status table holds bit (region mod 8) of FPROT3 to FPROT0. |
| FlashProtection.RegionBit | scheduling/NonPreemtiveScheduler/drivers/fsl_flash.c:1505-1590 | For each of the 32 regions: protected exactly when its bit of the word FPROT0 to FPROT3 is clear. |
| FlashProtection.RegionAddresses | scheduling/NonPreemtiveScheduler/drivers/fsl_flash.c:1494-1503 | The table of region addresses, one past the last included. |
| FlashProtection.RegionsCover | scheduling/NonPreemtiveScheduler/drivers/fsl_flash.c:3193-3239 | 32 regions of the computed size cover the flash, exactly so from 32 KB on; below, a region has 1 KB. |
| FlashProtection.StateByCounts | scheduling/NonPreemtiveScheduler/drivers/fsl_flash.c:1621-1638 | The two counters tell whether none, all or some regions are protected. |
| FlashProtection.LooksAtIntersecting | scheduling/NonPreemtiveScheduler/drivers/fsl_flash.c:1592-1619 | The regions looked at are those of the range exactly when the offsets of its ends fit in one region; otherwise the last one is missed. |
| FlashProtection.RegionAligned | scheduling/NonPreemtiveScheduler/drivers/fsl_flash.c:1592-1619 | A region-aligned start looks at every region of the range and no other. |
| FlashProtection.MissedRegion | scheduling/NonPreemtiveScheduler/drivers/fsl_flash.c:1592-1638 | When the last region is missed the answer is right exactly if a region looked at has the same bit in FPROT. |
| FlashProtection.AnswerRight | scheduling/NonPreemtiveScheduler/drivers/fsl_flash.c:1592-1638 | Over all starts and lengths: when the answer is right, in terms of the offsets and the registers. |
| FlashProtection.WrongAnswer | scheduling/NonPreemtiveScheduler/drivers/fsl_flash.c:1449-1639 | A range that is called unprotected while its second half is protected. |
| Scheduler.System.constructor | scheduling/NonPreemtiveScheduler/sources/hello_world.c:209-237 | The start of the program. |
| Scheduler.System.Schedule | scheduling/NonPreemtiveScheduler/sources/hello_world.c:101-133 | The scan returns the runnable task of highest priority, the last of equals, and marks every candidate RUN. |
| Scheduler.System.RunTask | scheduling/NonPreemtiveScheduler/sources/hello_world.c:136-200 | A task prints while its counter is below the limit and then returns TERM. |
| Scheduler.System.Step | scheduling/NonPreemtiveScheduler/sources/hello_world.c:234-239 | A turn of the main loop is a step of the model. |
| Scheduler.System.Loop | scheduling/NonPreemtiveScheduler/sources/hello_world.c:234-239 | The turns of the main loop make up a run. |
| Scheduler.WholeRun | scheduling/NonPreemtiveScheduler/sources/hello_world.c:101-240 | For any priorities and limit: all tasks have terminated after exactly N * (limit + 1) turns, not earlier, and the output is then each task's line exactly limit times, as contiguous blocks in serving order. |
| Scheduler.FirstScans | scheduling/NonPreemtiveScheduler/sources/hello_world.c:80-133 | Which tasks the first scans of the program as it stands mark RUN: every one with the highest priority so far, not only the one picked. |
| Scheduler.FourTasks | scheduling/NonPreemtiveScheduler/sources/hello_world.c:80-97 | The program as it stands prints the lines of print_4, print_2, print_3 and print_1, 20 each, in that order, and is done after 84 turns. |
| Scheduler.QuietAfterwards | scheduling/NonPreemtiveScheduler/sources/hello_world.c:136-240 | Nothing more is printed if, and only if, fewer than 2^32 - limit further turns are made (or the limit is 0). |
| Scheduler.OrderExists | scheduling/NonPreemtiveScheduler/sources/hello_world.c:101-133 | A serving order (priority, then higher index) exists for all priorities. |
| Scheduler.OrderUnique | scheduling/NonPreemtiveScheduler/sources/hello_world.c:101-133 | There is only one serving order. |
| HidParser.ReadCount | edbg/dbg_lin.c:127-130 | The inner loop assembles the little-endian value. |
| HidParser.Parse | edbg/dbg_lin.c:109-147 | The parser computes its answer from the items in the buffer, whatever the buffer. |
| HidParser.ParseEncode | edbg/dbg_lin.c:109-147 | For every list of short items (USB HID 1.11, section 6.2.2.2) parsing the encoding sees exactly those items and answers their report size. |
| HidParser.Prefixes | edbg/dbg_lin.c:119-137 | The prefix byte without its two size bits is 0x25 for Report Count, 0x20 for Input and 0x24 for Output. |
| HidParser.CountBeforeLast | edbg/dbg_lin.c:125-137 | The size of a report is the last Report Count (kind 1, tag 9) before the last Input (kind 0, tag 8) or Output (kind 0, tag 9) item. |
| HidParser.FourBytes | edbg/dbg_lin.c:127-130 | A value is its first byte, 2^8 times the second, 2^16 times the third and 2^24 times the fourth. |
| HidParser.SizeExactly | edbg/dbg_lin.c:109-147 | By the places of these items: the answer is a size if, and only if, both counts are this size and it is 64, 512 or 1024. |
| HidParser.NoReport | edbg/dbg_lin.c:109-147 | Without an Input item, or without an Output item, there is no size. |
| HidParser.SixtyFour | edbg/dbg_lin.c:109-147 | The parser on the ten bytes of a descriptor of 64-byte reports. |
| Dap.WordOfBytes | edbg/dap.c:316-356 | Taking a word apart and putting it together gives the word. |
| Dap.Packets | edbg/dap.c:316-445 | The five requests of the program byte by byte, and what they do and answer. |
| Dap.WriteWindow | edbg/dap.c:411-445 | Inside a 1 KB window (IHI 0031) the increment of TAR writes consecutive addresses. |
| Dap.ReadWindow | edbg/dap.c:373-408 | The same for reading. |
| Dap.ChunkFits | edbg/dap.c:383-385 | Each chunk is positive, whole words, inside one 1 KB window and no more than a packet holds. |
| Dap.Dap.Cmd | edbg/dbg_lin.c:190-216 | A request the adapter knows is executed and its answer copied back; request and answer fit a report. |
| Dap.Dap.WriteReg | edbg/dap.c:337-356 | The packet writes the register. |
| Dap.Dap.ReadReg | edbg/dap.c:316-334 | The packet reads the data register. |
| Dap.Dap.WriteWord | edbg/dap.c:366-370 | One word at the address. |
| Dap.Dap.ReadWord | edbg/dap.c:359-363 | One word from the address. |
| Dap.Dap.WriteBlock | edbg/dap.c:411-445 | The bus sees exactly the words of the data at consecutive addresses, in order, however they are split. |
| Dap.Dap.ReadBlock | edbg/dap.c:373-408 | The buffer receives exactly the words at consecutive addresses, in order. |
| Dap.WriteThenRead | edbg/dap.c:373-445 | On plain memory a block written is read back, and nothing else has changed. |
| Cm7.Options.Check | edbg/target.c:79-113 | Exactly which options are accepted, the defaults, and the padded file; a larger file is cut off. |
| Cm7.Options.Load | edbg/edbg.c:198-225 | As much of the file as there is room for. |
| Cm7.CheckForProgramming | edbg/target.c:79-113 | Accepted options are fit for programming exactly when the offset is not negative. |
| Cm7.NegativeOffsetAccepted | edbg/target.c:79-113 | A negative offset that is accepted. |
| Cm7.CheckForReading | edbg/target.c:79-113 | Accepted options for reading stay in the flash if, and only if, as given, the offset is not negative and a size that is given does not pass the end. |
| Cm7.ReadPastTheEndAccepted | edbg/target.c:79-113 | A read past the end of the flash that is accepted. |
| Cm7.CommandWord | edbg/target_atmel_cm7.c:207-228 | Key, argument and command in one word. |
| Cm7.EraseArgument | edbg/target_atmel_cm7.c:207 | The argument erases the 16 pages from a multiple of 16 on. |
| Cm7.Device | edbg/target_atmel_cm7.c:194-229 | The registers, commands and addresses of the device in numbers. |
| Cm7.BlocksInBytes | edbg/target_atmel_cm7.c:196-211 | What is erased for a file is its size rounded up to 8 KB, what is written its size rounded up to 512 bytes. |
| Cm7.FillsLatch | edbg/target_atmel_cm7.c:217 | Writing a page fills the latch buffer and nothing else. |
| Cm7.Target.EraseBlocks | edbg/target_atmel_cm7.c:205-211 | Exactly the blocks of the file are erased, each command while the controller is ready. |
| Cm7.Target.WritePages | edbg/target_atmel_cm7.c:215-225 | Exactly the pages of the file are written, in order. |
| Cm7.Target.Program | edbg/target_atmel_cm7.c:194-229 | After programming the flash is the old one with the blocks of the file erased and its padded pages stored; the boot bit is set; the controller was never misused. |
| Cm7.ImageMatches | edbg/target_atmel_cm7.c:194-229 | That image holds the file at the offset, 0xFF in the rest of its blocks, and the old contents everywhere else. |
| Cm7.Target.Verify | edbg/target_atmel_cm7.c:232-268 | Accepts exactly when the flash holds the file, and changes nothing. |
| Cm7.Target.ProgramAndVerify | edbg/target_atmel_cm7.c:194-268 | Verifying what has been programmed accepts. |
| Cm7.Target.Read | edbg/target_atmel_cm7.c:271-290 | For all options the check accepts: every byte of the buffer that stands for one of the flash holds it, and the flash does not change. |
| Console.NumeralIs | scheduling/NonPreemtiveScheduler/utilities/fsl_debug_console.c:534-639 | A numeral is made of digits of the base, stands for its number and has no leading zero. |
| Console.NumeralLength | scheduling/NonPreemtiveScheduler/utilities/fsl_debug_console.c:534-639 | A number of k bits has at most k digits, so that 32-bit numbers fit the buffer of 33. |
| Console.Printer.Pad | scheduling/NonPreemtiveScheduler/utilities/fsl_debug_console.c:511-521 | Padding up to the width. |
| Console.Printer.ConvertUnsigned | scheduling/NonPreemtiveScheduler/utilities/fsl_debug_console.c:602-637 | The buffer holds the numeral backwards, after a NUL. |
| Console.Printer.ConvertSigned | scheduling/NonPreemtiveScheduler/utilities/fsl_debug_console.c:561-601 | The digits of the absolute value, also of the least number. |
| Console.Printer.PrintInteger | scheduling/NonPreemtiveScheduler/utilities/fsl_debug_console.c:929-1195 | The output grows by the padding and the numeral, in reading order; a negative number loses its sign. |
| Console.PrintOne | scheduling/NonPreemtiveScheduler/utilities/fsl_debug_console.c:929-1195 | What a conversion puts out, in numbers: the value in base 10, 16, 8 or 2 of the argument or its absolute value, no leading zero, lower case for %x only. |
| Console.SomeNumerals | scheduling/NonPreemtiveScheduler/utilities/fsl_debug_console.c:534-639 | Numerals as strings. |
| Console.Scanner.IgnoreWhiteSpace | scheduling/NonPreemtiveScheduler/utilities/fsl_debug_console.c:487-500 | Skips to the first character that is no white space; the count is kept modulo 256. |
| Console.Scanner.Digits | scheduling/NonPreemtiveScheduler/utilities/fsl_debug_console.c:1569-1598 | The value of the longest run of digits the width allows, wrapped to 32 bits. |
| Console.Scanner.ScanInteger | scheduling/NonPreemtiveScheduler/utilities/fsl_debug_console.c:1520-1670 | White space, prefix, base, sign and digits, for every line. |
| Console.ScanLine | scheduling/NonPreemtiveScheduler/utilities/fsl_debug_console.c:1520-1598 | Every line of white space, a 0x prefix where it is allowed, a sign, and up to 40 digits: the value of the digits, negated after a minus. |
| Console.ScanOctal | scheduling/NonPreemtiveScheduler/utilities/fsl_debug_console.c:1536-1546 | %i reads the octal numeral of n after a 0 as n, for all 32-bit n. |
| Console.ScanHexadecimal | scheduling/NonPreemtiveScheduler/utilities/fsl_debug_console.c:1523-1535 | %i, %x and %X read the hexadecimal numeral of n after 0x or 0X as n, and after a minus behind the prefix as -n. |
| Console.ScanSigned | scheduling/NonPreemtiveScheduler/utilities/fsl_debug_console.c:1548-1598 | All six conversions read a numeral in their base, with or without a sign. |
| Console.ScanSignBeforePrefix | scheduling/NonPreemtiveScheduler/utilities/fsl_debug_console.c:1523-1598 | A sign before 0x hides the prefix: the result is 0. |
| Console.ScanSignedOctal | scheduling/NonPreemtiveScheduler/utilities/fsl_debug_console.c:1536-1598 | A sign before a leading 0 makes %i read decimal. |
| Console.PrintThenScan | scheduling/NonPreemtiveScheduler/utilities/fsl_debug_console.c:534-1670 | Scanning what has been printed gives the number for %u, %o, %x, %X and all 32-bit arguments, and for %d, %i exactly when the number is not negative (or the least one). |

## Left out

- FlashDriver.Config: sectors and blocks are powers of two, as ALIGN_UP needs them, of at least 1 KB and less than 1 MB, and the flash has at most 8 MB below the middle of the address space, starting at a multiple of the 16 MB that a command can address.
- UartRx.Conservation: the overrun callback leaves the driver alone; one that starts a request larger than the ring's contents breaks the order of delivery.
- UartRxDriver.Uart.HandleIRQ: a user buffer is a range of a memory that is a sequence, so that overlaps with the ring array are not modelled; calls and interrupts are atomic towards each other.
- UartBaud.Registers.Init: rates for which 16 times the rate is 0 modulo 2^32 divide by zero and are excluded.
- UART line errors (framing, parity, overrun of the data register): they discard data by design.
- Cm7.Target.Read: what is read outside the flash, to which the options can extend, is not said.
- Cm7.Target.Program: setting a GPNVM bit is taken to be finished at once, because the program does not wait for it; erase and write commands keep the controller busy for an arbitrary number of status reads.
- Dap.Dap.Cmd: USB transport, error answers and the exit of the program on them; the port is set to 32-bit accesses with single increment.
- Console.Scanner.ScanInteger: signed overflow, undefined in C, is taken to wrap; format strings are not parsed, each conversion is a call; length modifiers, floating point and the advanced options are off.
- PllDiv.PllRegisters.EnablePll0: the PLL is taken to lock.
- McgMode.Mcg.SetMcgConfig: the oscillator is taken to start; delays, monitors and trimming are left out, and only the fields the mode machine uses are kept of each register.
- ClockFreq.CoreClocksAgree: the crystals are those of the board and the internal references are not trimmed.
- Scheduler.WholeRun: the unused function and next pointers of the task table and the other scheduling policy are left out.
- HidParser.Parse: a read past the descriptor buffer is an outcome of its own.
- Programming of Cortex-M0+, M3 and M4 devices, where the page argument is computed otherwise.
- Flash swap, FlexNVM and EEPROM partitions, secondary flash, execute-only segments, cache clearing and code in RAM.
- GPIO, port, pin and board files, device tables, file access, the command line, and the delays of the errata.
