# Models and proofs for parts of Hatari

Hatari emulates Atari ST, STE, TT and Falcon computers. This project models four of its hardware components
and four self-contained algorithms in Dafny, and proves what they are for. Nothing here is executed; each class
keeps the fields of the C code, each method follows its branches, and the state that a call produces is tied to a
specification about which the laws are proved.

- **Blitter** (`Words`, `Blitter`, `BlitterLaws`, `BlitterLines`, `BlitterCopy`). Class `Engine` has the registers
  and the memoising methods of the program, and implements `StepF`, the effect of one destination word. A blit can
  be cut into any slices without changing its result. A line is its source bit stream, shifted. A whole blit paints a
  rectangle with a halftone pattern, or copies one into it, or both, under its end masks.
- **Cycle interrupts** (`CycInt`, `CycIntUnits`, `CycIntRuns`, `CycIntUses`). Class `Scheduler` keeps one counter
  running for the earliest event. It refines a map from handler to due time, whatever is added, changed, stopped or
  resumed. The dispatch loop ends, fires in order, and leaves nothing that is due, whatever the handlers ask for. In a
  run of any length, with any delays, a periodic handler does not drift.
- **ACIA** (`Acia`, `AciaWave`, `AciaReceive`, `AciaLaws`, `AciaLoopback`, `AciaTimer`). A serial transmitter and
  receiver, clocked bit by bit. What it puts on its line for a byte, and what it makes of a frame, follows from the
  bits of the control register. Interrupt bit and line are exact in every run. Two ACIAs on one line run in lockstep
  and deliver every byte. On its timer, among other handlers and called arbitrarily late, the chip is clocked at exact
  periods.
- **DMA sound** (`DmaSnd`, `DmaSndLaws`, `DmaSndFrames`, `DmaSndControl`, `DmaSndResampler`). A ring of 8 bytes,
  filled by words and emptied by bytes, and a resampler. Whatever the interleaving, what was waiting is delivered
  first and then the frame, cyclically, once or without an end, until the control register is written again. Which
  input sample each output sample is does not depend on how the output is divided among calls, except at the end of a
  frame, where the exact condition is proved.
- **Path names** (`FileName`, `FileNameDots`). The in-place loop that makes a name absolute computes the resolution of
  its components on a stack of directories, which is where "." and ".." lead.
- **Command line** (`CommandLine`, `CommandLineWords`). A tokenizer that counts arguments in one pass and cuts them
  out of the same buffer in the next, removing quotes as it goes.
- **AVI recording** (`AviIndex`, `AviFailures`, `AviRecorder`, `AviBytes`). Chunks are appended to a file, which is
  then read back to build the index behind them, failed frames included; and what a player reads in it.
- **Floppy images** (`Floppy`, `FloppyLaws`, `BlankImage`, `BlankImageLaws`). Geometry from the boot sector or
  guessed, sector addressing, reading and writing, and the creation of blank images.

`Utils` holds what several of them share. `dafny verify dfyconfig.toml` checks everything.

## Reading the model

Words of the blitter are sequences of 16 bits, most significant first, bytes of the ACIA sequences of 8 bits, least
significant first, and other machine numbers are integers with the wrap-around of the C code written out (`Wrap32`,
`StoreU32`, `BytesPerTrack`). Registers that the code keeps as flag bits are records (`Control`, `Status`). A function
whose name ends in `F` gives the whole new state after the operation of the same name; methods state that they
compute it.

What the outside world decides is a parameter: the cycles that the bus takes to change hands, the levels of the CTS
and DCD pins and of the receive line, the current directory, random serial numbers, the data of a compressed picture,
and what an interrupt handler asks for when it is called (`next`: for each handler and lateness, which events are
to be set to which counts, and which to be stopped; no handler is called twice in a dispatch with the same lateness,
so that this covers whatever handlers do).

## Where the code does not do what it says

Each of these is kept as it is in the code, with the exact condition under which the expected property holds, and for
the less obvious ones a reachable case in which it does not.

- Even parity: the check falls through to the check for odd parity. A byte from an undisturbed line is marked as wrong
  exactly if the format has even parity (`AciaLoopback.ParityErrorIffEven`, `Acia.ParityVerdict`). The data arrive.
- Formats of seven bits leave the byte shifted up by one. Bytes arrive unchanged exactly in formats of eight bits, or
  if all are zero (`AciaLoopback.BytesUnchangedIff`, `AciaLoopback.DeliveredWhole`).
- `CycInt_AddAbsoluteInterrupt` is documented to count from the previous interrupt; it first brings the counters up to
  date, and so counts from the next event. A handler that has acknowledged its interrupt gets what it asks for exactly
  if nothing else is pending, or another event was due at the same time (`CycIntUses.AbsoluteAfterInterrupt`; a case
  in which it is late: `CycIntUses.LateAbsolute`). Its only caller adds the event without a function to quit the
  program, which takes effect exactly if nothing else is pending (`CycIntUses.Quit`).
- `CycInt_ResumeStoppedInterrupt` also subtracts the cycles since the last rebase from the saved count. It is exact if
  and only if there are none (contract of `CycInt.Scheduler.ResumeStoppedInterrupt`; `CycIntUses.ResumeLate` loses any
  number of cycles). The MFP removes the event just before, so that its stop and restart are exact
  (`CycIntUses.RestartTimer`, `CycIntUses.StopAndRestart`).
- `CycInt_FindCyclesPassed` is documented to return the cycles passed; it returns those that are left. For a timer of
  n units both are the same exactly if n is the time passed, converted, and the units taken from the time left. These
  two are rounded in opposite directions: for MFP cycles, which the program asks for, the first up and the second
  down, for processor cycles the other way (`CycIntUses.StartAndAsk`; `CycIntUses.AskEarly` gets 7 after 3 of 10).
- `CycInt_Reset` leaves the pending function in place. The loop that calls what is due would then call it, exactly if
  anything had been pending (`CycIntUses.ResetAndLook`, `CycIntUses.ResetWhilePending`).
- DMA sound: a call that finds sound off and nothing left holds the last sample, where a call that reaches the end of
  the frame goes on with silence. The samples of a frame that is played once do not depend on their division among
  calls exactly if no output sample after the first plays the last input sample, or that sample is silent
  (`DmaSndResampler.DivisionIffTail`; two bytes suffice: `DmaSndResampler.TwoByteFrame`).
- `Quote` puts a backslash before every whitespace character (python-ui/hatari.py:302-305 does so for spaces only).
  Restoring arguments from such a command line works exactly for arguments that are not empty and, except for the
  last, do not end in a backslash (`CommandLine.QuoteRoundTrip`).
- Uncompressed video chunks are not padded, compressed ones are: unless frames have failed, all chunks start at even
  positions exactly when the data of all but the last have an even length (`AviRecorder.ChunksAligned`).
- A compressed frame that fails leaves what has been written of it in the file, and the program records on
  (src/video.c:4305). All recorded chunks are found by the walk exactly if what each failed frame but a last one has
  left is itself a sequence of chunks (`AviFailures.AllFoundIff`). The beginning of a PNG file below 8 + 0x0A1A0A0D
  bytes is none unless it is empty (`AviFailures.PngIsNoChunk`), so that for such frames nothing must have been left
  (`AviFailures.FailedFrames`).
- Starting a recording clears the open file and the counts before it finds that one is under way: the recorder can go
  on exactly if there was none (contract of `AviRecorder.Recorder.StartRecording`). The callers see to that.
- The length of a track is kept in 16 bits, so that different addresses can mean the same place: none do exactly below
  128 sectors per track, or with one track (`Floppy.DistinctIff`). Where some do, they always read the same
  (`Floppy.SharedSectors`).
- The comment of `Floppy_DoubleCheckFormat` says that undecided values are left alone. What the boot sector says is
  left alone exactly if its number of sides is the one guessed from the size, and its track length the common one, or
  there is none (`Floppy.LeftAlone`). Of the common formats the guess finds all but a single sided one of 84 tracks
  with 12 sectors (`Floppy.GuessFindsFormat`).
- A blank image is read back with its own geometry exactly if its sectors can be counted in 16 bits, or it has two
  sides (`BlankImage.BlankGeometry`). Its allocation table reaches to the last cluster exactly up to a number of
  sectors that depends on the kind of disk: 1373 below 80 tracks, where the table is shortest
  (`BlankImageLaws.TableReachesIff`).

## Model

| member | source | states |
|---|---|---|
| Blitter.StepDecreases | src/blitter.c:568-585 | one word lowers (lines - 1) * width + words by one, the termination measure of a blit |
| Blitter.Engine.SourceFetch | src/blitter.c:289-307 | inserts the next source word, advances by the X or, for the last word of a line, the Y increment |
| Blitter.Engine.SourceRead | src/blitter.c:309-331 | however often it is called for one word, fetches are made once; the result is the skewed view of the window |
| Blitter.Engine.ComputeHop | src/blitter.c:333-376 | all four halftone operations, smudge included |
| Blitter.Engine.ComputeLop | src/blitter.c:378-491 | the 16 logic operations; operands that an operation does not use are not read |
| Blitter.Engine.ComputeMask | src/blitter.c:498-502 | masked bits are merged with the destination, which forces its read |
| Blitter.Engine.ProcessWord | src/blitter.c:504-522 | one word with or without the unmasked shortcut writes the same value; addresses, window and cycles follow |
| Blitter.Engine.Step | src/blitter.c:540-588 | the four cases of single, first, middle and last word all implement the same step function |
| Blitter.Engine.Blit | src/blitter.c:612-619 | the main loop writes exactly the words of one slice, and ends |
| Blitter.Engine.Start | src/blitter.c:595-643 | one slice is an iteration of the step function; busy and hog are cleared exactly at the end of the blit |
| Blitter.Engine.WriteWordsPerLine | src/blitter.c:925-935 | a count of 0 is 65536; the new width keeps the state valid |
| Blitter.Engine.WriteLinesPerBitblock | src/blitter.c:940-948 | a count of 0 is 65536, so a freshly written count is never zero |
| Blitter.Engine.WriteControl | src/blitter.c:974-1032 | a blit without lines does not become busy, which is what the interrupt handler relies on |
| Blitter.Engine.InterruptHandler | src/blitter.c:1051-1059 | continues a busy blit by one slice, leaves an idle one alone |
| BlitterLaws.LogicBit | src/blitter.c:391-491 | the number of a logic operation spells its truth table: it is the OR of the minterms its bits choose |
| BlitterLaws.MaskedWriteBit | src/blitter.c:498-522 | each written bit is the logic result inside the end mask and the old bit outside; no other word changes |
| BlitterLaws.UntouchedBit | src/blitter.c:504-522 | over any number of words, a bit that no visit selects keeps its value |
| BlitterLaws.OperandsMatter | src/blitter.c:391-491 | an operation reads the halftone operand, or the destination, exactly if a bit of its truth table depends on it |
| BlitterLaws.WordCycles | src/blitter.c:235-522 | four cycles for the write of a word and for each access that it needs: source words by FXSR and NFSR, the destination if the operation depends on it, a bit is masked out, or NFSR ends the line |
| BlitterLaws.BusError | src/blitter.c:235-264 | in a bus error region every bit reads as zero and writes change nothing |
| BlitterLaws.HogNeverYields | src/blitter.c:612-619 | in hog mode a slice is the whole blit |
| BlitterLaws.SliceIsShortest | src/blitter.c:612-619 | otherwise it is the shortest run that uses up 256 processor cycles, 64 of the bus, or the rest of the blit |
| BlitterLaws.SlicesFollowBlit | src/blitter.c:587-643 | any sequence of calls passes through states of the uninterrupted blit, makes progress, is busy exactly while lines are left, and keeps hog until then, smudge for ever, and the halftone line |
| BlitterLaws.SliceIndependence | src/blitter.c:587-643 | a blit resumed any number of times ends with the memory, registers and control bits of one hog run, after (lines - 1) * width + words words |
| BlitterLines.LineFetches | src/blitter.c:289-331 | in a line exactly width + FXSR - NFSR source words are fetched, memoised reads included |
| BlitterLines.SourceIdle | src/blitter.c:309-331 | operations that do not use the source never fetch nor move its address |
| BlitterLines.LineDestination | src/blitter.c:504-522 | destination address, words and lines at every point of a line |
| BlitterLines.ManyLines | src/blitter.c:504-566 | after l lines both addresses have moved by l strides modulo 2^32 and the halftone line by l modulo 16 |
| BlitterLines.LineWords | src/blitter.c:281-331 | every output word is the skewed view of two neighbouring stream words, for all widths, skews, directions and flags |
| BlitterLines.LineIsShiftedStream | src/blitter.c:281-331 | the output bits of a line are the source bit stream from offset 16 - skew |
| BlitterLines.LineIsShiftedStreamDown | src/blitter.c:281-331 | the mirrored law for a negative X increment |
| Words.WrapKeeps | src/blitter.c:289-307 | an address register holds what 32 bits keep of a number |
| BlitterCopy.BlitPaints | src/blitter.c:333-566 | HOP 0, or HOP 1 without smudge, and destination words that differ: after a whole blit every bit under the mask of its column is the operation on one, or on the bit of halftone word (line + l) modulo 16, or (line - l) with a descending destination, and its old value; all other bits are unchanged |
| BlitterCopy.BlitCopies | src/blitter.c:289-566 | HOP 2, HOP 3, or HOP 1 with smudge, any operation that uses it, no NFSR, FXSR or an unshifted ascending source, no overlap: after a whole blit every bit under the mask is the operation on the shifted source bit, the halftone bit, or both of them, and its old value; with smudge the four lowest bits of the shifted source word number the halftone word |
| BlitterCopy.PlaceOf | src/blitter.c:504-566 | every step writes the cell that line and column give, so that overlap can be told from the registers |
| CycInt.RebaseKeeps | src/cycInt.c:268-287 | folding the elapsed cycles into the table changes no due time and no frozen count |
| CycInt.Scheduler.SetNewInterrupt | src/cycInt.c:232-262 | the pending count is that of the earliest entry, ties to the lowest number |
| CycInt.Scheduler.Tick | src/blitter.c:157-171 | counting one counter down keeps the due times of all events |
| CycInt.Scheduler.UpdateInterrupt | src/cycInt.c:268-287 | charges the elapsed cycles to the used entries only |
| CycInt.Scheduler.AcknowledgeInterrupt | src/cycInt.c:295-308 | removes exactly the active event |
| CycInt.Scheduler.AddRelativeInterruptWithOffset | src/cycInt.c:355-374 | sets one due time to now + cycles + offset, touches no other |
| CycInt.Scheduler.AddRelativeInterrupt | src/cycInt.c:340-343 | the same without offset |
| CycInt.Scheduler.AddAbsoluteInterrupt | src/cycInt.c:315-334 | sets one due time, counted from the next event or, without one, from the cycles over; entry 0 becomes current only while nothing is pending |
| CycInt.Scheduler.ModifyInterrupt | src/cycInt.c:384-399 | moves the due time or the frozen count of one handler |
| CycInt.Scheduler.RemovePendingInterrupt | src/cycInt.c:406-421 | stops one handler and freezes what was left |
| CycInt.Scheduler.ResumeStoppedInterrupt | src/cycInt.c:428-441 | restarts from the frozen count; exactly so if and only if no cycles have passed since the last rebase |
| CycInt.Scheduler.Reset | src/cycInt.c:119-135 | nothing is due; the function to call is that of the active event exactly if nothing was pending before |
| CycInt.Scheduler.InterruptActive | src/cycInt.c:448-456 | true exactly for handlers with a due time |
| CycInt.Scheduler.FindCyclesPassed | src/cycInt.c:472-484 | reports due time minus now, in the unit asked for, for every pending handler |
| CycInt.Scheduler.ActiveIsEarliest | src/cycInt.c:232-262 | the active event is the earliest, ties to the lowest number, and the counter is its distance |
| CycInt.Scheduler.NothingIsDue | src/cycInt.c:222-262 | one positive counter means that no event at all is due |
| CycInt.Scheduler.Dispatch | src/blitter.c:169-170 | whatever handlers ask for, themselves or others, at later times or not at all: the loop ends; it fires the earliest due event each time, and afterwards nothing is due |
| CycInt.Scheduler.CallPendingFunction | src/blitter.c:170 | a handler acknowledges its event and carries out its requests; no other due time changes |
| CycInt.Scheduler.CarryOut | src/cycInt.c:355-421 | requests one after the other set and stop exactly the events they name |
| CycInt.Scheduler.FlushCycles | src/blitter.c:157-171 | the same after a number of cycles has passed |
| CycInt.FiringOrder | src/blitter.c:157-171 | events are fired in order of due time, ties by number, if handlers ask only for later times |
| CycInt.FireProgress | src/blitter.c:169-170 | nothing becomes due before the event that has fired, and fewer events are due at its time: the reason why the loop ends |
| CycInt.NoDrift | src/acia.c:477-495 | in one dispatch, every logged due time of a periodic handler is the first plus its number of periods |
| CycInt.Applied | src/cycInt.c:355-421 | what the requests of a handler mean for each event: a new due time, none, or the old one |
| CycIntUnits.Converted | src/includes/cycInt.h:61-63 | for every count, negative ones included: 9600 internal cycles for each processor cycle, and 31333 or 9600, doubled as often as the machine is faster, for each MFP or 8 MHz cycle |
| CycIntUnits.MachineSpeeds | src/includes/cycInt.h:61-63 | the numbers for machines of 8, 16 and 32 MHz |
| CycIntUnits.Start | src/cycInt.c:340-374 | so a new event is due after that many internal cycles |
| CycIntUnits.PutOff | src/cycInt.c:384-399 | and one that is pending is moved by them, later or earlier |
| CycIntUnits.BackAtShiftZero | src/includes/cycInt.h:72-74 | converted back, processor cycles are cut off towards zero and MFP cycles rounded up, for late events with 31332 added before the cut |
| CycIntUnits.BackHalves | src/includes/cycInt.h:72-74 | each doubling of the speed halves that, rounding down |
| CycIntRuns.NoDriftOverPhases | src/acia.c:445-495 | over any number of dispatches, each at its own time with its own handlers, and whatever happens to other events in between: every call of a periodic handler is due exactly k periods after the first |
| CycIntRuns.Run | src/blitter.c:157-171 | any sequence of delays, each followed by a dispatch, is such a run, and leaves nothing due |
| CycIntRuns.RunDoesNotDrift | src/acia.c:445-495 | so in every run each logged call and the next due time are where an undisturbed clock has them |
| CycIntUses.RestartTimer | src/mfp.c:972-980 | remove and resume: a stopped timer runs for exactly the saved count, a running one is not disturbed |
| CycIntUses.StopAndRestart | src/mfp.c:972-980 | a timer that is stopped for n cycles is due exactly n cycles later |
| CycIntUses.ResumeLate | src/cycInt.c:428-441 | resumed without the removal, n cycles after the table was brought up to date, it loses n cycles |
| CycIntUses.FirstOfRest | src/cycInt.c:232-262 | the first of the other events is level with the first one if and only if any other event is |
| CycIntUses.AbsoluteAfterInterrupt | src/cycInt.c:295-334 | after an acknowledge an absolute time counts from the interrupt if and only if nothing else is pending or another event was due at its time |
| CycIntUses.LateAbsolute | src/cycInt.c:295-334 | a reachable state in which it is one cycle late |
| CycIntUses.Quit | src/ikbd.c:1769-1778 | the event without a function becomes current if and only if nothing else is pending |
| CycIntUses.LeftWhenPassed | src/includes/cycInt.h:61-76 | converted back, n units less e cycles are n less the units taken off, rounded as each kind of cycle is |
| CycIntUses.StartAndAsk | src/cycInt.c:468-484 | the answer is what is left, and the time passed if and only if n is that time and the units taken off |
| CycIntUses.AskEarly | src/cycInt.c:468-484 | 7 after 3 of 10 cycles |
| CycIntUses.ResetAndLook | src/cycInt.c:119-135 | after a reset nothing is due, and the dispatch loop would call a function if and only if something had been pending |
| CycIntUses.ResetWhilePending | src/cycInt.c:119-135 | a reachable state in which it would |
| Acia.Acia.UpdateIrq | src/acia.c:695-728 | bit and line change together, according to the causes |
| Acia.Acia.ReadSr | src/acia.c:737-757 | status with the current CTS, which masks TDRE |
| Acia.Acia.WriteCr | src/acia.c:765-828 | interrupts, break and RTS; the divider changes, and the timer has to be restarted, only without a reset and for a new divider |
| Acia.Acia.ReadRdr | src/acia.c:836-862 | clears RDRF and PE, turns a remembered overrun into the status bit |
| Acia.Acia.ClockTx | src/acia.c:934-1010 | one bit of start, data, parity, stop or break |
| Acia.Acia.ClockRx | src/acia.c:1018-1124 | one bit taken, with overrun and framing errors |
| Acia.Acia.InterruptHandlerIkbd | src/acia.c:445-495 | clocks both sides, lets the keyboard add and stop other events meanwhile, and sets the next due time to the last one plus one period, however late the call is |
| AciaTimer.DispatchBits | src/acia.c:477-495 | a dispatch loop with this handler, the events the keyboard asks for, and other handlers: the chip is clocked once for each of its events in the log |
| AciaTimer.RunBits | src/acia.c:445-495 | a run with any delays: as many bit times as events, the next one due at the first plus that many periods, and the chip clocked with the bits of the line in order |
| AciaTimer.ClockingOnTime | src/acia.c:445-495 | and every bit of it was due at its time |
| Acia.ParityVerdict | src/acia.c:1069-1076 | the verdict of the program is the right one exactly unless an even frame is correct |
| AciaWave.FormatIs | src/acia.c:179-193 | the frame format as arithmetic on the control register: bit 4 for an eighth data bit, two stop bits for word selects 0, 1 and 4, no parity for 4 and 5, bit 2 for odd parity |
| AciaWave.ByteOnTheLine | src/acia.c:893-1010 | the line after every clock edge for a byte: low, the data bits from the lowest up, a parity bit that makes the number of ones even or odd, then highs; idle again after exactly the bits of a frame |
| AciaWave.IdleLine | src/acia.c:765-961 | without a byte the line is high; it is low as long as the control register asks for a break |
| AciaReceive.FrameTaken | src/acia.c:913-1124 | a whole frame from the line: the byte, or an overrun; a missing stop bit is a framing error that overwrites an unread byte; the parity flag by the number of ones |
| AciaLaws.AfterReset | src/acia.c:649-828 | what a master reset clears and keeps |
| AciaLaws.AfterControl | src/acia.c:765-828 | any other write to the control register keeps all that is under way, and selects 1, 16 or 64 clock periods for a bit only if the selection is new |
| AciaLaws.BitLength | src/acia.c:445-452 | the cycles of a bit for any clock and divider |
| AciaLaws.KeyboardBit | src/acia.c:445-452 | 1024 cycles for a clock of 500 kHz divided by 64 |
| AciaLaws.PollAndRead | src/acia.c:737-862 | after a read of the status and then of the data, the overrun bit is about this byte only |
| AciaLaws.IrqAlwaysExact | src/acia.c:649-1124 | while CTS does not change, after a reset and any accesses and clock edges: the interrupt bit is set exactly if bit 7 of the control register is set and a byte, a lost carrier or an overrun is there, or bits 5 and 6 are 1, the transmit register is empty and CTS is low; the line is its complement |
| AciaLaws.UnreadByteSurvives | src/acia.c:1084-1105 | in any run without reads and with good stop bits the unread byte stays, and an overrun is remembered if and only if a frame was completed |
| AciaLaws.ReadReportsOverrun | src/acia.c:836-862 | a read returns the byte and uses up the remembered overrun; its status is about that overrun exactly unless an older one has been left standing |
| AciaLoopback.StepKeeps | src/acia.c:649-1124 | every tick, write and read, every event of the opposite direction, every status read and change of the interrupt enables keeps both state machines at the same point of the same frame and loses no byte |
| AciaLoopback.BytesArrive | src/acia.c:649-1124 | in any run of these after the resets, the bytes read are what the format makes of the bytes written, in order, at most three on their way, no overrun or framing error, and no parity error unless even |
| AciaLoopback.BytesUnchangedIff | src/acia.c:1041-1049 | they are the bytes written if and only if the format has eight bits or all are zero |
| AciaLoopback.DeliveredWhole | src/acia.c:1041-1049 | eight bits deliver the byte; seven bits deliver its lower bits, or the byte, exactly if those are zero |
| AciaLoopback.FrameFinishes | src/acia.c:934-1124 | every frame that has begun is complete after the bits that are left |
| AciaLoopback.ByteTakesOneFrame | src/acia.c:934-1124 | a byte is there after exactly 1 + data + parity + stop bits ticks |
| AciaLoopback.ParityErrorIffEven | src/acia.c:1069-1076 | an undisturbed byte is marked as wrong exactly in even formats |
| DmaSnd.Sound.Refill | src/dmaSnd.c:302-330 | fills the ring by words until it is full or the frame ends |
| DmaSnd.Sound.PullByte | src/dmaSnd.c:347-369 | the oldest byte of the stream, or zero |
| DmaSnd.Sound.SetStereo | src/dmaSnd.c:379-398 | skips one byte if and only if the next one is on an odd address |
| DmaSnd.SetStereoF | src/dmaSnd.c:372-398 | afterwards the next byte is that of a left channel |
| DmaSnd.OddPositionNotEmpty | src/dmaSnd.c:383-398 | the case of an odd position in an empty ring cannot occur |
| DmaSnd.RefillF | src/dmaSnd.c:302-330 | even addresses stay in even places; while sound plays at most one byte is missing |
| DmaSnd.RingPush | src/dmaSnd.c:312-319 | writing behind the last byte does not overwrite one that is waiting |
| DmaSnd.Sound.WriteSoundMode | src/dmaSnd.c:948-976 | only a change from mono to stereo aligns the ring |
| DmaSnd.Sound.WriteSoundControl | src/dmaSnd.c:735-764 | switching on starts a frame and resets the resampler |
| DmaSnd.Sound.GenerateSamples | src/dmaSnd.c:487-624 | the samples and the state after a call are those of the specification, in mono and stereo |
| DmaSnd.EvenAddressIs | src/dmaSnd.c:421-438 | frame addresses lose their lowest bit |
| DmaSndLaws.LoopDeliversFrame | src/dmaSnd.c:302-369 | from switching on, for any interleaving of refills and pulls: first what was waiting, then byte i modulo the length of the frame |
| DmaSndLaws.OnceDeliversFrame | src/dmaSnd.c:302-369 | without repeat: what was waiting, the frame exactly once, then zeros, an empty frame included |
| DmaSndLaws.OpenFrameRunsOn | src/dmaSnd.c:295-330 | a frame that starts behind its end, or a repeated empty one: what was waiting, then memory from the start on |
| DmaSndLaws.StartsStream | src/dmaSnd.c:421-438 | switching on begins one of these streams, whatever is waiting and whatever the registers are |
| DmaSndLaws.StreamIsDelivered | src/dmaSnd.c:302-369 | from any point of a stream the pulls deliver it in order |
| DmaSndFrames.FramesAreDelivered | src/dmaSnd.c:302-473 | registers rewritten while a repeated frame plays: the bytes are those of the frames in the order in which they were latched, each at the end of the one before, without a gap |
| DmaSndFrames.FirstFrame | src/dmaSnd.c:421-438 | switching on latches the first of them |
| DmaSndControl.SwitchedOff | src/dmaSnd.c:735-764 | after switching off, at any moment, the bytes that were waiting come out and then zeros, nothing is fetched, and the address counter stays |
| DmaSndControl.StillOn | src/dmaSnd.c:735-764 | a write that leaves sound on moves neither counter, end nor buffer |
| DmaSndControl.RepeatCleared | src/dmaSnd.c:735-764 | if it clears the repeat bit, the frame is delivered to its end, once |
| DmaSndControl.RepeatSet | src/dmaSnd.c:735-764 | if it sets the bit, the rest of the frame is the first of the frames that follow each other |
| DmaSndControl.OffAndOn | src/dmaSnd.c:735-764 | switched off and on again, the frame begins anew behind what was waiting |
| DmaSndLaws.StereoPair | src/dmaSnd.c:347-398 | a stereo sample takes both of its bytes or none, left from an even and right from an odd address |
| DmaSndLaws.ChannelsNeverSwap | src/dmaSnd.c:372-398 | after a switch to stereo this stays so for any number of samples, through the end of a frame as well |
| DmaSndResampler.StartsInSync | src/dmaSnd.c:735-764 | switching on puts the resampler in step with the stream, unless there is nothing to play |
| DmaSndResampler.CounterCarry | src/dmaSnd.c:568-579 | the kept fraction is k * ratio modulo 2^32 |
| DmaSndResampler.ResamplerPlays | src/dmaSnd.c:487-624 | for frames of every kind and any list of calls: output sample k is input sample floor(k * ratio / 2^32), up to the sample at which a call found nothing left, which is held; the bytes taken and the kept fraction follow from the samples up to there |
| DmaSndResampler.InsideFrame | src/dmaSnd.c:536-624 | so no division among calls matters in a repeated frame, or while a frame that is played once lasts |
| DmaSndResampler.DivisionIffTail | src/dmaSnd.c:497-624 | and at its end exactly if no output sample after the first plays the last input sample, or that is silent |
| DmaSndResampler.TwoByteFrame | src/dmaSnd.c:497-624 | a frame of two bytes for which it does matter |
| DmaSndResampler.ResamplerError | src/dmaSnd.c:533-536 | against the exact ratio it is never ahead and behind by less than 1 + k / 2^32 |
| FileName.SplitText | src/file.c:765-825 | splitting a directory text gives its parts back |
| FileName.JoinSplit | src/file.c:765-825 | joining the parts of any string gives it back |
| FileName.ResolveStep | src/file.c:767-820 | one slashed part enters a directory, and the rest is resolved from there |
| FileName.NormalizeClean | src/file.c:767-825 | the result is absolute and has no "." or ".." part |
| FileName.NormalizeFixed | src/file.c:767-825 | exactly the absolute names without dot parts are left alone |
| FileName.NormalizeIdempotent | src/file.c:767-825 | normalising twice is normalising once |
| FileNameDots.ParentAtEnd | src/file.c:776-810 | a name that ends in "c/.." is that of the directory of c without its closing slash, or the root |
| FileNameDots.ParentInside | src/file.c:776-800 | "c/../" inside a name can be left out |
| FileNameDots.ParentOfRoot | src/file.c:776-810 | the root is its own parent |
| FileNameDots.SameDirectory | src/file.c:765-775 | "./" inside a name can be left out, and "." at its end is the directory |
| FileNameDots.PlainName | src/file.c:811-819 | a name without dot parts stays as it is |
| FileNameDots.RelativeName | src/file.c:745-760 | a relative name is the absolute name behind the current directory and one slash |
| FileName.PopPart | src/file.c:781-800 | ".." cuts the text at the slash before the last directory, and stays at the root |
| FileName.CopyPart | src/file.c:812-818 | the copy loop takes one part with its slash |
| FileName.MakeAbsoluteName | src/file.c:727-825 | for every name whose output stays inside the buffer all along, ".." parts making room again, the loop leaves the resolution of its components |
| FileName.ShortNameFits | src/file.c:735-820 | every name that is short enough as it is, is one of these |
| FileName.CopiedSpace | src/file.c:812-818 | a copied part leaves room for what follows |
| CommandLine.QuoteRoundTrip | src/change.c:505-579 | quoting, joining and parsing gives a list of arguments back exactly if none is empty and none but the last ends in a backslash |
| CommandLine.TailRoundTrip | src/change.c:505-579 | the same behind an argument that is being collected |
| CommandLineWords.WordsAreTokens | src/change.c:505-579 | words with any whitespace between them, before and behind, are the arguments |
| CommandLineWords.OnlyWhiteSeparates | src/change.c:505-579 | a character between two words separates them if and only if it is a space or one of the codes 9 to 13 |
| CommandLine.CountArgs | src/change.c:511-525 | the first pass counts the arguments of the line |
| CommandLine.RemoveQuote | src/change.c:557-561 | closes the gap, keeps everything before it |
| CommandLine.SplitArgs | src/change.c:539-574 | the second pass finds as many although it shrinks the line, and each argument ends up in place, with its quotes removed |
| CommandLine.ApplyCommandline | src/change.c:505-574 | both passes together; without arguments the result is false |
| AviIndex.StoredNumber | src/avi_record.c:333-354 | stored numbers are read back modulo 2^32, and four bytes are the form of one number |
| AviBytes.Names | src/avi_record.c:345-348 | the names of chunks and parts in ASCII |
| AviBytes.ChunkForm | src/avi_record.c:364-377 | a chunk is its name, its length with the lowest byte first, and its data |
| AviBytes.SampleAt | src/avi_record.c:536-550 | sample k of recorded sound lies at byte 4 k, left before right, lowest byte first, negative ones with 65536 added |
| AviBytes.InfoLeads | src/avi_record.c:836-855 | the size of the part with the program's name leads to the movie, and the name ends with a zero |
| AviBytes.PaddedFrame | src/avi_record.c:455-459 | a compressed frame is whole, with a zero behind it if it is odd |
| AviBytes.HeaderSays | src/avi_record.c:914-917 | the numbers a player reads in the header of a finished file |
| AviBytes.PartNames | src/avi_record.c:724-876 | movie and index are found under their names |
| AviRecorder.HeaderKeeps | src/avi_record.c:914-917 | the rest of the header stays |
| AviRecorder.BottomUpLine | src/avi_record.c:384-421 | line y of a picture lies height - 1 - y lines into the data |
| AviRecorder.Recorder.StartWithParams | src/avi_record.c:791-876 | header, name of the program and an empty movie, unless a recording is under way |
| AviRecorder.Recorder.StartRecording | src/avi_record.c:970-1007 | clears file and counts first, so that the recorder can go on if and only if no recording was under way |
| AviRecorder.Recorder.RecordBmp | src/avi_record.c:364-427 | appends one chunk whose stored length is that of its data |
| AviRecorder.Recorder.RecordPng | src/avi_record.c:432-476 | the same with a length that is filled in later, and a byte of padding for odd lengths; of a failed frame an empty chunk and the bytes written are left, and the recording goes on |
| AviRecorder.Recorder.RecordPcm | src/avi_record.c:518-571 | appends the samples of the ring, little endian, and counts them |
| AviRecorder.Recorder.BuildIndex | src/avi_record.c:724-788 | for any bytes of the movie the loop ends, no read fails, one entry of 16 bytes is written per header met, the size is 16 for each, and the movie is unchanged |
| AviIndex.WalkIffChunks | src/avi_record.c:749-773 | the walk ends exactly at the end of the movie if and only if the movie is a sequence of chunks |
| AviIndex.WalkOverChunks | src/avi_record.c:749-773 | over recorded chunks it meets exactly their headers |
| AviRecorder.Recorder.Stop | src/avi_record.c:881-938 | the whole finished file, failed frames or not: sizes, the counts of frames and samples that were recorded, and an index of all headers met |
| AviRecorder.FinishedIs | src/avi_record.c:881-938 | without failed frames this is the complete file of the recorded chunks |
| AviFailures.FoundOne | src/avi_record.c:749-773 | one chunk is found if and only if everything before it is a sequence of chunks |
| AviFailures.AllFoundIff | src/avi_record.c:432-476 | all chunks are found if and only if what each failed frame but a last one has left is a sequence of chunks |
| AviFailures.PngIsNoChunk | src/avi_record.c:432-476 | the beginning of a PNG file is one only if it is empty |
| AviFailures.FailedFrames | src/avi_record.c:432-476 | so after failed compressed frames all chunks are found if and only if none but a last one has left anything |
| AviRecorder.FinalHeader | src/avi_record.c:914-917 | the four numbers in the header |
| AviIndex.IndexLocates | src/avi_record.c:749-773 | below 4 GB, entry k leads to chunk k: identifier, flags, position of its header and length |
| AviIndex.SizesLead | src/avi_record.c:775-781 | the two stored sizes lead to the index and to the end of the file |
| AviRecorder.ChunksAligned | src/avi_record.c:455-459 | all chunks start at even positions exactly if the data of all but the last are even |
| Floppy.DoubleCheckFormat | src/floppy.c:715-762 | sides by size; sectors per track of the one common format with that many sectors, if there is one |
| Floppy.OneUsualFormat | src/floppy.c:730-750 | no two common formats have the same number of sectors, so the order of the tests does not matter |
| Floppy.GuessFindsFormat | src/floppy.c:715-762 | the guess finds every common format but one |
| Floppy.LeftAlone | src/floppy.c:705-762 | the boot sector is left alone if and only if its sides are the guessed ones and its track length the common one, or there is none |
| Floppy.FindDiskDetails | src/floppy.c:771-797 | the boot sector is believed exactly when its sector count fits the image |
| Floppy.OffsetIs | src/floppy.c:867-871 | the offset is that of the sector counted through the tracks, as long as a track has fewer than 128 sectors |
| FloppyLaws.FormatFromSize | src/floppy.c:715-762 | two sides from 512000 bytes on; the track length of the one format of 80 to 84 tracks with 9 to 12 sectors that has this size, or what the boot sector says |
| FloppyLaws.GeometryFromBytes | src/floppy.c:776-797 | what is read from which bytes of the boot sector |
| FloppyLaws.TracksFit | src/floppy.c:822 | as many tracks as fit into the image whole |
| FloppyLaws.OffsetInSectors | src/floppy.c:867-871 | 512 bytes for each sector before it, with the length of a track modulo 128 |
| FloppyLaws.TransferIs | src/floppy.c:887-961 | a count that is not negative is the number of sectors, any other a whole track |
| Floppy.AddressToSector | src/floppy.c:843-871 | an address is accepted exactly if its sector is covered by tracks, and can be recovered from it |
| Floppy.SectorToAddress | src/floppy.c:843-871 | every covered sector has an address |
| Floppy.SectorFits | src/floppy.c:843-874 | an accepted sector lies in the image, even where the length of a track wraps |
| Floppy.DistinctIff | src/floppy.c:867-871 | different addresses are different places exactly below 128 sectors per track, or with one track |
| Floppy.Drive.ReadSectors | src/floppy.c:805-880 | finds the sector, or rejects the address or the empty drive |
| Floppy.Drive.WriteSectors | src/floppy.c:887-961 | replaces exactly the sectors written and marks the disk; nothing happens on rejection |
| Floppy.GeometrySurvives | src/floppy.c:771-961 | a write keeps the geometry if and only if it does not put a boot sector with another geometry into the image |
| Floppy.WrittenSectors | src/floppy.c:887-961 | where no two sectors share a place and the geometry is kept: after a write of any number of sectors, reading gives the new data there, the old data elsewhere |
| Floppy.DiskRemembers | src/floppy.c:805-961 | where no two sectors share a place: after any sequence of writes, with boot sectors only of the same geometry, every sector reads as what was last written to its address |
| Floppy.SharedSectors | src/floppy.c:867-871 | where two do, they read the same in every image, so that no disk can remember both |
| BlankImage.CreateImage | src/createBlankImage.c:75-174 | boot sector, both FATs and label as documented, zero everywhere else |
| BlankImage.WriteShortLE | src/createBlankImage.c:59-65 | two bytes, low byte first, the number modulo 65536 |
| BlankImageLaws.Fields | src/createBlankImage.c:110-147 | cluster size, directory and media byte of every kind of disk |
| BlankImageLaws.TableReachesIff | src/createBlankImage.c:110-147 | the allocation table that the boot sector describes reaches to the last cluster exactly up to 1373 sectors, 3427 from 80 tracks on, or 6174 with high density |
| BlankImageLaws.SameTables | src/createBlankImage.c:154-159 | both copies of the table are the same, with the media byte and two bytes more in the first entries |
| BlankImageLaws.LabelEntry | src/createBlankImage.c:161-174 | the label is cut to eleven characters or filled up with spaces, with its attribute behind it |
| BlankImage.BlankGeometry | src/createBlankImage.c:75-152 | a drive finds the geometry of a blank image exactly if its sectors fit 16 bits or it has two sides |

## Left out

- The rest of the emulator: processor, video, MFP, DSP, GEMDOS, GUI, configuration, sockets, logging and snapshots.
- Register access other than what is listed: reads that copy a field to the bus, and address registers.
- Blitter: RAM is a map of words whose missing keys are the bus error region; wait states are 0; handlers that run
  between words do not touch blitter registers or memory, and the arbitration cycles of `Blitter_BusArbitration` are a
  parameter. The interrupt line to the MFP is not modelled, and the events that a slice or a write of the control
  register asks for are not entered into the `Scheduler`.
- BlitterCopy.BlitCopies: is about blits of the source without NFSR and without overlap, with FXSR if they are
  shifted; `BlitterLines` has the laws for the other flags and for what an overlapping blit reads.
- CycInt: counts stay below `INT_MAX`, as the comment at src/cycInt.c:222-230 demands. Functions are called by their
  number, so the table of functions and its conversion are not modelled. Cycles are
  converted as in src/includes/cycInt.h:61-76; the other variant there, for OLD_CPU_SHIFT, is left out.
- CycInt.FiringOrder: assumes, like the code, that handlers ask for times later than the one they were due at.
- CycIntUses.StartAndAsk: asks before the timer is due; a timer that is due is dispatched first.
- ACIA: the other clock (`ACIA_InterruptHandler_MIDI`) does the same for MIDI without the offset, and the bus cycles
  of register access do not change the state.
- AciaLoopback.BytesArrive: CTS and DCD are low and both ends get the same clock edge; the format does not change and
  the sender sends no break.
- DMA sound: RAM does not change while a frame is delivered; the low-pass filter, tone control, mixing and the
  Microwire use floating point and are not modelled, so a sample is the pair of bytes that the filters would get.
- DmaSndFrames.FramesAreDelivered: registers are written with the start below the end; the bytes that were waiting
  before the first frame are the subject of `DmaSndLaws`.
- DmaSndLaws.OpenFrameRunsOn: the address counter does not wrap in the model, and memory has no end.
- FileName.MakeAbsoluteName: `FILENAME_MAX` is 4096, as on Linux; drive prefixes of Windows and consoles are left
  out, and so is a current directory that cannot be read. The comment of the function asks only for a large buffer:
  a name whose output fills it is not covered, and the code then writes one character behind it.
- FileName.NormalizeClean: a relative name needs a current directory without dot parts, as `getcwd` returns it.
- CommandLine.RemoveQuote: the overlapping `memcpy` at src/change.c:559 is modelled as a move.
- CommandLine: the arguments are handed to `Change_Options`, which is not part of this model.
- AVI: the constant fields of the header come as a parameter. Pixel conversion, PNG compression and the window title
  are left out, as are errors of the file system: writes succeed, reads fail only at the end of the file.
- AviIndex.IndexLocates: from 4 GB on the stored positions wrap; `StoredNumber` says to what.
- Floppy.Drive.ReadSectors: the count of sectors is not a parameter, since the code only logs it.
- Floppy.Drive.WriteSectors: whoever writes several sectors sees to it that they lie in the image, as in the code; an
  image needs a geometry without zeros, by which the code divides.
- BlankImage.CreateImage: the sizes must leave room for the first FAT entries, which the code writes without a check;
  saving the image as ST, MSA or DIM is left out.
