# Verification of cortex-emu

A Dafny 4.11 model of the parts of cortex-emu that carry state from one instruction to the
next: the exception machine, the byte memory and its block transfers, the batched counters,
the flag arithmetic, the CRC unit, DMA, and the small state machines on top of them. Each file
is one module. `dafny verify dfyconfig.toml` checks everything.

Code of the emulator that updates fields in place is a class here (`Cortex.CortexEmu`,
`BusModule.Bus`, `Timers.TimerBank`, `SysTick.SysTickUnit`, `WakeUp.Emulator`,
`Dma.DmaController`, `Crc.CrcUnit`, `Uart.UartPair`, `ShadowStack.ShadowRing`). Every method is
proved equal to a function on values, and the theorems are about those functions. A machine
word is an `int` from 0 to 2^32 - 1 and every wrap-around is written out; masks are field
arithmetic, and the interrupt and flag registers that are only ever tested bit by bit are sets
of bit numbers.

## What is proved

**Exceptions.** The emulator keeps no stack of active exceptions. The chain of suspended ones
exists only in the IPSR fields of eight-word frames in byte memory. `Nesting` is a transition
system over that memory: interrupt entry through the pending check, fault entry, arbitrary
handler code that leaves the frames alone, and return. In every run the frames read back as the
chain of suspended exceptions, priority values drop strictly along it, HardFault is only ever
innermost, the depth is at most 5 on M0/M0+ and 34 on M3/M4, and a fault inside HardFault ends
in a lockup that no later call of the step function changes. `Transparency` shows that code
interrupted any number of times, by handlers that are themselves interrupted, computes what it
would have computed undisturbed, by induction on the nesting over real memory; `Handlers` turns
that into conditions on the handler's own code, however often it is itself preempted, for leaf
handlers (BX LR) and for PUSH {.., LR} / POP {.., PC}. `FrameEdges` says for every stack pointer
the guard lets through whether the frame brings its context back. `Coherence` shows that in every
state reachable from reset the exception number, the IPSR field and the IT state agree, which is
exactly when stacking them loses nothing.

**Counters.** The timer loop ends exactly on the inputs that `Timers.LoopEndsExactly` names, and
everything below is stated for those. `Timers` and `SysTick` show that a batch of cycles is the
same as single cycles, for all six timers and the pending register they share although a batch
runs them one after the other, and `TimerForms` gives the closed forms: remainders for the
prescaler and the edge-aligned counter, the triangular wave for the center-aligned one, one
update every RCR + 1 turns. `TimerRequests` ties the interrupts of a whole call to a table of
interrupt lines, `TimerPreload` treats the preloaded output registers, `WakeUp` the sleeping core.

**Arithmetic.** `Arithmetic` shows that ADDS/ADCS and SUBS/SBCS chains of any length are exact
integer addition and subtraction and that the condition codes decide the comparisons they name;
`Crc` that the CRC register is the remainder of polynomial division over GF(2).

**Memory.** Over any run of accesses anywhere in the address space SRAM is a plain byte array,
and flash is immutable, exactly under conditions on the configured sizes (`PlainMemory`);
`MachineRuns` lists the accesses of every event of core and DMA, frames and block stores
included, and carries this over to whole runs with exactly these accesses. Bit-band aliases are a
bit array, PUSH/POP and STM/LDM round-trip, every instruction that loads PC follows one branch
rule (`Branches`), and DMA copies blocks by five interleaved channels, whose single transfers
`DmaStreams` reads off the control bits. `RegisterMap` gives frames, stacked xPSR, NVIC and
priority registers bit by bit and byte by byte.

**State machines.** IT blocks and what interrupts between their instructions do to them, the
UART transmit rings, the shadow-stack ring.

## Where the code departs from what one would expect

The model follows the code; each of these is a lemma or a condition of one.

* Flash, SRAM and peripheral registers share one byte array without bounds between them. Flash
  beyond 512 KB is writable (`PlainMemory.LargeFlashIsWritable`), and SRAM beyond 128 KB is
  overwritten by stores to unclaimed peripheral addresses (`PlainMemory.LargeSramIsOverwritten`).
* SysTick is examined before every IRQ, so "most urgent first" holds exactly when SysTick is not
  taken over a waiting IRQ of lower priority value (`Cpu.MostUrgentGoesExactly`);
  `Cpu.UrgentIrqWaits` is an input. Bit 31 of the pending register is SysTick and IRQ 31 at once, so a
  SysTick request can be taken as IRQ 31 when software has enabled that line
  (`Cpu.SysTickTakenAsIrq31`).
* On interrupt entry the pending bit is cleared before the stack check, so a stack overflow
  consumes the request and becomes a HardFault (`Cpu.InterruptSelection`). The HardFault frame
  itself is written without a check, and may be written over the NVIC: with SP at 0xE000E2A0
  stacking R0 clears pending interrupts (`Cpu.OverflowFrameClearsRequests`).
* The stack guard accepts a new stack pointer up to and including the end of SRAM, so a frame can
  pass it and still stick out of memory. Words outside are dropped, and return reads zeros for
  them: an interrupt taken with SP 32 above the end of SRAM loses its whole context
  (`FrameEdges.FrameAboveSramIsLost`). An accepted frame brings every context back exactly when its
  last word starts in SRAM and ends in the byte memory, which for an aligned stack means SP no
  higher than the end (`FrameEdges.AcceptedFrameSurvivesExactly`, `AlignedFrameSurvivesExactly`).
  The theorems about nested code ask that the frame lie in SRAM (`Transparency.FrameFits`), which
  for accepted frames means SP not above it (`Nesting.AcceptedFrameFits`).
* With PSC at 2^32 - 1 and ARR nonzero a call of the timer tick returns exactly if its cycles end
  no later than the next prescaler overflow (`Timers.LoopEndsExactly`); past it the loop consumes
  nothing and never ends. With ARR at 0 the loop drops the cycles left after
  a prescaler overflow, and splitting a batch agrees with the whole exactly in the cases of
  `Timers.ZeroArrSplits`. With the prescaler count one past PSC, which a write to PSC can cause, a
  clock comes that costs no cycle (`TimerForms.SingleCycle`). With ARR at 2^32 - 1 an edge-aligned
  counter wraps without an overflow (`TimerForms.FullRangeNeverOverflows`).
* The COMIF flag of a COM event made by an update is overwritten when SR is stored
  (`TimerPreload.ComFlagIsFromSoftware`).
* A DMA transfer always moves 32 bits, whatever MSIZE and PSIZE say; the size fields only set the
  stride (`Dma.BlockCopy`). A transfer may be aimed at the controller's own registers; it then
  clears flags (`Dma.TransferClearsFlags`) or rewrites counters (`Dma.TransferRewritesCounter`).
  Which targets can do so is exact (`Dma.QuietTargetsExactly`).
* After a multi-word subtraction Z speaks of the last word alone (`Arithmetic.EqualityNeedsMore`).
* Writing xPSR through `cortex_emu_set_reg` can separate it from `active_exception`; exactly which
  writes do is `Coherence.DebuggerWriteLosesState`. Debugger writes are no part of any run here.
* Bit-band aliases are honoured on every core type, although the source calls them an M3/M4
  feature.

## Model

| member | source | states |
|---|---|---|
| Memory.ValueOfBytes | src/cortex_emu_internal.h:287-313 | loading what a store of n bytes wrote gives the value modulo 256^n |
| Memory.BytesOfValue | src/cortex_emu_internal.h:287-313 | storing a loaded value back writes the same bytes |
| PeripheralMap.PeripheralRead | src/cortex_emu.c:236-261 | an answer of a peripheral is cut to the width of the read |
| PeripheralMap.PeripheralsByPage | src/periph_dispatch.c:31-52 | a peripheral takes a write exactly if the address lies in a listed kilobyte, the second GPIO layout, the NVIC, SysTick or the SCB |
| PeripheralMap.IdentificationWords | src/periph_dispatch.c:22-26 | the five words answered besides |
| PeripheralMap.BackedByPage | src/cortex_emu.c:143-180 | the low peripheral space is backed by memory exactly in the listed kilobytes, each by one kilobyte |
| PeripheralMap.BackingIsOwn | src/cortex_emu.c:143-180 | no two peripheral addresses there share a byte of that memory |
| PeripheralMap.HighSpace | src/cortex_emu.c:143-192 | how every address from 0x40000000 up is translated on a map with flash and SRAM below it |
| PeripheralMap.GpioLayoutsAgree | src/cortex_emu.c:143-180 | the second GPIO layout shows the bytes of the first |
| MemoryLaws.SramAccess | src/cortex_emu.c:181-192 | on a sound map every access inside SRAM reaches the byte memory at its offset |
| MemoryLaws.SramReadOverWrite | src/cortex_emu.c:236-291 | one step: a read of 1, 2 or 4 bytes of SRAM after a write of 1, 2 or 4 bytes there sees the written bytes where they overlap and the old ones elsewhere |
| MemoryLaws.WriteFootprint | src/cortex_emu.c:263-291 | any write at any address, on any map, changes at most four consecutive bytes, inside the byte memory and at offset 0x80000 or above |
| MemoryLaws.BelowSramIsConstant | src/cortex_emu.c:289-289 | no run of writes, bit-band aliases included, changes a byte of the memory below offset 0x80000 |
| PlainMemory.FlashImmutableExactly | src/cortex_emu.c:181-184 | no run of writes changes what a read of either flash window returns, bit-band aliases apart, if and only if at most 512 KB of flash are configured |
| PlainMemory.LargeFlashIsWritable | src/cortex_emu.c:283-291 | with 1 MB of flash, a store to 0x80000 reads back at both flash addresses and in SRAM |
| PlainMemory.SramPlainExactly | src/cortex_emu.c:181-291 | over every run of accesses at any address, aliases included, SRAM is a plain byte array to which only the accesses that start in SRAM were applied, if and only if at most 128 KB of SRAM and 512 KB of flash are configured (or no SRAM at all) |
| PlainMemory.RunIsPlain | src/cortex_emu.c:181-291 | the "if" half, for one run |
| PlainMemory.SramReadAfterRun | src/cortex_emu.c:236-261 | a read of SRAM after any run of accesses returns the bytes of that plain array |
| PlainMemory.LargeSramIsOverwritten | src/cortex_emu.c:143-192 | with 192 KB of SRAM, a store to 0x50000000 reads back at 0x20020000 |
| PlainMemory.WordBitIsByteBit | src/cortex_emu.c:224-228 | writing one bit of a word writes one bit of one of its bytes |
| MemoryLaws.FlashAliases | src/cortex_emu.c:181-184 | flash reads agree at address 0 and at flash_base at every width |
| MemoryLaws.FlashAccess | src/cortex_emu.c:181-184 | a read of flash returns the bytes at its offset from either window |
| MemoryLaws.WriteWordsHolds | src/cpu_exceptions.c:108-119 | words written to ascending SRAM addresses are held there and nothing else changes |
| MemoryLaws.ReadHeldWord | src/cpu_exceptions.c:132-139 | word k of a held block reads back |
| MachineRuns.RunIsAccesses | src/cortex_emu.c:263-291 | every run of stores, exception entries and returns, PUSH, STM and DMA changes memory by exactly the accesses of its events, in order, and keeps the map |
| MachineRuns.FlashNeverChangesExactly | src/cortex_emu.c:263-291 | over every such run, from any state and on any map, reads of flash, bit-band aliases apart, stay the same, if and only if at most 512 KB of flash are configured |
| MachineRuns.MachineSramIsPlain | src/cortex_emu.c:181-291 | after every such run on a map that owns its bytes, SRAM is the plain array to which the accesses of the run were applied, and reads of it return its bytes |
| MachineRuns.FrameStores | src/cpu_exceptions.c:108-119 | the eight stores of a frame: word k of the context at the lowered stack pointer plus 4 k |
| MachineRuns.EntryIsAccesses | src/cpu_exceptions.c:99-127 | exception entry, wherever the stack pointer points, writes one frame, its own or the overflow's, or nothing if it locks up |
| MachineRuns.PushIsAccesses | src/cpu_thumb16.c:293-311 | PUSH writes its block in ascending order, and a HardFault frame below it if the guard trips |
| MachineRuns.DmaIsAccesses | src/periph_dma.c:36-69 | a DMA tick makes one store per active channel, of the word at its source, each over what the ones before left |
| MachineRuns.EntryBranchesToVector | src/cpu_exceptions.c:121-126 | with v the vector as flash held it before entry, PC is even and v or v - 1; LR names the mode to return to; xPSR changes in its exception field only |
| Branches.ResetStartsProgram | src/cortex_emu.c:68-137 | reset takes SP and the program's halfword address from the first two words of flash and clears every other register, mask, request, priority and stop |
| Branches.PopBranches | src/cpu_thumb16.c:314-333 | POP with PC takes the word above the listed registers: an even PC at or just below it, or from 0xFFFFFFF0 up an exception return from the raised SP |
| Branches.PopStays | src/cpu_thumb16.c:314-333 | POP without PC raises SP by its block and does not branch |
| Branches.LdmiaBranches | src/cpu_thumb32.c:332-346 | LDMIA with or without write-back, base and PC listed or not: every register, and the same branch rule for the word of rank PC |
| Branches.LdmdbBranches | src/cpu_thumb32.c:361-377 | LDMDB likewise, from the lowered base |
| Branches.StoresMoveBase | src/cpu_thumb32.c:316-359 | STMIA and STMDB change no register but the base, and that only with write-back |
| Branches.BxBranches | src/cpu_thumb16.c:120-137 | BX follows the same branch rule; the word read from PC itself is two bytes further |
| RegisterMap.FrameLayout | src/cpu_exceptions.c:108-120 | after entry memory reads R0-R3, R12, LR, PC and the stacked xPSR at the new SP plus 0, 4, ... 28, and R0-R12 are as they were |
| RegisterMap.ReturnLayout | src/cpu_exceptions.c:129-145 | return takes the same registers from those places, whatever lies there, and changes nothing else but xPSR, IT state, active exception and its counter |
| RegisterMap.EntryIsRecorded | src/cpu_exceptions.c:99-107 | the entry and fault counters, the fault code and the shadow-stack pairs of an entry, refused or not |
| UsualMaps.UsualMapsAreSound | src/cortex_emu.c:143-192 | the maps of real parts, whatever their flash size, meet the conditions the theorems put on a map |
| BusModule.Bus.constructor | src/cortex_emu.c:16-56 | fresh memory is 0xFF in flash and 0 elsewhere |
| BusModule.Bus.LoadFlash | src/cortex_emu.c:58-62 | loading flash stores a word, or does nothing near the end of memory |
| BusModule.Bus.LoadAt | src/cortex_emu_internal.h:287-301 | the byte loop computes the little-endian value |
| BusModule.Bus.StoreAt | src/cortex_emu_internal.h:303-313 | the byte loop writes exactly the little-endian bytes |
| BusModule.Bus.ReadAt | src/cortex_emu.c:236-261 | the three reads, aliases and peripherals included |
| BusModule.Bus.WriteAt | src/cortex_emu.c:263-291 | the three writes, aliases and peripherals included |
| BusModule.Bus.BitbandRead | src/cortex_emu.c:203-214 | an alias read |
| BusModule.Bus.BitbandWrite | src/cortex_emu.c:216-230 | an alias write, through read and write of its word |
| Bitband.AliasesAreBits | src/cortex_emu.c:203-225 | the alias of bit k of a word, in the SRAM and in the peripheral band, names that word and that bit |
| Bitband.BitsAreAliases | src/cortex_emu.c:203-225 | every word-aligned alias is the alias of the bit it names, so the two correspond one to one |
| Bitband.AliasReadsBit | src/cortex_emu.c:203-214 | reading an alias at any width gives its bit |
| Bitband.AliasWritesBit | src/cortex_emu.c:216-230 | writing an alias writes one bit of its word and changes no byte outside it |
| Bitband.WithBitSetsOneBit | src/cortex_emu.c:226-228 | setting or clearing bit k leaves every other bit as it was |
| Bitband.WordIsItsAliases | src/cortex_emu.c:203-214 | a word read is the weighted sum of its 32 alias reads |
| Bitband.AliasWritesAreBitUpdates | src/cortex_emu.c:216-230 | any sequence of alias writes does to memory what the same updates do to a plain bit array |
| Blocks.PickedAt | src/cpu_thumb16.c:304-306 | each listed register stands at its rank, so ascending registers take ascending addresses |
| Blocks.StoreLoopWrites | src/cpu_thumb16.c:304-306 | the store loop writes the listed registers in order and ends four bytes past the last |
| Blocks.LoadLoopReads | src/cpu_thumb16.c:318-320 | the load loop gives each listed register the word at its rank and leaves the others |
| Blocks.PushStoresBlock | src/cpu_thumb16.c:294-308 | PUSH leaves the listed registers, LR last, from the new SP up and changes no byte outside that block |
| Blocks.PopLoadsBlock | src/cpu_thumb16.c:314-333 | POP of a block gives every listed register its word, SP past the block and the PC word as branch target |
| Blocks.PushIsRecorded | src/cpu_thumb16.c:302-310 | PUSH changes SP, memory and one shadow-stack pair, or faults as a stack overflow |
| Blocks.PushPopRoundTrip | src/cpu_thumb16.c:294-333 | PUSH, anything that keeps the block and SP, then POP: every listed register and SP are back, the saved LR is the branch target |
| Blocks.StmdbBlock | src/cpu_thumb32.c:347-358 | STMDB rn! stores the block below the base in ascending order and nothing outside it |
| Blocks.StmdbLdmiaRoundTrip | src/cpu_thumb32.c:332-358 | STMDB rn! then LDMIA rn! restore every listed register and the base |
| Blocks.StmiaBlock | src/cpu_thumb32.c:321-330 | STMIA rn! stores the block above the base in ascending order and nothing outside it |
| Blocks.StmiaLdmdbRoundTrip | src/cpu_thumb32.c:321-380 | STMIA rn! then LDMDB rn! restore every listed register and the base |
| Cpu.PackingIsLossless | src/cpu_exceptions.c:115-118 | the stacked xPSR gives back xPSR without its IT bits, the low byte of the IT state and the exception number |
| RegisterMap.StackedBits | src/cpu_exceptions.c:115-118 | each of the 32 bits of the stacked word: IT bits at 26:25 and 15:10, xPSR elsewhere |
| RegisterMap.UnstackedBits | src/cpu_exceptions.c:139-143 | each bit of xPSR and of the IT state that return takes from a word |
| RegisterMap.MasksAreWords | src/periph_nvic_systick.c:19-24 | sets of bit numbers and 32-bit masks convert into each other without loss |
| RegisterMap.RequestRegisters | src/periph_nvic_systick.c:19-24 | each enabled and pending bit after a store to any address: two registers set what the word names, two clear it |
| RegisterMap.IrqPriorityRegisters | src/periph_nvic_systick.c:25-28 | the priority of every IRQ after a store to any address is its byte of the stored word or as before |
| RegisterMap.SysPriorityRegisters | src/periph_nvic_systick.c:98-99 | likewise for exceptions 8 to 15 |
| Cpu.IrqPriorityIsItsByte | src/cpu_exceptions.c:42-49 | the priority of an IRQ is its own byte of the priority registers read as memory, its top two bits on M0/M0+ |
| Cpu.SysPriorityIsItsByte | src/cpu_exceptions.c:51-60 | likewise for exceptions 8 to 15 and SHPR2, SHPR3 |
| Cpu.SelectFindsMostUrgent | src/cpu_exceptions.c:83-90 | the selection loop finds the lexicographic minimum of (priority, IRQ number), or nothing if there is no candidate |
| Cpu.InterruptSelection | src/cpu_exceptions.c:69-97 | without SysTick, the most urgent IRQ is taken if and only if it beats the active priority, clearing its own bit and, when the frame spares the request registers, no other; otherwise nothing changes |
| Cpu.SysTickGoesFirst | src/cpu_exceptions.c:73-80 | a pending SysTick that beats the active exception is entered whatever IRQs are pending, its bit alone cleared when the frame spares the request registers |
| Cpu.MostUrgentGoesExactly | src/cpu_exceptions.c:69-97 | of all requests, SysTick included, one of least priority value that may preempt is taken, if and only if SysTick is not pending and able to preempt while an enabled IRQ of lower value waits |
| Cpu.UrgentIrqWaits | src/cpu_exceptions.c:73-80 | a state in which IRQ 0 at priority 0 waits for SysTick at priority 255 |
| Cpu.SysTickTakenAsIrq31 | src/cpu_exceptions.c:73-94 | exactly when a SysTick request is taken as IRQ 31 |
| Cpu.NothingPending | src/cpu_exceptions.c:70-82 | with PRIMASK set or nothing pending the check changes nothing |
| Cpu.EntryOutcomes | src/cpu_exceptions.c:99-127 | the three outcomes of entry: taken, taken as HardFault on overflow, or lockup |
| Cpu.EntryKeepsPending | src/cpu_exceptions.c:93-127 | entry, also when it diverts to HardFault, keeps the pending and enabled sets when the frame spares their registers |
| Cpu.FrameKeepsRequestsExactly | src/periph_nvic_systick.c:19-29 | of the frames that reach no other peripheral, exactly those that hit none of the four enable and pending registers keep the pending and enabled sets of every context |
| Cpu.OverflowFrameClearsRequests | src/periph_nvic_systick.c:24-24 | with SP at 0xE000E2A0 the frame of a refused interrupt clears the pending bits that R0 names |
| Cortex.CortexEmu.EnterException | src/cpu_exceptions.c:99-127 | exception entry in place is the function on values |
| Cortex.CortexEmu.WriteRegister | src/periph_nvic_systick.c:19-29 | the NVIC and priority-register side of a store |
| Cortex.CortexEmu.HardFault | src/cpu_exceptions.c:23-33 | a fault enters HardFault, or locks up inside it; 3 or 0 cycles |
| Cortex.CortexEmu.ExitException | src/cpu_exceptions.c:129-145 | exception return in place is the function on values |
| Cortex.CortexEmu.CheckPendingInterrupts | src/cpu_exceptions.c:69-97 | the pending check with its selection loop is the function on values |
| Cortex.CortexEmu.IrqPriority | src/cpu_exceptions.c:42-49 | the priority of an IRQ, 255 outside the range |
| Cortex.CortexEmu.SysPriority | src/cpu_exceptions.c:51-60 | the priority of a system exception |
| Cortex.CortexEmu.ActivePriority | src/cpu_exceptions.c:62-67 | the priority of the running exception, 256 in thread mode |
| Cortex.CortexEmu.AddWithCarry | src/cortex_emu_internal.h:337-348 | result and flags, written flag by flag |
| Cortex.CortexEmu.SetNZ | src/cortex_emu_internal.h:324-328 | N and Z, written flag by flag |
| Cortex.CortexEmu.SetNZC | src/cortex_emu_internal.h:330-335 | N, Z and C, written flag by flag |
| Cortex.CortexEmu.SignedSat32 | src/cortex_emu_internal.h:354-358 | the nearest signed word, Q set exactly when clamping |
| Cortex.CortexEmu.ConsumeIt | src/cortex_emu.c:335-341 | whether the instruction executes, and the advanced IT state |
| Cortex.CortexEmu.Push | src/cpu_thumb16.c:294-311 | PUSH with its loops and stack check is the function on values |
| Cortex.CortexEmu.Pop | src/cpu_thumb16.c:314-333 | POP with its loop and exception return is the function on values |
| Cortex.CortexEmu.StoreIncrementAfter | src/cpu_thumb32.c:321-330 | STMIA in place, also the 16-bit form |
| Cortex.CortexEmu.StoreDecrementBefore | src/cpu_thumb32.c:347-358 | STMDB in place |
| Cortex.CortexEmu.LoadIncrementAfter | src/cpu_thumb32.c:332-345 | LDMIA in place, with the branch of a listed PC |
| Cortex.CortexEmu.LoadDecrementBefore | src/cpu_thumb32.c:361-378 | LDMDB in place, with the branch of a listed PC |
| Nesting.InterruptStepKeepsSafe | src/cpu_exceptions.c:69-127 | interrupt entry adds one level, of the chosen exception or HardFault, and keeps the invariant |
| Nesting.FaultStepKeepsSafe | src/cpu_exceptions.c:23-33 | a fault adds a HardFault level or locks up, and keeps the invariant |
| Nesting.ReturnStepKeepsSafe | src/cpu_exceptions.c:129-145 | return goes down one level, hands back the stacked context and keeps the invariant |
| Nesting.CodeStepKeepsSafe | src/cpu_exceptions.c:99-145 | handler code that leaves the frames alone keeps the invariant |
| Nesting.AcceptedFrameFits | src/cortex_emu_internal.h:446-448 | a frame that passes the stack guard lies in SRAM if and only if SP is not above SRAM |
| FrameEdges.AcceptedFrameSurvivesExactly | src/cpu_exceptions.c:99-145 | interrupt entry followed at once by return gives back every context with a given SP that the guard lets through, if and only if the last of the eight words starts in SRAM and ends in the byte memory |
| FrameEdges.AlignedFrameSurvivesExactly | src/cpu_exceptions.c:99-145 | with SP and the end of SRAM word-aligned, that is SP no higher than the end of SRAM |
| FrameEdges.FrameAboveSramIsLost | src/cortex_emu_internal.h:446-448 | with SP 32 bytes above SRAM the frame is accepted and return finds zeros for every stacked register and xPSR, whatever was interrupted |
| Nesting.RunStaysSafe | src/cpu_exceptions.c:23-145 | every configuration of every run is safe |
| Nesting.StackedIpsrReadsBack | src/cpu_exceptions.c:115-119 | the IPSR field read from memory at each frame is the exception suspended there |
| Nesting.DepthIsBounded | src/cpu_exceptions.c:42-67 | at most 5 suspended contexts on M0/M0+, where priorities run out, and 34 on M3/M4, where exceptions do |
| Nesting.NestingSafety | src/cpu_exceptions.c:23-145 | at every point of every run: frames read back, priorities drop strictly, no exception twice, HardFault only innermost, depth bounded |
| Nesting.ThreadModeIsSafe | src/cortex_emu.c:132-136 | thread mode with SP in SRAM is where runs start |
| UsualMaps.ResetStartsARun | src/cortex_emu.c:68-137 | reset with the initial SP in SRAM is the start of a run |
| UsualMaps.TwoFaultsLockUp | src/cpu_exceptions.c:23-33 | a run: reset, a fault, a fault in its handler, lockup |
| Transparency.EntryStacks | src/cpu_exceptions.c:99-120 | entry puts the eight words below SP, keeps R4-R11 and touches no other memory |
| Transparency.ExitRestores | src/cpu_exceptions.c:129-145 | return from an intact frame restores all sixteen registers, xPSR, IT state and active exception |
| Transparency.ActivationRestoresView | src/cpu_exceptions.c:99-145 | one activation of a handler that keeps its contract leaves the interrupted view as it was |
| Transparency.PreemptionIsTransparent | src/cpu_exceptions.c:69-145 | code interrupted any number of times, to any depth, ends as its own operations alone would end |
| Transparency.ResumesExactly | src/cpu_exceptions.c:99-145 | after one preemption all sixteen registers, xPSR, IT state, active exception and relied-on memory are as before |
| Handlers.EntryLinkIsExcReturn | src/cpu_exceptions.c:121-121 | entry leaves an EXC_RETURN value in LR |
| Handlers.LeafHandlerKeepsContract | src/cpu_thumb16.c:131-137 | code that keeps R4-R11, LR, SP and the stack may return by BX LR |
| Handlers.PushPopHandlerKeepsContract | src/cpu_thumb16.c:294-333 | PUSH {.., LR} and POP {.., PC} around a body that may change all saved registers |
| Handlers.LeafHandlerIsTransparent | src/cpu_thumb16.c:131-137 | any interrupt or fault with such a leaf handler, itself preempted any number of times, leaves the interrupted code as it was |
| Handlers.PushPopHandlerIsTransparent | src/cpu_thumb16.c:294-333 | the same for a PUSH/POP handler |
| Handlers.PushThenBody | src/cpu_thumb16.c:294-311 | PUSH and then any disciplined body is a disciplined handler |
| Coherence.LosslessIffCoherent | src/cpu_exceptions.c:115-144 | stacking and unstacking returns xPSR, IT state and exception number if and only if the state is coherent |
| Coherence.StackedWordDetermines | src/cpu_exceptions.c:115-119 | two coherent states with the same stacked word agree on all three |
| Coherence.FlagEventsTouchTopBits | src/cortex_emu_internal.h:324-358 | every flag helper and MSR APSR change bits 31:27 only |
| Coherence.ReturnIsCoherent | src/cpu_exceptions.c:139-144 | return makes any state coherent, whatever word it finds |
| Coherence.EventKeepsCoherence | src/cpu_exceptions.c:23-145 | every event that writes xPSR, IT state or the active exception keeps them coherent |
| Coherence.OtherReaches | src/cortex_emu.c:295-370 | every change of registers, memory, masks, requests and priorities is one event of the runs considered |
| Coherence.ReachableStatesAreCoherent | src/cortex_emu.c:68-137 | in every state reachable from reset the active exception is xPSR 8:0, xPSR has no bit outside 0xF9FF03FF, the IT state is a byte, and stacking is lossless |
| Coherence.DebuggerWriteLosesState | src/cortex_emu.c:398-401 | exactly which debugger writes to xPSR make the next exception lose state |
| ItBlock.AdvanceIsArchitectural | src/cortex_emu.c:339-340 | inside a block the step is ITAdvance of section A7.3 of the ARMv7-M manual |
| ItBlock.ItGovernsItsBlock | src/cpu_thumb16.c:339-346 | an IT governs exactly the next 4 - ctz(mask) instructions, each under firstcond with its low bit replaced by its mask bit, then the state is 0 |
| ItBlock.BlockRunsAsMeant | src/cortex_emu.c:335-350 | stepping through the block executes each instruction under its own condition |
| ItBlock.ItBlockSurvivesInterrupts | src/cortex_emu.c:335-350 | interrupts between the instructions of a block change nothing about it |
| ItBlock.StepIsLocal | src/cortex_emu.c:335-350 | an instruction that computes from the interrupted view alone still does so under its IT condition |
| ItBlock.AlwaysBlockExecutes | src/cortex_emu.c:335-350 | every instruction of an AL block executes |
| ItBlock.SkippedOnlyMovesPc | src/cortex_emu.c:335-350 | outside a block an instruction executes; one whose condition fails only moves PC past itself |
| Timers.LoopEndsExactly | src/periph_timers.c:98-110 | the loop, counted by iterations, ends if and only if ARR is 0, PSC is below 2^32 - 1, or the cycles end no later than the next prescaler overflow |
| Timers.RunSplits | src/periph_timers.c:98-201 | the cycle loop of one timer, wherever it ends, may be cut anywhere when ARR is not 0 |
| Timers.PartsReturn | src/periph_timers.c:89-204 | when a call for a + b cycles returns, so do the calls for a and then for b |
| Timers.ZeroArrRunSplits | src/periph_timers.c:98-109 | with ARR 0, exactly when cutting a batch gives the same state |
| Timers.BatchesSplit | src/periph_timers.c:89-204 | tick(a + b) leaves the same whole state as tick(a); tick(b) if and only if no enabled timer with ARR 0 is cut after its prescaler overflow |
| Timers.BatchIsInterleaved | src/periph_timers.c:89-204 | a batch of n is n batches of one, although the timers interleave differently |
| Timers.TimersOnlyRaise | src/periph_timers.c:172-200 | timers never set the SysTick bit |
| Timers.TimerBank.TickTimers | src/periph_timers.c:89-204 | the loop over six timers is the function on values |
| Timers.TimerBank.TickTimer | src/periph_timers.c:94-202 | the cycle loop, on every input on which it ends, changes its own timer and the pending bits only |
| Timers.TimerBank.ClockTimer | src/periph_timers.c:108-200 | one counter clock: count, direction, repetition, compare flags, COM event, interrupt requests |
| Timers.TimerBank.MoveCounter | src/periph_timers.c:115-156 | counter, direction and repetition counter in both modes |
| Timers.TimerBank.GenerateEvents | src/periph_timers.c:58-74 | a write to EGR |
| Timers.TimerBank.WriteOutputMode | src/periph_timers.c:75-77 | CCMR1, CCMR2 and CCER writes under CCPC |
| TimerForms.SingleCycle | src/periph_timers.c:98-106 | a batch of one is one cycle if and only if the prescaler count does not stand one past PSC |
| TimerForms.BatchIsSingleCycles | src/periph_timers.c:98-201 | a batch of n cycles is n single cycles |
| TimerForms.PrescalerForm | src/periph_timers.c:99-106 | after n cycles the prescaler holds a remainder modulo PSC + 1 and the counter was clocked once per quotient |
| TimerForms.EdgeForm | src/periph_timers.c:149-156 | the edge-aligned counter is (c + n) mod (ARR + 1) after (c + n) div (ARR + 1) overflows |
| TimerForms.FullRangeNeverOverflows | src/periph_timers.c:149-150 | with ARR at 2^32 - 1 the counter wraps without an overflow |
| TimerForms.CenterForm | src/periph_timers.c:115-138 | the center-aligned counter is the triangular wave of period 2 ARR, turning at the multiples of ARR |
| TimerForms.BeyondArrWraps | src/periph_timers.c:149-151 | an edge-aligned counter left beyond ARR is back at 0 after one clock, with an overflow unless it stood at 2^32 - 1 |
| TimerForms.TurningPoints | src/periph_timers.c:115-138 | in phase or not, a center-aligned counter turns down at ARR and up at 0 and passes neither |
| TimerForms.UpdatesEveryRepetition | src/periph_timers.c:124-127 | one update every RCR + 1 overflows or turning points |
| TimerForms.UpdateFlagMeansUpdate | src/periph_timers.c:163-164 | the update flag is up exactly if it was before or an update came |
| TimerForms.CompareFlagMeansHit | src/periph_timers.c:140-160 | a compare flag is up exactly if it was before or a clock in a flag-setting direction reached the compare value |
| TimerForms.EdgeCompare | src/periph_timers.c:157-160 | in edge mode a compare flag comes up exactly when (c + k) mod (ARR + 1) is the compare value for some k up to n |
| TimerForms.CenterCompare | src/periph_timers.c:140-146 | in center mode a compare flag comes up exactly when the wave reaches the compare value in a direction that CMS selects |
| TimerForms.RequestsForm | src/periph_timers.c:172-200 | the interrupt requests of a whole batch are those of the flags it ends with, if the counter was clocked at all |
| TimerRequests.BankRequestsExactly | src/periph_timers.c:172-201 | after a call of the timer tick, whatever the six timers are set to, interrupt k is pending if and only if it was or a line of the interrupt table with number k belongs to an enabled timer that was clocked and has a driving flag up and enabled; both core classes |
| TimerRequests.RaisedByLines | src/periph_timers.c:172-200 | the requests of one counter clock are those of the table |
| TimerRequests.RunRequests | src/periph_timers.c:98-201 | the requests of all clocks of a batch are those of the flags it ends with, on every input on which the loop ends |
| TimerRequests.Tim2RequestsOnOverflow | src/periph_timers.c:181-182 | TIM2 of an F103 with its update interrupt enabled requests interrupt 28 within n cycles exactly when it overflows |
| TimerRequests.ControlBits | src/periph_timers.c:94-109 | CEN, CMS, CCPC and CCUS by bit number |
| TimerForms.EdgeTimer | src/periph_timers.c:94-170 | count, repetition counter and update flag of an edge-aligned timer after n cycles, in closed form |
| TimerForms.CenterTimer | src/periph_timers.c:94-170 | count, direction, repetition counter and update flag of a center-aligned timer after n cycles, in closed form |
| TimerForms.UpdateGenerationAligns | src/periph_timers.c:59-65 | EGR.UG brings any timer into the domain of the closed forms, its first update after RCR + 1 turns |
| TimerForms.EgrByBits | src/periph_timers.c:58-74 | bits 0 to 7 of EGR each raise the flag of their number; bit 0 restarts the counter, bit 5 loads the output registers, nothing else changes |
| TimerForms.ResetTimer | src/periph_timers.c:206-222 | out of reset a timer is off, counts up and every register of it is 0 |
| TimerPreload.LastComIsInForce | src/periph_timers.c:38-77 | with CCPC set the output registers in force are those written up to the last COM event |
| TimerPreload.NoComKeepsOutputs | src/periph_timers.c:75-77 | with CCPC set and no COM event nothing written takes effect |
| TimerPreload.DirectOutputs | src/periph_timers.c:75-77 | with CCPC clear whatever is written is in force at once |
| TimerPreload.ComFlagIsFromSoftware | src/periph_timers.c:165-170 | COMIF is up exactly if it was, or EGR.COMG was written, with no clearing write since; updates never set it |
| SysTick.ConsumeIsSingleCycles | src/periph_nvic_systick.c:53-72 | a batch of n cycles is n single cycles of section B3.3 of the ARMv7-M manual |
| SysTick.BatchIsSingleTicks | src/periph_nvic_systick.c:53-72 | tick(a + b) is tick(a); tick(b) |
| SysTick.TickForm | src/periph_nvic_systick.c:53-72 | value, fire count, COUNTFLAG and pending bit after n cycles, in closed form, reload value 0 included |
| SysTick.ControlBits | src/periph_nvic_systick.c:54-60 | ENABLE and TICKINT by bit number |
| SysTick.CountFlagIsBit16 | src/periph_nvic_systick.c:58-58 | COUNTFLAG is bit 16 and no other bit changes with it |
| SysTick.SysTickUnit.TickUnit | src/periph_nvic_systick.c:53-72 | the loop terminates and is the function on values |
| WakeUp.WakesInTime | src/cortex_emu.c:297-310 | a sleeping core with SysTick and TICKINT on leaves sleep within systick_val + 2 calls, untouched but for pending bits, and then runs the pending check |
| WakeUp.WakesIntoSysTick | src/cortex_emu.c:297-310 | on that call SysTick, if pending, is entered when PRIMASK is clear, it outranks the active exception and the frame fits |
| WakeUp.SleepingCallExactly | src/cortex_emu.c:298-310 | a call of a sleeping core runs the pending check if and only if some interrupt is both pending and enabled or bit 31 is pending; otherwise the core changes in pending bits only, the clocks advance one cycle, and what becomes pending is exactly SysTick's and the timers' requests |
| WakeUp.WakesIntoIrq | src/cortex_emu.c:300-310 | with PRIMASK clear and the frame accepted the most urgent enabled IRQ that beats the active exception is entered on that very call |
| WakeUp.WakesMasked | src/cortex_emu.c:300-310 | with PRIMASK set a pending enabled IRQ ends sleep and enters nothing |
| WakeUp.SleepsAllTheWay | src/cortex_emu.c:299-307 | the bound is reached when nothing else wakes the core |
| WakeUp.LockupIsFinal | src/cortex_emu.c:298-298 | once halted or locked up, no number of calls changes anything, clocks included |
| WakeUp.FaultInHardFaultIsFinal | src/cpu_exceptions.c:26-30 | a fault inside HardFault locks the core up for good |
| WakeUp.Emulator.Step | src/cortex_emu.c:297-310 | a step up to the fetch, in place |
| WakeUp.Emulator.TickAllUnits | src/cortex_emu.c:303-304 | SysTick, then the timers, on the shared pending register |
| Arithmetic.AddWithCarryIsExact | src/cortex_emu_internal.h:337-348 | C is the carry of the exact sum, V exactly the signed sums that do not fit, N != V the sign of the exact sum |
| Arithmetic.SetNZKeepsRest | src/cortex_emu_internal.h:324-328 | N and Z describe the result, C, V and all lower bits stay |
| Arithmetic.SetNZCKeepsRest | src/cortex_emu_internal.h:330-335 | N, Z and C are set as asked, V and all lower bits stay |
| Arithmetic.CompareDecides | src/cpu_thumb16.c:106-106 | after CMP codes 0 to 13 decide the relations they name: equality, both orders, the sign of the difference, and whether the exact signed difference fits |
| Arithmetic.SumDecides | src/cpu_exceptions.c:3-13 | after ADDS, ADCS, SUBS or SBCS: EQ/NE the zero result, CS/CC the unsigned carry, MI/PL the sign of the result, VS/VC whether the exact signed sum fits |
| Arithmetic.ResultDecides | src/cpu_exceptions.c:3-11 | after the flag helpers EQ and MI speak of the result, C is as given or kept, V kept |
| Arithmetic.ConditionsComplement | src/cpu_exceptions.c:3-22 | each odd condition negates the even one before it; 14 and 15 always hold |
| Arithmetic.FlagBits | src/cortex_emu_internal.h:316-335 | N, Z, C and V are bits 31 to 28 |
| Arithmetic.AddChainIsSum | src/cpu_thumb16.c:96-96 | an ADDS/ADCS chain of any length is the exact sum with C as carry, N its sign and V exactly signed overflow |
| Arithmetic.SubChainIsDifference | src/cpu_thumb16.c:97-97 | a SUBS/SBCS chain of any length is the exact difference; CS, CC, GE and LT decide unsigned and signed order |
| Arithmetic.ZeroFlagSeesTopWord | src/cpu_thumb16.c:97-97 | after a chain Z says exactly that the last word is zero |
| Arithmetic.EqualityNeedsMore | src/cpu_thumb16.c:97-97 | an input for which EQ holds after a chain although the numbers differ |
| Crc.RemainderIsUnique | src/periph_misc.c:168-172 | a polynomial has one remainder below degree 32 |
| Crc.ShiftKeepsRemainder | src/periph_misc.c:170-171 | one shift of the register multiplies by x modulo the generator |
| Crc.CrcIsRemainder | src/periph_misc.c:164-175 | after any word sequence the register is the GF(2) remainder of initial value and message by x^32 + 0x04C11DB7, and nothing else is |
| Crc.CrcIsLinear | src/periph_misc.c:164-175 | the CRC of a sum is the sum of the CRCs |
| Crc.UpdateIsBijective | src/periph_misc.c:166-175 | each word update can be undone, in both directions |
| Crc.BurstsAreDetected | src/periph_misc.c:164-175 | equal-length messages whose difference spans at most 32 consecutive bits never collide |
| Crc.OneWordIsDetected | src/periph_misc.c:164-175 | equal-length messages that differ in one word never collide |
| Crc.CrcUnit.Write | src/periph_misc.c:164-183 | the register writes, the data register through its 32-step loop |
| Dma.WordMoves | src/periph_dma.c:49-53 | one transfer inside SRAM moves four bytes |
| DmaStreams.TransferByBits | src/periph_dma.c:36-69 | transfer k of any enabled channel: source and target address from direction, increments and sizes by bit number, the word moved, CNDTR, CPAR, CMAR, flag and interrupt of the channel |
| DmaStreams.StreamAfter | src/periph_dma.c:36-69 | after n ticks a channel has n transfers behind it or all, its registers moved accordingly |
| DmaStreams.MemoryToPeripheral | src/periph_dma.c:51-58 | with DIR and MINC set and PINC clear transfer k reads CMAR + k * size, writes CPAR and leaves CMAR at CMAR + (k + 1) * size |
| DmaStreams.PeripheralToMemory | src/periph_dma.c:49-58 | the mirror image |
| DmaStreams.ControlBits | src/periph_dma.c:38-48 | EN, TCIE, DIR, PINC, MINC, PSIZE and MSIZE by bit number |
| DmaStreams.ChannelRegisters | src/periph_dma.c:22-34 | CCR, CNDTR, CPAR and CMAR by address take what is stored to them, and a store changes no other register |
| DmaStreams.ChannelReads | src/periph_dma.c:6-17 | and they read back |
| DmaStreams.StatusReads | src/periph_dma.c:3-20 | the status register reads as the flags bit by bit, the clear register as 0 |
| DmaStreams.PendingRegisters | src/periph_nvic_systick.c:22-23 | a transfer into ISPR or ICPR sets or clears what its word names, one elsewhere leaves the pending bits |
| Dma.ChannelStep | src/periph_dma.c:37-68 | one turn of a channel keeps the account of all five transfers |
| Dma.BlockCopy | src/periph_dma.c:36-69 | after n ticks each active channel has n transfers done or all; CNDTR, flags and requests say so exactly; covered bytes equal the original source and no other byte changed |
| Dma.FinishedCopy | src/periph_dma.c:36-69 | once CNDTR is 0 the whole block has arrived |
| Dma.QuietTargetsExactly | src/periph_dma.c:22-69 | a turn of a channel aimed at an address counts down and completes as it should whatever memory, devices, flags and channels hold, if and only if the address, an alias resolved, is no register that a write changes or the channel's own CNDTR |
| Dma.CountsDown | src/periph_dma.c:36-69 | as long as no transfer is aimed at one of those registers or at AIRCR, whatever else the channels are set to, CNDTR never wraps and the completion flag appears exactly with the last transfer |
| Dma.TransferClearsFlags | src/periph_dma.c:23-23 | a channel aimed at the flag-clear register clears the flags its word names |
| Dma.TransferRewritesCounter | src/periph_dma.c:28-31 | a channel aimed at another channel's CNDTR rewrites it |
| Dma.ClearedFlagMeansNewCompletion | src/periph_dma.c:23-23 | under the same condition a flag cleared through the clear register comes back exactly when a block completes afterwards |
| Dma.DmaController.Tick | src/periph_dma.c:36-69 | the channel loop is the function on values |
| Uart.SendAppends | src/periph_uart.c:49-65 | a TDR write appends its byte to its own ring or is dropped when 16 bytes wait; the other ring is untouched |
| Uart.SendAsks | src/periph_uart.c:50-64 | TDR keeps nine bits, TXE and TC come up, and interrupt 27 or 28 becomes pending if CR1 enables either; the other port is untouched |
| Uart.ResetIsIdle | src/periph_uart.c:69-83 | out of reset both ports are idle with TXE and TC up |
| Uart.ReadTakesFirst | src/cortex_emu.c:527-536 | a read takes the oldest byte of its own ring or reports -1; the other ring is untouched |
| Uart.RingsAreQueues | src/periph_uart.c:49-65 | over any run on both UARTs: waiting + accepted = delivered + waiting, in order, at most 16 waiting |
| Uart.FromReset | src/periph_uart.c:69-83 | from reset the bytes read are a prefix of those accepted and the rest is waiting |
| Uart.UartPair.WriteTdr | src/periph_uart.c:49-65 | a TDR write in the shared buffer, with flags and interrupt request |
| Uart.UartPair.Read | src/cortex_emu.c:527-536 | the host's read, for indices below 2^31 |
| ShadowStack.ShadowStackIsRecentHistory | src/cortex_emu.c:471-485 | the getters return exactly the last min(n, 64) recorded pairs, oldest first, and 0 beyond |
| ShadowStack.ShadowRing.Record | src/cortex_emu_internal.h:439-444 | recording in place |
| ShadowStack.ShadowRing.Get | src/cortex_emu.c:473-485 | the two getters |

## Left out

* Peripheral registers: a read that a peripheral answers returns an arbitrary value (`Memory.Device`) and a write that one takes leaves the byte memory alone. GPIO, ADC, RCC, FLASH, SPI, I2C, IWDG, WWDG, EXTI, SYSCFG and PWR are register stores without further behaviour here. Exception frames do write the NVIC and the SCB priority registers, and DMA transfers the DMA registers and the pending register; other register effects of frames, transfers, PUSH and STM are not modelled.
* Thumb decoding: instructions are operations with their operands. ALU encodings other than the flag arithmetic, loads and stores other than the block transfers, and the fetch part of `cortex_emu_step` are not modelled.
* Returns by LDR PC and LDM with PC: the exception return they call is modelled, the handler theorems cover BX and POP.
* PSP, CONTROL, BASEPRI, FAULTMASK, SVC, PendSV and the exclusive monitors: stored but not acted on, or absent, in the code.
* The AIRCR software reset in the middle of an instruction; reset itself is an event of `Coherence`.
* Breakpoints, watchpoints, GPIO and register traces: they feed nothing back.
* Cycle counts, except where they are a counter's input.
* UART indices of 2^31 and above, for which `cortex_emu_uart_read_tx` indexes out of bounds.
* Register banks that the original keeps as parallel arrays (timers, DMA channels, UARTs) are records here, held in an array or a sequence; the shared pending register is carried between the core, SysTick, timer and DMA objects where the original has one field.
- BusModule.Bus.ReadAt: peripheral reads return the given answer without their side effects (SysTick VAL clears COUNTFLAG, UART RDR clears RXNE).
- BusModule.Bus.WriteAt: a write taken by a peripheral leaves memory alone; its register effects are those listed above.
- Cpu.InterruptSelection: the pending and enabled sets are spoken of when the frame reaches no peripheral but the NVIC and the SCB, asks for no reset and hits no request register.
- Dma.CountsDown: the condition on the channels is sufficient. It is exact target by target (`Dma.QuietTargetsExactly`); over a run the converse fails when the source of the transfer is fixed, such as an unmapped address, and the word it gives is what the register holds or clears no flag. A target at AIRCR is excluded because the software reset is not modelled.
- Transparency.PreemptionIsTransparent: asks that each frame lie in SRAM and outside the private data of the code it interrupts, because the stack guard does not ensure it when SP starts above SRAM, and that every preemption is really taken.
- Nesting.NestingSafety: handler code may change registers, masks and memory but not the priority registers, SP beyond the innermost frame, or the frames themselves; SP below SRAM is allowed to a HardFault handler only, and its frame is then recorded as lost.
- TimerForms.EdgeForm: starts at CNT no greater than ARR, which EGR.UG establishes, and so does one clock beyond ARR (`TimerForms.BeyondArrWraps`).
- TimerForms.CenterForm: starts in phase, which EGR.UG establishes; a counter left beyond an ARR lowered under it is not followed.
- Dma.BlockCopy: requires equal sizes of 1, 2 or 4 bytes on both sides, both increments, and target blocks in SRAM disjoint from every other block; `Dma.CountsDown` holds without these.
- Bitband.AliasReadsBit: covers SRAM words, as do the other lemmas on what alias accesses do; the peripheral band leads to registers that are not modelled.
- SysTick.TickForm: covers a running unit; a stopped one is unchanged by definition. Register writes are not modelled.
- WakeUp.Emulator.Step: ends before the fetch.
