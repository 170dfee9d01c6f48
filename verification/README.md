# Athrill core: a Dafny model and its proofs

Athrill is a CPU emulator core: a virtual-clock scheduler, guest memory, program loading, debugger
plumbing and a few peripherals, with the instruction set and most devices supplied by a target. This
project models the places in that core where something fast, concurrent or unchecked has to agree with
something simple, and proves that it does, or exactly when it does. `dafny verify dfyconfig.toml` checks
everything.

| file | what it models |
|---|---|
| `scheduler.dfy`, `first_touch.dfy`, `clock_skip.dfy` | the main loop: batches without device ticks, clock skip, against one tick per clock |
| `world_time.dfy`, `hakoniwa.dfy`, `lockstep.dfy` | the Hakoniwa lockstep stage and the scheduler under its cap |
| `malloc_spec.dfy`, `malloc.dfy` | the guest allocator: on values, and over packed bitmaps in growing groups |
| `symbol_index.dfy` | the symbol range index against a linear scan |
| `mpu.dfy` | region search with its cache, host memory windows, host calls |
| `elf.dfy`, `elf_symbols.dfy`, `elf_layout.dfy`, `elf_wrap.dfy` | the ELF check, the symbol readers that rely on it, and the structures of elf.h they read |
| `loader.dfy`, `memory_setup.dfy` | reloading on reset, and the regions that startup creates for it |
| `handshake.dfy` | the CPU/debugger thread handshake |
| `comm_fifo.dfy`, `serial_fifo.dfy` | the ring buffer and the serial channel with its two threads |
| `sort.dfy` | the bubble sort of the object container |
| `gdb_rsp.dfy`, `gdb_session.dfy` | packets, registers and sessions of the GDB remote protocol |
| `numbers.dfy` | bytes, machine widths, the minimum |

How the pieces are built:

- Code that updates state is a class or a method with loops, proved equal to a function of its old state
  (`ThreadRun` to `Loop`, `RunStage` to `Stage`, `GetMemory` to `Allocate`, and so on). The lemmas are about
  those functions, over every input and every run; beside the theorems, each function has a lemma that says in
  other terms (true integers, first index, bytes of the file) what it computes.
- What lies outside the repository is a parameter with a stated contract. `Scheduler.Target` stands for all
  cores, the interrupt controller and the devices; `Scheduler.Meets` is the contract the comments of
  `cpuemu_run_batch` and `cpu_supply_clocks` imply. The Hakoniwa conductor is a script of polls with a
  world time that never goes back. The peer of a GDB connection is the bytes it sends. Threads are
  interleavings of atomic events.
- Fixed-width arithmetic is written out: the 64-bit clock and world limit, wrapping address sums, the
  32-bit offsets of the ELF32 reader, and 64-bit subset types in the ELF check, where any overflow would
  fail to verify.

## Where the code and the promise part

Each line names the members that show a failing run or state and those that say exactly when it fails.

- A halting instruction that brings a device event forward: the clock skip that follows uses the interval reported
  before it and jumps over the event. Shown by `HaltingTouchLosesEvent`; exact condition in `SkipInStepIff`. The main
  theorem asks for `HaltMovesNoEventUp` only when skip is on.
- A batch must also stop when its first instruction, run by `cpu_supply_clock`, touched a device. Shown by
  `IgnoringFirstTouchLosesEvent`; the theorems assume a target that stops (`stopsAfterFirstTouch`), since
  `cpu_supply_clocks` is the target's code.
- A batch may pass the Hakoniwa world limit when no device event is scheduled, because the cap leaves "no event"
  alone. Shown by `BatchOverrunsWorldLimit`; exact condition in `UnscheduledRoundPassesLimitIff`.
- Releasing an address twice, or at an address inside a block. Shown by `DoubleReleaseIsUnsafe` and
  `InteriorReleaseIsUnsafe`; exact condition in `PutSafeIff`, and for the counts alone in `ReleaseKeepsIff`.
- With overlapping symbols the answer depends on earlier lookups. Shown by `OverlapRemembersHistory`; exact condition
  in `ReuseDiffersIff`, and over every run in `HistoryMattersIff`.
- With overlapping memory regions the region cache is visible, and a host function's window may differ from bus reads.
  Shown by `OverlapSplitsReads`; exact conditions in `CacheVisibleIff`, `BusReadGoesIff` and `RangeIsBusIff`.
- `region_covers` accepts an access that runs past the top of the address space. Shown by `WrappedAccessAccepted`;
  exact condition in `AcceptedIsInsideIff`. A region that ends exactly at the top is never covered (`CoversIffInside`).
- An area that ends exactly at the top, or a segment in an external device's area without a `get_pointer`, makes
  `elf_reload` fail half way. Shown by `ResetStopsHalfWay`; exact conditions in `CompletesIff`, `ClearsIff` and
  `StuckSegmentIff`; what is left behind in `Reload`.
- A MALLOC unit that ends exactly at the top is accepted by the configuration, but looking it up by its own range finds
  nothing, and the NULL is attached to the allocator. Exact condition in `FoundAgainIff`; the allocator proofs
  (`UnitOk`, `WellPlaced`) ask for units that end below the top.
- A reset clears ROM that startup took from plain `malloc`. Shown by `ResetChangesRomByte`; exact condition in
  `ResetIsStartupIff`.
- The ELF32 symbol reader computes section header offsets in 32 bits. Shown on a whole accepted image by
  `WrappedReaderLeavesImage`; exact condition in `Entry32ExactIff`. That image is larger than 4 GiB, and `file_load`
  reads at most 1 GiB: on every file the program can load the reader stays inside the image (`LoadSymbols`).
- An ELF32 file whose symbol names share the section name table has no symbols for the reader, which passes that table
  over. Exact condition in `LoadSymbols` and `SeesIff`.
- The debugger side of the handshake has no flag, so a signal sent before `dbg_wait` is lost. Shown and delimited by
  `EarlyWakeDbgIsLost` and `SleepsThroughIff`.
- The serial status registers are written before the command of the same clock runs, so a guest that follows them can
  lose one byte or read one twice. Shown by `AllowedByteIsLost` and `AllowedReadRepeats`, both from the initial state;
  exact conditions in `AllowedMoveIsLostIff` and `AllowedReadRepeatsIff`.
- A packet with `#` in it does not survive framing (`FrameRoundTripIff`), an empty packet ends the session
  (`EmptyPacketEndsSession`), bytes sent while the target runs are dropped (`AllDispatchedIff`), and checksum texts
  other than two digits can be accepted (`ChecksumTextIs`).
- The byte test in `set_bit` that looks for a full byte never fires, because the complement is an `int`; the bit loop
  after it makes this harmless, and the model leaves the test out.

## Model

| member | source | states |
|---|---|---|
| `Scheduler.SameClocksAndEvents` | src/main/cpuemu.cpp:281-292 | For every target that meets the contract (and, if skip is on, whose halting instructions bring no event forward), every maximum batch size, with and without skip, a run to the end clock logs the same instructions and device events at the same clocks as one tick per clock, and ends in the same CPU state; device state may lag only by quiet ticks |
| `Scheduler.SettingsAreInvisible` | src/main/cpuemu.cpp:281-328 | Two settings of batch size, skip and world lead give the same log, CPU and exit |
| `Scheduler.LoopInStep` | src/main/cpuemu.cpp:535-561 | The main loop stays in step with the reference from any state that is in step |
| `Scheduler.RoundInStep` | src/main/cpuemu.cpp:544-557 | One round advances the clock by at least one and at most the interval, in step with the reference, also when a skip overshoots the end clock |
| `Scheduler.RoundAdvances` | src/main/cpuemu.cpp:544-557 | Whatever the devices do, given sound reports and a lead of at least one, a round that does not exit advances the clock by at least one and at most the interval, without wrapping at 64 bits |
| `Scheduler.SkipReachesNoEvent` | src/main/cpuemu.cpp:546-554 | A round that adds more than one clock skips from a halted first instruction, never past the due clock |
| `Scheduler.RoundSkipsIff` | src/main/cpuemu.cpp:544-557 | For every target and state, a round that does not exit adds exactly one clock to its pass, unless skip is on, the first instruction left the CPU halted, the devices allow a skip and an event is scheduled; then it adds exactly the capped interval, modulo 2^64 |
| `Scheduler.SkipInStep` | src/main/cpuemu.cpp:546-554 | Such a skip leaves the scheduler in step, also when it overshoots the end clock |
| `Scheduler.HaltedInStep` | src/main/cpuemu.cpp:546-554 | While the CPU is halted and no event is due, the reference only stutters |
| `Scheduler.PassInStep` | src/main/cpuemu.cpp:330-373 | Tick, first instruction and batch do what the reference does in the same clocks |
| `Scheduler.BudgetIsCovered` | src/main/cpuemu.cpp:301-309 | A batch cut to its budget ends before the next event |
| `Scheduler.BatchedInStep` | src/main/cpuemu.cpp:298-328 | The batch after the first instruction stays in step |
| `Scheduler.BatchInStep` | src/inc/std_cpu_ops.h:17-26 | Instructions without ticks match ticked ones up to the due clock |
| `Scheduler.UntickedShadows` | src/inc/std_cpu_ops.h:17-26 | One instruction without a tick does what the reference does with one |
| `Scheduler.TickedShadows` | src/main/cpuemu.cpp:341-355 | The tick and the first instruction are the reference's, and the interval in force reaches no event |
| `Scheduler.HaltedIsCovered` | src/main/cpuemu.cpp:546-554 | The reported interval still reaches no event after a halting instruction that brought none forward |
| `Scheduler.LagEndsAtTick` | src/main/cpuemu.cpp:281-292 | A tick on a device that missed quiet ticks gives the same result |
| `Scheduler.ExitIsFinal` | src/main/cpuemu.cpp:355-360 | After a fatal error the run is over |
| `Scheduler.Batched` | src/main/cpuemu.cpp:298-328 | A batch ends below the end clock and within the reported interval |
| `Scheduler.PassLengthIff` | src/main/cpuemu.cpp:298-373 | A pass gets past its k-th further instruction exactly when there is one core, batch size, capped interval and end clock allow it, the first instruction neither fails, halts nor touches a device, and the CPU runs on undisturbed |
| `Scheduler.BatchLength` | src/inc/std_cpu_ops.h:17-26 | A batch gets past its first k instructions exactly when none of them fails, halts or touches a device |
| `Scheduler.Budget` | src/main/cpuemu.cpp:301-309 | The budget is the least of batch size, interval and clocks left |
| `Scheduler.CpuEmu.FurtherInstruction` | src/inc/std_cpu_ops.h:17-26 | Advances the clock, runs one instruction, and says when the batch must stop |
| `Scheduler.CpuEmu.SupplyClocks` | src/inc/std_cpu_ops.h:17-26 | Runs the batch function and counts what it ran; nothing after a first touch |
| `Scheduler.CpuEmu.RunBatch` | src/main/cpuemu.cpp:298-328 | The budget arithmetic and the batch |
| `Scheduler.CpuEmu.ThreadRunNodbg` | src/main/cpuemu.cpp:330-373 | One pass, the interval it leaves, and whether its first instruction left the CPU halted |
| `Scheduler.Loop` | src/main/cpuemu.cpp:535-561 | For every target with sound reports and a lead of at least one, the main loop ends: by an exit or at the end clock |
| `Scheduler.CpuEmu.ThreadRun` | src/main/cpuemu.cpp:535-561 | The main loop equals the loop function, for every end clock and every target for which the loop is known to end |
| `FirstTouch.MachineMeetsContract` | src/inc/std_cpu_ops.h:17-26 | A small timer machine, whose device falls behind between ticks, meets the whole contract |
| `FirstTouch.IgnoringFirstTouchLosesEvent` | src/main/cpuemu.cpp:355-370 | With that machine, a batch that ignores a first touch runs an instruction without the interrupt the reference delivers |
| `FirstTouch.BatchLeavesDeviceBehind` | src/main/cpuemu.cpp:286-291 | A batch after which the device really lags behind the reference, and the tick that makes up for it |
| `ClockSkip.SkipInStepIff` | src/main/cpuemu.cpp:546-554 | A round that skips is in step with the reference exactly when the device, as the halting instruction left it, has no event due before the clock the skip goes to |
| `ClockSkip.HaltedInStepIff` | src/main/cpuemu.cpp:546-554 | A halted CPU may be left without ticks exactly up to the due clock |
| `ClockSkip.HaltingTouchLosesEvent` | src/main/cpuemu.cpp:546-554 | A concrete skip over the interrupt that would have woken the CPU |
| `ClockSkip.HaltingMachineMovesEventUp` | src/inc/std_cpu_ops.h:17-26 | That machine meets the contract and breaks only the clause owed for skip |
| `WorldTime.Cap` | src/hakoniwa/athrill_hakoniwa.cpp:176-182 | The cap never exceeds the lead or the interval, and leaves "no event" alone |
| `Hakoniwa.LockstepOverRuns` | src/hakoniwa/athrill_hakoniwa.cpp:184-303 | Over every run but those with a batch that has no device event scheduled and may exceed the lead, the clock never passes the limit, reported times and adopted world times grow strictly between resets and never exceed the world time |
| `Hakoniwa.LockstepAlways` | src/hakoniwa/athrill_hakoniwa.cpp:184-303 | From power-on, at every point of every covered run, the clock is at or below the world limit and the stage waits only exactly at it |
| `Hakoniwa.StageKeeps` | src/hakoniwa/athrill_hakoniwa.cpp:229-303 | Every return is running, ready and strictly below the limit; the slow path is entered only at exactly the limit |
| `Hakoniwa.WaitKeeps` | src/hakoniwa/athrill_hakoniwa.cpp:251-303 | Every script of polls keeps the waiting stage exactly at the limit until it releases the CPU |
| `Hakoniwa.PassKeeps` | src/hakoniwa/athrill_hakoniwa.cpp:251-302 | One pass of the waiting loop keeps that, for any event |
| `Hakoniwa.ReportKeeps` | src/hakoniwa/athrill_hakoniwa.cpp:252-261 | A report is new, larger than all before it and not above the adopted world time |
| `Hakoniwa.EventKeeps` | src/hakoniwa/athrill_hakoniwa.cpp:111-150 | START, STOP and RESET keep the stage at its limit |
| `Hakoniwa.ReadWorldKeeps` | src/hakoniwa/athrill_hakoniwa.cpp:289-300 | Adopting a world time raises the limit strictly and releases the CPU below it |
| `Hakoniwa.StartReleases` | src/hakoniwa/athrill_hakoniwa.cpp:111-150 | After any STOP or RESET, a START with a later world time releases the CPU in one pass |
| `Hakoniwa.WaitDecided` | src/hakoniwa/athrill_hakoniwa.cpp:251-303 | For every script of polls, the waiting stage ends at the first poll that fails, or whose RESET fails, or that finds the asset started and not stopped since, ready, and the clock below that poll's world limit; it then returns running and ready with that world time adopted and the clock where the last RESET put it |
| `Hakoniwa.WaitUndecided` | src/hakoniwa/athrill_hakoniwa.cpp:251-303 | Without such a poll it goes on waiting, running exactly as the last START, STOP or RESET said |
| `Hakoniwa.StopNeedsStart` | src/hakoniwa/athrill_hakoniwa.cpp:111-150 | After a STOP or RESET the asset runs only if a later poll was START |
| `Hakoniwa.StoppedUntilStart` | src/hakoniwa/athrill_hakoniwa.cpp:111-150 | Over every script, after a STOP or RESET the CPU is not released without a later START |
| `Hakoniwa.ResetIsPowerOn` | src/hakoniwa/athrill_hakoniwa.cpp:111-150 | After a completed RESET the stage goes on exactly as from power-on at clock zero, whatever came before |
| `Hakoniwa.FreeRunIff` | src/hakoniwa/athrill_hakoniwa.cpp:229-250 | The stage lets the CPU go on without polling exactly when it is disabled or finalized, or runs below its limit |
| `Hakoniwa.PassReports` | src/hakoniwa/athrill_hakoniwa.cpp:252-261 | One pass reports the clock in microseconds exactly when the asset was running and that differs from the last report, and forgets the reports exactly on a RESET |
| `Hakoniwa.CaughtUpIsReported` | src/hakoniwa/athrill_hakoniwa.cpp:252-261 | A stage that has run up to the adopted world time reports that very time in its next pass |
| `Hakoniwa.WaitReportsOnce` | src/hakoniwa/athrill_hakoniwa.cpp:251-303 | However long it waits without a RESET, it makes at most one report, of the time it stands at |
| `Hakoniwa.NoFrequencyNoReturn` | src/hakoniwa/athrill_hakoniwa.cpp:251-302 | With a CPU frequency of zero the waiting stage never returns |
| `Hakoniwa.InitiallyBetween` | src/hakoniwa/athrill_hakoniwa.cpp:72-109 | The initial state satisfies the invariant |
| `Hakoniwa.LockstepStage.HandlePoll` | src/hakoniwa/athrill_hakoniwa.cpp:111-150 | The event handler over the static variables equals the event function that the script theorems (WaitDecided, StoppedUntilStart) are about |
| `Hakoniwa.LockstepStage.ReportTime` | src/hakoniwa/athrill_hakoniwa.cpp:258-261 | The asset's time is reported exactly when the stage runs and the time differs from the last report |
| `Hakoniwa.LockstepStage.NoticeReady` | src/hakoniwa/athrill_hakoniwa.cpp:278-288 | The asset becomes ready exactly when it runs, is in simulation mode, has its PDUs and is not syncing them |
| `Hakoniwa.LockstepStage.AdoptWorld` | src/hakoniwa/athrill_hakoniwa.cpp:289-300 | The world time is adopted, and the CPU released, exactly when the clock is below its limit |
| `Hakoniwa.LockstepStage.PollOnce` | src/hakoniwa/athrill_hakoniwa.cpp:251-302 | One pass over the static variables equals the pass function |
| `Hakoniwa.LockstepStage.RunStage` | src/hakoniwa/athrill_hakoniwa.cpp:229-303 | The stage equals the stage function and leaves the capped interval |
| `Lockstep.RoundWithinMaxClocks` | src/main/cpuemu.cpp:298-328 | For every target with sound reports and a lead of at least one, the clocks a scheduler round adds are within those the lockstep runs allow, batching or not |
| `Lockstep.RoundKeepsLimit` | src/hakoniwa/athrill_hakoniwa.cpp:176-182 | For every target with sound reports and a lead of at least one, a round ends at or below the world limit if a device event is scheduled, or it runs no batch, or the batch is no longer than the lead |
| `Lockstep.UnscheduledRoundPassesLimitIff` | src/main/cpuemu.cpp:298-328 | For every target and state, a round with no event scheduled passes the limit exactly when there is one core, the lead is below the batch size and the limit below the end clock, the first instruction neither halts nor touches a device, and the CPU then computes up to the limit undisturbed |
| `Lockstep.BatchOverrunsWorldLimit` | src/main/cpuemu.cpp:298-328 | A concrete run that ends 1014 clocks past the limit |
| `MallocSpec.HeldBlocksAreSafe` | src/device/mpu/mpu_malloc.c:121-205 | Over every run that releases only held blocks, held blocks are pairwise disjoint, inside their unit at a multiple of their class size, and at least as large as requested |
| `MallocSpec.HeldBlocksAreBacked` | src/device/mpu/mpu_malloc.c:121-205 | A unit gets host memory only when it is first used, and still every block held at any point of any such run, from freshly attached regions, has memory behind it |
| `MallocSpec.ApplyKeepsSafe` | src/device/mpu/mpu_malloc.c:121-205 | Each allocation or release keeps the held addresses equal to the live blocks |
| `MallocSpec.AllocateFailsIff` | src/device/mpu/mpu_malloc.c:121-163 | Allocation returns 0 exactly when the size exceeds 16384 or every sufficient class is full |
| `MallocSpec.AllocateChoice` | src/device/mpu/mpu_malloc.c:139-162 | A successful allocation sets the lowest clear bit of the chosen unit, returns that block's address, and changes nothing else |
| `MallocSpec.ChoiceIsFirst` | src/device/mpu/mpu_malloc.c:128-146 | The chosen unit is that of the least sufficient class, first group, with a free block |
| `MallocSpec.AllocateKeeps` | src/device/mpu/mpu_malloc.c:121-163 | It keeps the state well formed and makes exactly one address live |
| `MallocSpec.AllocateFits` | src/device/mpu/mpu_malloc.c:121-163 | The block was free and is large enough |
| `MallocSpec.ReleaseKeepsIff` | src/device/mpu/mpu_malloc.c:183-205 | The counts stay right if and only if the released address lies in a block in use, or in no unit |
| `MallocSpec.PutSafeIff` | src/device/mpu/mpu_malloc.c:183-205 | A release keeps the allocator and its callers' view consistent if and only if the address is outside every unit or is a held block |
| `MallocSpec.DoubleReleaseIsUnsafe` | src/device/mpu/mpu_malloc.c:193-203 | The second release of a held block always breaks the state |
| `MallocSpec.InteriorReleaseIsUnsafe` | src/device/mpu/mpu_malloc.c:193-203 | A release one byte into a held block keeps the counts right and frees it under its holder |
| `MallocSpec.ReleaseLive` | src/device/mpu/mpu_malloc.c:183-205 | Releasing a live block removes exactly that address |
| `MallocSpec.AllocateThenRelease` | src/device/mpu/mpu_malloc.c:121-205 | Allocating and releasing restores every bitmap and count |
| `MallocSpec.LiveBlockInsideUnit` | src/device/mpu/mpu_malloc.c:152-162 | A live block lies inside its unit at a multiple of its class size |
| `MallocSpec.LiveBlocksDisjoint` | src/device/mpu/mpu_malloc.c:121-163 | Two live blocks never overlap |
| `MallocSpec.FreeUnitIsFirst` | src/device/mpu/mpu_malloc.c:139-146 | Every unit before the one found, in class-major order, is full |
| `MallocSpec.BlockIsFound` | src/device/mpu/mpu_malloc.c:165-193 | The unit and bit of a block are found again from its address |
| `MallocSpec.CompleteGroupsAreSafe` | src/device/mpu/mpu_malloc.c:218-291 | Attaching disjoint regions, a multiple of ten, gives a well-formed allocator with nothing held |
| `MallocSpec.GroupsOfTen` | src/device/mpu/mpu_malloc.c:272-291 | All groups but the last are complete |
| `MallocSpec.RegionInPlace` | src/device/mpu/mpu_malloc.c:229-291 | Region 10 j + i becomes class i of group j, with every block free and no memory yet |
| `MallocSpec.TableValues` | src/device/mpu/mpu_malloc.c:28-41 | The size table, and that blocks fill a unit exactly |
| `MallocSpec.TableArithmetic` | src/device/mpu/mpu_malloc.c:162-193 | Block offsets and block numbers are the code's product and quotient |
| `Bitmap.SetBit` | src/device/mpu/mpu_malloc.c:47-97 | On the packed words: takes the lowest clear bit, or fails and changes nothing |
| `Bitmap.ClearBit` | src/device/mpu/mpu_malloc.c:193-202 | Clears exactly one bit |
| `Bitmap.FindWord` | src/device/mpu/mpu_malloc.c:58-69 | The first word that is not all ones |
| `Bitmap.FindInWord` | src/device/mpu/mpu_malloc.c:71-85 | The lowest clear bit of a word that has one |
| `Malloc.RegionUnit.Take` | src/device/mpu/mpu_malloc.c:152-161 | A unit's bitmap and count after taking its lowest free block |
| `Malloc.RegionUnit.Free` | src/device/mpu/mpu_malloc.c:193-203 | A unit's bitmap and count after freeing a block |
| `Malloc.Allocator.SearchUnit` | src/device/mpu/mpu_malloc.c:165-181 | The unit that holds an address |
| `Malloc.Allocator.SearchFree` | src/device/mpu/mpu_malloc.c:125-151 | The unit an allocation will use |
| `Malloc.Allocator.GetMemory` | src/device/mpu/mpu_malloc.c:121-163 | Allocation over packed bitmaps equals the allocation function |
| `Malloc.Allocator.ReleaseMemory` | src/device/mpu/mpu_malloc.c:183-205 | Release equals the release function |
| `Malloc.Allocator.ReferenceSize` | src/device/mpu/mpu_malloc.c:207-216 | The class size of the unit that holds an address |
| `Malloc.Allocator.AddRegion` | src/device/mpu/mpu_malloc.c:286-291 | The next class of the last group, or a new group |
| `Malloc.Allocator.Attach` | src/device/mpu/mpu_malloc.c:229-240 | The region becomes a fresh unit of the next class of the last group |
| `SymbolIndex.SymbolTable.FindInIndex` | src/lib/symbol_ops.c:107-141 | Binary search and bounded backward scan give the linear scan's answer, for every table, rebuilding when symbols were added; for symbols below the modulus that is the lowest id whose range, in true integers, spans the address, or -1 |
| `SymbolIndex.EarlyBreakIsSafe` | src/lib/symbol_ops.c:130-139 | The break on the prefix maximum never skips a containing symbol, also when ends wrap |
| `SymbolIndex.LargestEndBounds` | src/lib/symbol_ops.c:97-103 | The prefix maximum bounds every earlier end |
| `SymbolIndex.ScanFindsLowest` | src/lib/symbol_ops.c:163-177 | The linear scan finds the lowest containing id, or none when there is none |
| `SymbolIndex.LowestIsScan` | src/lib/symbol_ops.c:163-177 | That answer is unique |
| `SymbolIndex.ContainsIff` | src/lib/symbol_ops.c:163-177 | A symbol contains exactly the addresses from its start to below start plus size, and none if it reaches the top of the address space |
| `SymbolIndex.ScanIsLowestSpanning` | src/lib/symbol_ops.c:163-177 | The linear scan finds the lowest id whose range spans the address in true integers |
| `SymbolIndex.MissIff` | src/lib/symbol_ops.c:188-206 | In every run of additions and lookups, a lookup misses exactly when no range in the table at that time contains the address |
| `SymbolIndex.HistoryDoesNotMatter` | src/lib/symbol_ops.c:188-206 | In every run, a lookup among symbols that do not overlap answers as the linear scan does |
| `SymbolIndex.RunOps` | src/lib/symbol_ops.c:25-206 | The table with its index, rebuilds and last result gives exactly the answers of the run, for every sequence of additions and lookups |
| `SymbolIndex.AnswerIsLookup` | src/lib/symbol_ops.c:188-206 | Each answer of a run is the lookup in the table of that time with the last answer that hit |
| `SymbolIndex.AnswerInIntegers` | src/lib/symbol_ops.c:188-206 | In every run, an answer is -1 exactly when no symbol of that time spans the address; otherwise it is the last hit if that spans the address, else the lowest id that does |
| `SymbolIndex.HistoryMattersIff` | src/lib/symbol_ops.c:188-206 | In every run, an answer differs from the linear scan exactly when the last hit contains the address and a lower id does too |
| `SymbolIndex.ReuseDiffersIff` | src/lib/symbol_ops.c:188-206 | A reused result differs from the scan exactly when a lower id contains the address too |
| `SymbolIndex.OverlapRemembersHistory` | src/lib/symbol_ops.c:188-206 | Two overlapping symbols and one earlier lookup that changes the answer |
| `SymbolIndex.SymbolTable.AddSymbol` | src/lib/symbol_ops.c:25-47 | Appends, and keeps the stale index valid for the symbols it was built from |
| `SymbolIndex.SymbolTable.Build` | src/lib/symbol_ops.c:83-105 | Builds a sorted permutation of the ids with prefix maxima of the ends |
| `SymbolIndex.SymbolTable.SortIds` | src/lib/symbol_ops.c:72-96 | Every id once, by start address and then by id |
| `SymbolIndex.SymbolTable.CountStarts` | src/lib/symbol_ops.c:120-129 | How many symbols start at or below an address |
| `SymbolIndex.SymbolTable.FindSymbol` | src/lib/symbol_ops.c:188-206 | The last result while it contains the address, else the scan's answer, and the start address |
| `Mpu.CachedRunIsUncachedRun` | src/device/mpu/mpu.c:69-236 | Over every sequence of reads, writes, region additions and lazy backings with disjoint dynamic regions, cached searches answer as uncached ones |
| `Mpu.OneDynamicCovers` | src/device/mpu/mpu.c:69-86 | Of disjoint dynamic regions at most one covers an access |
| `Mpu.CacheIsInvisible` | src/device/mpu/mpu.c:69-159 | With disjoint dynamic regions the cache never changes an answer, whatever it remembers |
| `Mpu.CacheVisibleIff` | src/device/mpu/mpu.c:69-159 | Whatever it remembers, the cache changes an answer exactly when the remembered region is backed and covers the access and an earlier region does too, and then the answer is the remembered region |
| `Mpu.CacheRemembers` | src/device/mpu/mpu.c:69-159 | A search that finds a dynamic region is remembered, and asked again it gives the same answer; every other search leaves the cache alone |
| `Mpu.BackingIsSeen` | src/device/mpu/mpu.c:285-339 | A dynamic region without memory hides what it covers; once it gets memory, exactly that region changes and the search finds it |
| `Mpu.AddedIsSeen` | src/device/mpu/mpu.c:285-339 | A region added behind the other dynamic regions is found where none of those covers, before every static one, and all others stay as they were |
| `Mpu.SearchFindsIff` | src/device/mpu/mpu.c:103-156 | The search finds a region exactly when it covers the access, none before it does, and it has memory if it is dynamic |
| `Mpu.CoversIffInside` | src/device/mpu/mpu.c:50-59 | For accesses that do not wrap, the wrapping test is true containment in a region that ends below the top |
| `Mpu.MaskedCoversIff` | src/device/mpu/mpu.c:50-59 | The same behind any address mask: the masked address is contained in true integers |
| `Mpu.AndBits` | src/device/mpu/mpu.c:50-59 | Masking keeps exactly the bits set in both |
| `Mpu.WrapIsRemainder` | src/device/mpu/mpu.c:50-59 | Address sums wrap to the remainder of whole turns |
| `Mpu.CoveredAddressInside` | src/device/mpu/mpu.c:50-59 | The first byte of any covered access is inside the region |
| `Mpu.AcceptedIsInsideIff` | src/device/mpu/mpu.c:50-59 | An accepted access is wholly inside exactly when it does not run past the top address |
| `Mpu.WrappedAccessAccepted` | src/device/mpu/mpu.c:50-59 | A wrapping access that is accepted although it leaves the region, at every width |
| `Mpu.HostWindowSound` | src/device/mpu/mpu.c:595-621 | An accepted nonempty range lies in one plain-memory region in true integers, never in ROM for writing, and all its bytes exist |
| `Mpu.WindowIff` | src/device/mpu/mpu.c:595-621 | There is a window exactly when the range is not empty and ends below the top of the address space and the search finds backed, unmasked memory with default operations, RAM or for reading also ROM, that the CPU may use; it is that region at the distance from its start |
| `Mpu.HostReadIsBusRead` | src/device/mpu/mpu.c:445-460 | On every map, the bytes copied out of a window are what permitted 8-bit bus reads that go to its region return |
| `Mpu.BusReadGoesIff` | src/device/mpu/mpu.c:164-236 | A bus read of a byte in a region goes there exactly when the read cache remembers that region, or remembers none that covers the byte and no earlier region covers it |
| `Mpu.BusReadSucceedsIff` | src/device/mpu/mpu.c:445-460 | A byte is read exactly when the search finds a backed region with default operations that the CPU may read, and it is the byte at the masked address |
| `Mpu.RangeIsBusIff` | src/device/mpu/mpu.c:164-236 | A whole range is read from its region exactly when no earlier region covers any of its bytes |
| `Mpu.OverlapSplitsReads` | src/device/mpu/mpu.c:285-299 | Two overlapping regions where the window and the bus read differ, and where one access changes the answer to the next |
| `Mpu.OneCoverReadsAgree` | src/device/mpu/mpu.c:50-59 | Without overlaps every bus read of a region's byte goes to that region |
| `Mpu.HostWriteThenBusRead` | src/device/mpu/mpu.c:595-621 | On every map and for every state of the read cache, after a window write bus reads that go to its region return the buffer in the range, and all others what they returned before |
| `Mpu.WriteChangesReads` | src/device/mpu/mpu.c:641-664 | Writing into one region changes exactly the reads that go there, for any search result |
| `Mpu.WriteKeepsMap` | src/device/mpu/mpu.c:595-621 | A write keeps the layout of the map and the size of every region's memory |
| `Mpu.SearchIgnoresBytes` | src/device/mpu/mpu.c:87-236 | Searches, cached or not, do not depend on the bytes behind regions |
| `Mpu.CheckedAddressIff` | src/main/athrill_host_function.c:62-70 | The address test is true containment in the guest address space |
| `Mpu.FindFrom` | src/device/mpu/mpu.c:103-156 | The two search loops find the first covering region |
| `Mpu.AddressMap.SearchRegion` | src/device/mpu/mpu.c:87-236 | Both searches equal the cached search function, each updating only its own cache |
| `Mpu.AddressMap.GetHostMemory` | src/device/mpu/mpu.c:595-621 | The window for what the cached search answers, on every map; only the write cache moves, and only when a search is made |
| `Mpu.HostCall.Read` | src/main/athrill_host_function.c:72-102 | On every map it succeeds exactly when the range lies in the guest's address space and is empty, or ends below its top in backed, unmasked, plain memory that the CPU may read, as the search finds it; then it returns what permitted bus reads of that region return; failures are remembered |
| `Mpu.HostCall.Write` | src/main/athrill_host_function.c:104-129 | Likewise for writing, to RAM only, with the effect on every later bus read; a refused write changes nothing |
| `ElfCheck.ElfImageCheck` | src/lib/loader/elf_image_check.c:286-300 | Accepts exactly the well-formed images, for both classes, with no 64-bit overflow anywhere |
| `ElfCheck.RangeIsInside` | src/lib/loader/elf_image_check.c:37-43 | True containment without an overflowing sum |
| `ElfCheck.TableIsInside` | src/lib/loader/elf_image_check.c:46-55 | True containment of a table without an overflowing product |
| `ElfCheck.CheckPrograms` | src/lib/loader/elf_image_check.c:171-199 | Accepts exactly the well-formed program header tables |
| `ElfCheck.StringTableIsValid` | src/lib/loader/elf_image_check.c:202-211 | A nonempty string table that ends with NUL |
| `ElfCheck.CheckSymbolTable` | src/lib/loader/elf_image_check.c:213-238 | Accepts exactly the symbol tables whose names start inside their string table |
| `ElfCheck.CheckSections` | src/lib/loader/elf_image_check.c:240-284 | Accepts exactly the well-formed section tables |
| `ElfCheck.CheckContents` | src/lib/loader/elf_image_check.c:256-264 | The first pass over the sections |
| `ElfCheck.CheckNames` | src/lib/loader/elf_image_check.c:272-282 | The second pass, with names and symbol tables |
| `ElfSymbols.SymbolTableChecked` | src/lib/loader/elf_image_check.c:213-238 | Every symbol table of an accepted image satisfies the symbol rules |
| `ElfSymbols.Load64` | src/lib/dwarf/elf_section.c:49-67 | The ELF64 reader finds the first symbol table, or none exactly when there is none or it exceeds 4 GiB; every read is inside the image |
| `ElfSymbols.Load32` | src/lib/dwarf/elf_section.c:69-122 | On every accepted image, the last symbol table the 32-bit offsets lead to, or none exactly when they lead to none or to no string table; every section header read is inside the image |
| `ElfSymbols.Entry32ExactIff` | src/lib/dwarf/elf_section.c:81-117 | The 32-bit section offsets are right for every section if and only if the last section header starts below 4 GiB |
| `ElfSymbols.FollowedIsLoaded` | src/lib/dwarf/elf_section.c:89-121 | Below 4 GiB what the ELF32 reader follows is a checked symbol table and its string table, so every symbol read is inside the image |
| `ElfSymbols.SmallImageStartsBelow4G` | src/lib/file.c:57-62 | In an accepted image of at most 4 GiB no section header offset wraps |
| `ElfSymbols.SeesIff` | src/lib/dwarf/elf_section.c:81-117 | Without wrapping, the ELF32 reader takes exactly the sections of type SHT_SYMTAB and the string tables other than the section names |
| `ElfSymbols.NoneTooLarge` | src/lib/dwarf/elf_section.c:53-66 | In a file that file_load reads no symbol table is too large for the ELF64 reader |
| `ElfSymbols.LoadSymbols` | src/lib/dwarf/elf_section.c:38-122 | On every file that file_load and the check accept: no symbols exactly when there is no symbol table or, in ELF32, no string table besides that of the section names; else the first symbol table of an ELF64 file, the last of an ELF32 file, with its string table, from which every symbol can be read |
| `ElfSymbols.Entry32Inside` | src/lib/dwarf/elf_section.c:89-90 | Even a wrapped section header read lies inside the image |
| `ElfWrap.WrappedReaderLeavesImage` | src/lib/dwarf/elf_section.c:89-121 | A whole image that the check accepts and whose ninth symbol, as the reader finds it, lies outside it; it is beyond the size limit of file_load |
| `ElfSymbols.FirstSymbolTable` | src/lib/dwarf/elf_section.c:56-59 | The search loop finds the first symbol table, reading only inside the image |
| `ElfSymbols.Table64` | src/lib/dwarf/elf_section.c:53-66 | The table taken from a symbol table section, unless it exceeds 4 GiB |
| `ElfSymbols.SymbolInside` | src/lib/dwarf/elf_section.c:134-171 | A symbol of a loaded table lies inside the image, and its name ends inside it |
| `ElfSymbols.GetSymbol` | src/lib/dwarf/elf_section.c:134-171 | Every symbol below the count is read inside the image, and its name is the terminated string its entry points to |
| `ElfSymbols.NameTerminates` | src/lib/dwarf/elf_section.c:134-171 | A name that starts in a checked string table ends in the image |
| `ElfLayout.HeaderMembers` | src/lib/loader/elf.h:51-128 | The ELF header is read by the members of the C structure, little-endian, for both classes |
| `ElfLayout.ProgramMembers` | src/lib/loader/elf.h:88-134 | So is a program header: type, offset, physical address, file size and memory size |
| `ElfLayout.SectionMembers` | src/lib/loader/elf.h:71-143 | So is a section header |
| `ElfLayout.SymbolMembers` | src/lib/loader/elf.h:102-150 | So is a symbol: no symbol exactly when its size does not fit 32 bits, and its name is the bytes up to the first NUL |
| `ElfLayout.TypeIgnoresBinding` | src/lib/dwarf/elf_section.c:134-171 | The symbol type is the low four bits of the info byte, whatever the binding |
| `Loader.Reload` | src/device/mpu/loader/loader.c:67-122 | Refuses exactly the images the checks refuse, changing nothing; otherwise every address holds what the reset has done as far as it got, and it succeeds exactly when it got through; then every byte is the file's byte or the zero fill of the last segment loaded over it, else zero in ROM and contiguous RAM, else what it was |
| `Loader.CompletesIff` | src/device/mpu/loader/loader.c:104-120 | A reset gets through exactly when no ROM or contiguous RAM area ends at the top of the address space and no segment is stuck |
| `Loader.ClearsIff` | src/device/mpu/loader/loader.c:104-112 | Clearing a list gets through exactly when none of its areas ends at the top |
| `Loader.StuckSegmentIff` | src/device/mpu/loader/loader.c:52-65 | A segment stops a reset exactly when its area ends at the top or its device gives no pointer |
| `Loader.CompleteIsReset` | src/device/mpu/loader/loader.c:104-120 | A reset that gets through leaves what the history lemmas are about |
| `Loader.CompleteIsAllReset` | src/device/mpu/loader/loader.c:104-120 | The bytes a complete reset leaves, from the file's bytes alone |
| `Loader.ResetIsResetAt` | src/device/mpu/loader/loader.c:104-120 | The reset function gives those bytes, for every image, memory map and address |
| `Loader.ResetMemory` | src/device/mpu/loader/loader.c:104-120 | The three loops one after the other, until one fails |
| `Loader.ResetForgetsIff` | src/device/mpu/loader/loader.c:67-122 | A byte after a reset depends on its history exactly when it is in no ROM or contiguous RAM area and no loaded segment |
| `Loader.ResetIsStartupIff` | src/device/mpu/loader/loader.c:102-120 | A reset gives back what startup gave exactly where a segment is loaded or the fresh memory was zero |
| `Loader.ResetChangesRomByte` | src/device/mpu/loader/loader.c:104-107 | A byte of ROM that startup and a reset leave different |
| `Loader.LastSegmentWins` | src/device/mpu/loader/loader.c:113-120 | The last loaded segment over an address decides its byte: the file's byte at the same distance from the segment's offset below its file size, zero from there to its memory size |
| `Loader.LoadsIff` | src/device/mpu/loader/loader.c:38-65 | A program header is loaded exactly when its type is 1, it is no larger in the file than in memory, and a ROM, contiguous RAM or device area holds all of it |
| `Loader.LoadingForgets` | src/device/mpu/loader/loader.c:52-65 | What lay in memory before loading matters exactly where no loaded segment lies |
| `Loader.ClearedIff` | src/device/mpu/loader/loader.c:104-112 | Clearing zeroes exactly the ROM and contiguous RAM areas |
| `Loader.LoadSegment` | src/device/mpu/loader/loader.c:52-65 | When one area holds the segment and gives a pointer, its addresses get the file's bytes and then zeros and no other address changes; otherwise nothing changes and the status says which; no copy leaves the image or the area |
| `Loader.ClearAreas` | src/device/mpu/loader/loader.c:104-112 | Clears the areas before the first that gives no pointer, and fails exactly if there is one |
| `Loader.LoadPrograms` | src/device/mpu/loader/loader.c:113-120 | Loads the segments before the first that is stuck, and fails exactly if there is one |
| `Loader.StuckArea` | src/device/mpu/loader/loader.c:104-112 | The area where clearing stops is the first without a pointer |
| `Loader.StuckProgram` | src/device/mpu/loader/loader.c:113-120 | The program header where loading stops is the first that is stuck |
| `Loader.MemoryMapCovers` | src/device/mpu/loader/loader.c:38-50 | Some ROM, contiguous RAM or device area holds the whole range |
| `Loader.AreaCoversIff` | src/device/mpu/loader/loader.c:26-34 | The area test is true containment |
| `Loader.Store` | src/device/mpu/mpu.c:623-635 | Fails exactly when there is no pointer at the address, changing nothing; otherwise changes exactly the bytes of the range |
| `Loader.StoreIsWrote` | src/device/mpu/loader/loader.c:62-63 | A write inside an area changes exactly the bytes of its range, for every later look at memory |
| `Loader.AreaSearch` | src/device/mpu/mpu.c:87-159 | A search in an area finds its region, whatever the cache holds, unless the area ends at the top; then nothing is found |
| `Loader.PeekIsBusRead` | src/device/mpu/mpu.c:445-460 | In ROM and RAM the memory is what permitted bus reads return |
| `MemorySetup.SetUp` | src/device/mpu/loader/loader.c:347-384 | Over areas that are not empty, do not overlap and meet no region of the target, the region-creating loops leave the state in which a reset is started, and every MALLOC unit has a region of its own size |
| `MemorySetup.SetUpIsReady` | src/device/mpu/loader/loader.c:347-384 | Each area with memory then has a region of its own, which no other region shares, ROM and RAM with plain operations |
| `MemorySetup.UnitsAreMapped` | src/device/mpu/loader/loader.c:347-384 | Each unit of a MALLOC area is a region of one unit at its place in the area |
| `MemorySetup.SetRegions` | src/device/mpu/loader/loader.c:347-384 | Requests for disjoint ranges are all granted, in order, behind the regions already there |
| `MemorySetup.SetRegion` | src/device/mpu/mpu.c:285-339 | A region is added exactly when no configured region covers the whole range |
| `MemorySetup.RequestsApart` | src/device/mpu/loader/loader.c:347-384 | Disjoint areas, MALLOC units among them, give disjoint requests |
| `MemorySetup.OwnRegion` | src/device/mpu/loader/loader.c:347-384 | An area with memory has its own region after set-up |
| `MemorySetup.FoundAgainIff` | src/device/mpu/mpu.c:401-409 | Looking a region up by its own range finds it exactly when it does not end at the top of the address space |
| `MemorySetup.ResetStopsHalfWay` | src/device/mpu/loader/loader.c:104-112 | A configuration that startup accepts and every reset leaves half done: ROM cleared, RAM not |
| `Handshake.WokenCpuRanAndStopped` | src/debugger/executor/cpu_control/dbg_cpu_thread_control.c:98-113 | Over every interleaving, wake-and-wait returns only after the CPU took a request made no earlier, ran, and stopped again |
| `Handshake.PendingIsTaken` | src/debugger/executor/cpu_control/dbg_cpu_thread_control.c:76-87 | A request stays pending until the first action of the CPU thread, which takes it, whatever else happens |
| `Handshake.WakeIsTaken` | src/debugger/executor/cpu_control/dbg_cpu_thread_control.c:129-135 | Whatever the CPU thread is doing when it is asked to run, its next action takes the request |
| `Handshake.RunKeeps` | src/debugger/executor/cpu_control/dbg_cpu_thread_control.c:76-135 | Over every interleaving the CPU never sleeps on a pending request, runs once per stop and never without a request |
| `Handshake.StepKeeps` | src/debugger/executor/cpu_control/dbg_cpu_thread_control.c:76-141 | Every event keeps that invariant and never lowers the number of requests taken |
| `Handshake.PendingCpuCanAct` | src/debugger/executor/cpu_control/dbg_cpu_thread_control.c:24-31 | With a request pending the CPU thread always has a next action |
| `Handshake.StopWaitReturnsIff` | src/debugger/executor/cpu_control/dbg_cpu_thread_control.c:115-127 | Asking for a stop returns exactly when the CPU is in its wait, at once or at a later poll; otherwise the debugger goes on waiting |
| `Handshake.WakeWaitReturnsIff` | src/debugger/executor/cpu_control/dbg_cpu_thread_control.c:98-113 | Wake-and-wait returns exactly when no request is pending and the CPU is in its wait |
| `Handshake.RequestsAndCpu` | src/debugger/executor/cpu_control/dbg_cpu_thread_control.c:76-135 | Over every event, a request is pending exactly from a wake until the next action of the CPU thread, which runs exactly if one was pending and sleeps otherwise; each take, stop and request is counted once |
| `Handshake.ResumesAreRequested` | src/debugger/executor/cpu_control/dbg_cpu_thread_control.c:76-135 | From power-on, in every interleaving, the CPU has been resumed once for every wait it entered but the one it is in, and never more often than it was asked to run |
| `Handshake.DebuggersAreApart` | src/debugger/executor/cpu_control/dbg_cpu_thread_control.c:88-141 | No event changes what another debugger thread is doing |
| `Handshake.SleepsThroughIff` | src/debugger/executor/cpu_control/dbg_cpu_thread_control.c:88-96 | In every interleaving a debugger sleeps on in its wait exactly as long as no signal reaches it during that sleep and no spurious wake-up happens |
| `Handshake.SignalWakesSleeper` | src/debugger/executor/cpu_control/dbg_cpu_thread_control.c:88-141 | The running CPU thread can always signal; the signal wakes one sleeping debugger and does nothing if none sleeps |
| `Handshake.EarlyWakeDbgIsLost` | src/debugger/executor/cpu_control/dbg_cpu_thread_control.c:88-141 | So a signal sent before the debugger waits changes nothing about how long it sleeps |
| `CommFifo.Fifo.constructor` | src/lib/comm_buffer.c:4-18 | An empty queue of the given size |
| `CommFifo.Fifo.AddOne` | src/lib/comm_buffer.c:20-32 | Appends one byte unless full |
| `CommFifo.Fifo.Add` | src/lib/comm_buffer.c:34-51 | Appends as many bytes as fit, in order, and tells how many |
| `CommFifo.Fifo.GetOne` | src/lib/comm_buffer.c:52-64 | Removes the oldest byte unless empty |
| `CommFifo.Fifo.Get` | src/lib/comm_buffer.c:66-83 | Removes the oldest bytes, as many as there are |
| `CommFifo.Fifo.Close` | src/lib/comm_buffer.c:85-93 | Empties the queue |
| `SerialFifo.RunKeeps` | src/device/peripheral/serial/fifo/serial_fifo.c:103-387 | Over every interleaving of guest, clock and threads, sent bytes, then `wr`, then the device buffer are exactly the accepted bytes in order, received bytes likewise, and neither thread's ASSERT fails |
| `SerialFifo.StepKeeps` | src/device/peripheral/serial/fifo/serial_fifo.c:320-387 | Every event keeps that, and what a thread saw before locking still holds |
| `SerialFifo.WriteKeeps` | src/device/peripheral/serial/fifo/serial_fifo.c:144-215 | MOVE and TX conserve the accepted bytes |
| `SerialFifo.ReadKeeps` | src/device/peripheral/serial/fifo/serial_fifo.c:131-140 | A read command conserves the received bytes |
| `SerialFifo.TransmitMovesAll` | src/device/peripheral/serial/fifo/serial_fifo.c:144-168 | TX moves bytes in order until the device buffer is empty or the write FIFO full, and stays set exactly in the latter case |
| `SerialFifo.WriteClock` | src/device/peripheral/serial/fifo/serial_fifo.c:187-215 | One clock of the write side by the register values of the header: the status is full from sixteen bytes on, MOVE appends one byte unless full, other commands do nothing |
| `SerialFifo.ReadClock` | src/device/peripheral/serial/fifo/serial_fifo.c:103-143 | One clock of the read side: the status tells whether there is data, a read takes the oldest byte if there is one, and the command is cleared |
| `SerialFifo.StepRecords` | src/device/peripheral/serial/fifo/serial_fifo.c:320-387 | Which event accepts, sends, receives or consumes a byte, and what each thread does next |
| `SerialFifo.AllCanBeSent` | src/device/peripheral/serial/fifo/serial_fifo.c:320-334 | From every reachable state there is a run after which every accepted byte has been sent: no state of the device and its threads is stuck |
| `SerialFifo.TransmitThreadDrains` | src/device/peripheral/serial/fifo/serial_fifo.c:320-334 | The transmit thread alone sends all that the write FIFO holds, in order |
| `SerialFifo.ReceiveThreadDelivers` | src/device/peripheral/serial/fifo/serial_fifo.c:371-385 | The receive thread puts a byte from the host behind those in the read FIFO if there is room |
| `SerialFifo.AssertFailsIff` | src/device/peripheral/serial/fifo/serial_fifo.c:320-385 | An ASSERT of a thread fails exactly when it takes from an empty or adds to a full buffer |
| `SerialFifo.Channel.CpuRead` | src/device/peripheral/serial/fifo/serial_fifo.c:103-143 | One clock of the read side over the ring buffers |
| `SerialFifo.Channel.CpuWrite` | src/device/peripheral/serial/fifo/serial_fifo.c:187-215 | One clock of the write side over the ring buffers |
| `SerialFifo.Channel.Transmit` | src/device/peripheral/serial/fifo/serial_fifo.c:144-168 | TX moves as many of the oldest bytes as fit, in order |
| `SerialFifo.WriteStatusStaleIff` | src/device/peripheral/serial/fifo/serial_fifo.c:187-215 | After a clock the status allows a write to a full buffer exactly when that clock filled it |
| `SerialFifo.AllowedMoveIsLostIff` | src/device/peripheral/serial/fifo/serial_fifo.h:39-54 | A byte moved when the status allows it is lost exactly in that case |
| `SerialFifo.AllowedByteIsLost` | src/device/peripheral/serial/fifo/serial_fifo.h:39-54 | A run from the initial state in which the guest moves each byte only when the status allows it, and the seventeenth is lost |
| `SerialFifo.AllowedReadRepeats` | src/device/peripheral/serial/fifo/serial_fifo.h:75-88 | A run from the initial state in which the guest reads only when the status allows it, and reads one byte twice |
| `SerialFifo.AllowedReadRepeatsIff` | src/device/peripheral/serial/fifo/serial_fifo.h:75-88 | A read that the status allows repeats the previous byte exactly when the previous clock took the last one |
| `Sort.BubbleSort` | src/lib/object_container.h:108-140 | Ends, with a sorted and stable permutation of the elements |
| `Sort.Pass` | src/lib/object_container.h:124-137 | A pass that swaps lowers the number of inversions; one that does not leaves neighbours in order |
| `Sort.SwapRemovesInversion` | src/lib/object_container.h:128-135 | Each swap removes exactly one inversion |
| `Sort.SwapKeepsPermuted` | src/lib/object_container.h:128-135 | Each swap keeps a stable permutation |
| `Sort.InOrderSorted` | src/lib/object_container.h:124-137 | Neighbours in order means sorted |
| `Sort.ByTimeIsStrictWeak` | src/debugger/executor/concrete_executor/dbg_std_executor.c:715-724 | The comparison in use is a strict weak order |
| `GdbPacket.FrameRoundTripIff` | src/debugger/rsp/gdb_rsp.c:25-64 | A sent frame is read back as it was after any bytes without `$`, exactly when it holds no `#` |
| `GdbPacket.ReceiveIs` | src/debugger/rsp/gdb_rsp.c:25-51 | On every stream, the bytes between the first `$` and the next `#` are accepted and acknowledged exactly when they fit and the two characters after give their sum modulo 256, refused when they give another, and end the session when they do not fit or the stream ends |
| `GdbPacket.ChecksumIsSum` | src/debugger/rsp/gdb_rsp.c:36-62 | The checksum is the sum of the bytes modulo 256 |
| `GdbPacket.ChangedByteIsRefused` | src/debugger/rsp/gdb_rsp.c:25-64 | A sent frame with any one byte of its packet changed, but not to `#`, is refused |
| `GdbPacket.HexValueIff` | src/debugger/rsp/gdb_rsp.c:66-72 | The sixteen digits, letters in either case |
| `GdbSession.SessionRoundTrip` | src/debugger/rsp/gdb_rsp.c:276-297 | If the peer waits for stop replies, a session dispatches exactly the packets sent, in order, up to and including the first that detaches or kills, whatever noise lies between |
| `GdbSession.AllDispatchedIff` | src/debugger/rsp/gdb_rsp.c:104-134 | All packets sent are dispatched, in order, exactly when none but the last closes the session and no byte of a packet is sent while the target runs |
| `GdbSession.DisturbedLosesPacket` | src/debugger/rsp/gdb_rsp.c:104-134 | A packet that reaches into the time the target runs is lost, whatever follows |
| `GdbSession.DamagedFrameIsSkipped` | src/debugger/rsp/gdb_rsp.c:276-297 | A frame damaged in one byte of its packet changes nothing about what is dispatched after it |
| `GdbSession.CutWire` | src/debugger/rsp/gdb_rsp.c:25-51 | A stream cut anywhere yields no more than its remaining frames hold, strictly less when a frame is cut |
| `GdbSession.RunSession` | src/debugger/rsp/gdb_rsp.c:282-293 | The session loop over packets, detach, kill and running |
| `GdbSession.DetachAndKillClose` | src/debugger/rsp/gdb_rsp.c:152-154 | A packet closes the session exactly if its bytes begin with k, or are a D that ends there or is followed by a NUL |
| `GdbSession.ContinuesIff` | src/debugger/rsp/gdb_rsp.c:225-245 | The target is set running exactly by c, by c and an address, or by vCont;c without a ;s, up to the first NUL |
| `GdbSession.FormsParse` | src/debugger/rsp/gdb_rsp.c:74-83 | Blanks, a sign, 0x and digits are an address exactly when the number fits 32 bits, or after a minus sign wraps to fewer |
| `GdbSession.ParsesOnlyForms` | src/debugger/rsp/gdb_rsp.c:74-83 | Nothing else is taken for an address |
| `GdbSession.EmptyPacketEndsSession` | src/debugger/rsp/gdb_rsp.c:25-51 | An empty packet is acknowledged and ends the session |
| `GdbPacket.SendPacket` | src/debugger/rsp/gdb_rsp.c:53-64 | The frame with its checksum; nothing when too long |
| `GdbPacket.ReadPacket` | src/debugger/rsp/gdb_rsp.c:25-51 | The loops equal the receive function on every stream: return value, packet, bytes used and answer |
| `GdbPacket.ReadBody` | src/debugger/rsp/gdb_rsp.c:36-40 | The body up to `#`, its checksum, and whether it fits |
| `GdbPacket.ChecksumTextIs` | src/debugger/rsp/gdb_rsp.c:41-44 | Exactly which two characters strtoul turns into which checksum: also blanks, signs and NULs |
| `GdbPacket.ChecksumTextOfDigits` | src/debugger/rsp/gdb_rsp.c:42-46 | The two checksum digits are read back as the checksum |
| `GdbRegisters.SavedRegistersRestored` | src/debugger/rsp/gdb_rsp.c:155-196 | A saved `g` reply sent as `G` to changed registers is answered OK exactly when the target accepts every register it carries, and then restores those and leaves the unavailable ones alone |
| `GdbRegisters.RestoredAt` | src/debugger/rsp/gdb_rsp.c:185-196 | What each register holds afterwards |
| `GdbRegisters.AcceptsIff` | src/debugger/rsp/gdb_rsp.c:185-196 | What acceptance by the target means |
| `GdbRegisters.WrittenOkIff` | src/debugger/rsp/gdb_rsp.c:185-196 | A `G` packet is answered OK exactly when it has two characters for every byte of every register, and those of each register are all x, or all digits and the target accepts the write |
| `GdbRegisters.WrittenAt` | src/debugger/rsp/gdb_rsp.c:185-196 | It then leaves the registers whose text is all x as they were and gives every other one the bytes its digits spell |
| `GdbRegisters.ReplyAt` | src/debugger/rsp/gdb_rsp.c:155-164 | Every character of the `g` reply: two for each byte, high digit first, in register order, or x for a register that cannot be read |
| `GdbRegisters.DecodedHexText` | src/debugger/rsp/gdb_rsp.c:66-95 | Decoding gives back what was encoded, whatever follows |
| `GdbRegisters.HexEncode` | src/debugger/rsp/gdb_rsp.c:85-95 | Two digits a byte, high digit first |
| `GdbRegisters.DecodeRegister` | src/debugger/rsp/gdb_rsp.c:191 | The bytes of a register, or an error on the first wrong digit |
| `GdbRegisters.Target.ReadAll` | src/debugger/rsp/gdb_rsp.c:155-164 | The `g` reply, with x for registers that cannot be read |
| `GdbRegisters.Target.WriteAll` | src/debugger/rsp/gdb_rsp.c:185-196 | The `G` packet equals the write function, replies and partial writes included |

## Left out

- ElfSymbols.Load32: assumes that no image was loaded before, since the reader's statics are not cleared.
- Loader.Reload: assumes the memory that MemorySetup.SetUp leaves (areas that are not empty and overlap neither each other nor other regions), and no segment beyond the address bus, which elf_load refuses; a device's own get_pointer is taken to point into the device's memory.
- MemorySetup.SetUp: a device library without the symbols it needs, which makes elf_load fail, is not modelled, nor is the code cache.
- MallocSpec.CompleteGroupsAreSafe: excludes a unit that ends exactly at the top of the address space, for which no region is found and NULL is attached (FoundAgainIff).
- Hakoniwa.LockstepOverRuns: leaves out runs with a batch that has no device event scheduled and may exceed the lead, which do pass the limit exactly as UnscheduledRoundPassesLimitIff says.
- Mpu.HostCall.Read: NULL buffers are not modelled.
- Mpu.HostCall.Write: the code cache that a write invalidates is not modelled.
- SymbolIndex.SymbolTable.SortIds: an insertion sort in the place of the C library's qsort, with the same result, since ids make the order total.
- Sort.BubbleSort: the growth of the pointer array is not modelled, and an empty container, on which the unsigned loop bound wraps, is excluded.
- GdbSession.RunSession: answers to the peer are taken to be sent, and how many bytes arrive while the target runs is a parameter.
- GdbPacket.ReadPacket: the stream is what the peer sends before it closes; socket errors are closes.
- The EXDEV poll on every tick, which reads guest RAM and is outside the contract of batching.
- The debugger's own run loop (`cpuemu_thread_run_dbg`), target reset inside a scheduler run, real-time pacing and SIGTERM.
- Hakoniwa library calls, the conductor and PDU channels, beyond a world time that never goes back and arbitrary events.
- Instruction sets, interrupt controllers and devices: they are the parameter of the scheduler.
- 16- and 32-bit bus accesses, device operations of regions, and `mpu_get_memory_window`.
- The interrupt delays of the serial channel and channels driven by external devices.
- The GDB packets other than g and G (addresses, breakpoints, running), sockets, the CUI and command parsing.
- DWARF readers, mROS, profiling, breakpoint counting and stack-frame logging.
- malloc failure and relocation by realloc: regions, units and elements are identified by index.
