# Verified model of the metal library's drivers and register-map tools

A Dafny project that models the stateful parts of the RISC-V bare-metal library and of its Python
register-map generator, and proves what they promise. `dafny verify dfyconfig.toml` checks it all.

Hardware registers are mutable state. Another hart, a timer or a peer on a bus is an arbitrary
input: a schedule, a sequence of counter values, a sequence of replies. Every statement is for all of
them.

| files | part of the system | main results |
|---|---|---|
| `HartBarrier`, `SpinLock` | start-up barrier and spin lock, as step systems for any number of harts | nobody leaves before everybody arrives, and 4n - 2 fair rounds let everybody out; mutual exclusion and capped backoff over every run |
| `Clint` | `mtime` and `mtimecmp` through 32-bit registers | a read returns a value the counter held during the call; the three stores never dip below both settings |
| `Plic`, `PlicDriver` | interrupt controller on a flat word memory | every run of calls refines sets and maps; affinity masks mean what they say exactly when they have no gap |
| `Pll`, `PllTable`, `ClockCallbacks` | clock solver and rate-change callbacks | the chosen row is the nearest valid one and decodes back within a stated bound; every UART divisor follows the clock |
| `PmpRegs`, `Pmp` | memory protection: registers that keep and show only what the hart supports, and their driver | a locked region never changes; a set reads back exactly when a checkable condition holds; initialisation detects the hart's granularity |
| `Spi`, `Trace`, `Dma`, `Cmdline` | byte streams and buffers | every byte once, in order, in the right mode, for any peer, alignment or input |
| `Rtc`, `TimeOfDay` | time arithmetic | exact results with the exact range in which they hold |
| `RegFields`, `RegWords`, `RegStride` | register-map transformations | round trip of split and fuse, partition by word, tiling, lossless factoring |
| `Bits`, `Words`, `Bytes`, `Arith`, `Wrappers` | machine words, little-endian bytes, floor division, optional values | the laws the rest rests on |

## What the code does not do

The model follows the code in each of these places. Where a property fails, the member named here
states the exact condition under which it holds, or shows a case in which it does not.

- Affinity calls never test the bit they iterate over (`metal/include/metal/interrupt.h:50-51`), so
  they act on every context from 1 to the mask's top bit: `Plic.AffinityMatchesMaskIff`,
  `Plic.AffinityCounterexample`.
- Registering an interrupt asks for priority 2, or 1 for the default handler, and reports success even
  when the device refuses the priority as not below its maximum: `PlicDriver.RegisteredPriorityIff`,
  `PlicDriver.RegisteredPriorityRefused`.
- Setting a PMP region reports success in cases in which it does not read back: a region one past the
  end, the bound of a locked TOR region, low address bits that the grain hides, high ones that are not
  implemented, padding and reserved permissions. `Pmp.SetReadsBackIff` has the exact condition, and
  `Pmp.DetectedGranularityGuards` what is left of it once the granularity is detected.
- With a grain of 1, setting a region to the address it reads as can uncover a hidden bit and double
  the region: `Pmp.HiddenBitIsUncovered`.
- A NAPOT address that ends in 29 ones or more makes the granularity loop or its shift undefined:
  `Pmp.UndefinedIff`. Initialising again after region 0 was locked in NAPOT mode is such a call, and
  with the address of region 0 bounding a locked TOR region the detection reads what was stored there:
  `Pmp.Driver.Init`, `Pmp.DetectionIff`.
- A callback appended twice points to itself, and the list never ends: `ClockCallbacks.Append`.
- A baud rate above the clock rate wraps the divisor: `ClockCallbacks.DivisorMeaning`.
- Giving the spin lock while another hart holds it, and only then, breaks it: `SpinLock.GiveKeepsInvIff`;
  the next hart to swap becomes a second holder: `SpinLock.RogueGiveBreaksExclusion`.
- A SPI transfer reads and writes `cmd + addr + dummy` bytes even when that exceeds `len`, although
  `metal/include/metal/spi.h:68-71` asks for buffers of `len` bytes; and the phase sums wrap at 32
  bits: `Spi.PhasesAddUpIff`, `Spi.PhasesWrap`.
- The RTC compare loop shifts by 1, 2, 3 and so on, while the scale counts one per round, so values
  from 2^33 on are stored far too low: `Rtc.AccurateIff`.
- The DMA descriptor subtracts an unsigned prolog length without checking that the buffer reaches
  the first boundary: `Dma.Engine.Process` needs that, and `Dma.ShortBufferOverruns` is a case.
- Fusing register fields fails on any group in which a field comes before the fused one, and drops
  every field after a run it cannot fuse: `RegFields.FuseGroupIff`, `RegFields.GroupRefused`,
  `RegFields.GroupCut`.
- The interrupt controller's fused registers take the reset value of their first word only, because
  the code that merges the others follows a `raise`: `RegStride.FusedResetIff`.
- A command line that fills the 256-character buffer leaves its last word without a NUL when it does
  not end in a space and at most fourteen words come before: `Cmdline.AllTerminatedIff`, and
  `Cmdline.FullBufferLosesNul` for 256 letters.
- The time of day runs backwards between two counter values when the timebase is so large that the
  product with a remainder wraps, up to 2^64 - 64, and where the seconds leave a signed `time_t`:
  `TimeOfDay.TimeIsMonotoneIff`, `TimeOfDay.TimeGoesBack`, `TimeOfDay.SecondsTurnNegative`.
- An int that is not a character spills over the bytes after it in the trace accumulator:
  `Trace.PackIff`.

## Model

| member | source | states |
|---|---|---|
| HartBarrier.LeftImpliesAllArrived | metal/src/synchronize_harts.c:44-63 | in every reachable state of any schedule, if any hart has left the barrier then every hart has arrived |
| HartBarrier.StepKeepsInv | metal/src/synchronize_harts.c:44-63 | every step of every hart keeps the agreement between each hart's position, its MSIP bit and hart 0's progress |
| HartBarrier.SomeHartCanMove | metal/src/synchronize_harts.c:44-63 | no deadlock: until all harts are out, some hart has a step that is not a repeated poll |
| HartBarrier.StepDropsMeasure | metal/src/synchronize_harts.c:44-63 | a step lowers the distance to the end by exactly one, or is a repeated poll and leaves it |
| HartBarrier.RunMovesOrSpins | metal/src/synchronize_harts.c:44-63 | any schedule brings the barrier nearer its end, or every hart in it only repeated its poll |
| HartBarrier.BarrierCompletes | metal/src/synchronize_harts.c:44-63 | no lost release: 4n - 2 rounds that each run every hart let all n harts out and leave every MSIP bit zero |
| HartBarrier.MovesBounded | metal/src/synchronize_harts.c:44-63 | no run makes more than 4n - 2 moves, and all harts are out exactly when it has made them all |
| SpinLock.StepKeepsInv | metal/include/metal/lock.h:78-132 | every disciplined step keeps: at most one holder, word 1 exactly while held, each backoff as its failures call for |
| SpinLock.MutualExclusion | metal/include/metal/lock.h:78-132 | over every run in which each give comes from the holder or finds the lock free, at most one hart holds, and the word is 0 exactly when none does |
| SpinLock.GiveKeepsInvIff | metal/include/metal/lock.h:126-132 | a give keeps the lock's invariant if and only if the giver holds the lock or the lock is free |
| SpinLock.BackoffDoubles | metal/include/metal/lock.h:96-102 | the closed form of the backoff doubles below the cap, stays at it, and never exceeds it |
| SpinLock.BackoffIsCappedPower | metal/include/metal/lock.h:83-102 | in every reachable state a waiter's backoff after k failures is 2^k, capped at 256 |
| SpinLock.FreeLockIsWon | metal/include/metal/lock.h:86-103 | once the lock is free, a hart running alone holds it within 258 turns, from any backoff state |
| SpinLock.PauseLasts | metal/include/metal/lock.h:95-102 | whatever the other harts do, a pause lasts exactly the backoff in turns of the waiting hart, and the next backoff is twice that below 256 |
| SpinLock.SwapsAreApart | metal/include/metal/lock.h:86-102 | after a failed swap with backoff b a hart does not swap again within its next b turns |
| SpinLock.RogueGiveBreaksExclusion | metal/include/metal/lock.h:126-132 | with the lock held and another hart about to swap, a give by any hart but the holder and that swap make two holders |
| Clint.MtimeGet | metal/src/drivers/riscv_clint0.c:13-30 | the result is the counter's value at one load of the call, and retries are at most the high-word increments during the call |
| Clint.ReadTwice | metal/src/drivers/riscv_clint0.c:13-30 | successive reads never go backwards |
| Clint.HalvesMatch | metal/src/drivers/riscv_clint0.c:25-29 | equal high words around a low word make one value the counter held |
| Clint.UnguardedReadIff | metal/src/drivers/riscv_clint0.c:19-29 | without the retry the two halves are the counter's value exactly when no carry came between |
| Clint.Timer.MtimecmpSet | metal/src/drivers/riscv_clint0.c:32-55 | exactly three stores, which set one hart's compare value; none of the values the register has after them is below both the old and the new one |
| Clint.LowThenHighDips | metal/src/drivers/riscv_clint0.c:39-53 | storing only low then high passes below both settings exactly when the high word rises and the low word falls |
| Plic.AddressesDisjoint | metal/src/drivers/riscv_plic0.c:37-103 | enable words, priorities, thresholds and claim registers never alias: equal addresses mean equal context and word |
| Plic.MemoryMap | bsp/qemu-sifive_e_rv64x2/include/metal/machine/platform.h:31-38 | where priorities, enables, thresholds and claim registers are, in numbers |
| Plic.EnableBitArray | metal/src/drivers/riscv_plic0.c:91-101 | the enable words of a context are one bit array in which source id is bit id |
| Plic.StoreWrites | metal/src/drivers/riscv_plic0.c:37-103 | an update writes one bit of one enable word, or one threshold word, at its address in numbers, and no other bit of the memory |
| Plic.StoreRefines | metal/src/drivers/riscv_plic0.c:37-103 | one register update changes one enable bit or one threshold of the decoded state and nothing else |
| Plic.PriorityRefines | metal/src/drivers/riscv_plic0.c:58-72 | a priority write changes one priority, only if it is below the device maximum |
| Plic.AffinityActsBelowTop | metal/src/drivers/riscv_plic0.c:221-281 | an affinity call acts on exactly the contexts 1 to the mask's top bit |
| Plic.NoGapIff | metal/include/metal/interrupt.h:50-51 | the contexts acted on are the ones named exactly when the mask, shifted right once, is all ones |
| Plic.AffinityMatchesMaskIff | metal/src/drivers/riscv_plic0.c:221-281 | in every state affinity calls act on exactly the named contexts, if and only if the mask has no gap |
| Plic.AffinityCounterexample | metal/src/drivers/riscv_plic0.c:221-242 | mask 0b1000 enables the source in contexts 1 and 2 as well as 3 |
| Plic.InitParentsAt | metal/src/drivers/riscv_plic0.c:130-160 | after n parents: their enables are off, their thresholds 0, existing sources at priority 0, everything else as it was |
| Plic.InitParentsRefines | metal/src/drivers/riscv_plic0.c:123-163 | initialisation decodes to clearing exactly the parents' enables and thresholds and the existing priorities |
| PlicDriver.CallRefines | metal/src/drivers/riscv_plic0.c:123-281 | every driver call on the flat memory decodes to its meaning on sets and maps |
| PlicDriver.RegisteredPriorityIff | metal/src/drivers/riscv_plic0.c:165-185 | after registration, with a handler or the default one, the source has the priority asked for exactly when it exists and the maximum is higher, or it had it before |
| PlicDriver.RegisteredPriorityRefused | metal/src/drivers/riscv_plic0.c:165-185 | with a maximum of 2 a source registered with a handler stays at priority 0, and one without gets its 1 |
| PlicDriver.RunRefines | metal/src/drivers/riscv_plic0.c:37-281 | over every run of calls the decoded memory is exactly the abstract state |
| PlicDriver.InitDisablesParents | metal/src/drivers/riscv_plic0.c:126-162 | word by word: a first initialisation zeroes the parents' enable bits and thresholds and the existing sources' priorities, and keeps those of others; a second one does nothing |
| PlicDriver.CompletionInvisible | metal/src/drivers/riscv_plic0.c:27-35 | completing an interrupt changes no enable, priority or threshold |
| PlicDriver.Controller.EnableRaw | metal/src/drivers/riscv_plic0.c:85-103 | exactly bit id of the context's enable words takes the value, at byte 0x2000 + 0x80 * context + 4 * (id / 32); every other bit of the memory is kept |
| PlicDriver.Controller.SetPriority | metal/src/drivers/riscv_plic0.c:58-72 | refused with -1 unless below the maximum; otherwise exactly the word at 4 * id takes the priority |
| PlicDriver.Controller.SetThreshold | metal/src/drivers/riscv_plic0.c:37-46 | exactly the word at 0x200000 + 0x1000 * context takes the level |
| PlicDriver.Controller.Switch | metal/src/drivers/riscv_plic0.c:187-208 | sources at or past the interrupt count are refused and change nothing; others change exactly their own enable bit |
| PlicDriver.Controller.SwitchMask | metal/src/drivers/riscv_plic0.c:221-265 | the shifting loop computes the affinity effect; its result mask is always zero on success |
| PlicDriver.Controller.ThresholdMask | metal/src/drivers/riscv_plic0.c:267-281 | the shifting loop computes the affinity effect on thresholds |
| PlicDriver.Controller.InitSource | metal/src/drivers/riscv_plic0.c:141-149 | one source of one parent: disabled, and for an existing source priority and handler tables reset |
| PlicDriver.Controller.InitContext | metal/src/drivers/riscv_plic0.c:141-151 | all sources of one parent and its threshold |
| PlicDriver.Controller.Init | metal/src/drivers/riscv_plic0.c:123-163 | the nested loops compute the initialised device and handler tables, and a second call changes nothing |
| PlicDriver.Controller.Register | metal/src/drivers/riscv_plic0.c:165-185 | handler or default handler and its data go to the right table, and unknown sources are refused |
| PlicDriver.Controller.Handle | metal/src/drivers/riscv_plic0.c:107-121 | claim, then dispatch of a registered existing source only, then completion of exactly what was claimed, in this order and as those actions record it; nothing a caller can see changes |
| PllTable.TableConsistent | metal/src/drivers/sifive_fe310-g000_pll.c:45-124 | every one of the 68 rows fits its fields, encodes its own multiplier and divisor, and keeps products below 2^31 |
| Pll.ReadField | metal/include/metal/compiler.h:11-12 | the mask macro reads the register field |
| Pll.FreqExact | metal/src/drivers/sifive_fe310-g000_pll.c:140-147 | on a valid row the 32-bit product does not wrap and the prediction is the exact scaled input, positive and below 2^31 |
| Pll.FindClosestConfig | metal/src/drivers/sifive_fe310-g000_pll.c:253-273 | the row returned is valid, no valid row is nearer, ties go to the highest index, and -1 means no row is valid |
| Pll.ClosestIsUnique | metal/src/drivers/sifive_fe310-g000_pll.c:253-273 | that description determines the row |
| Pll.ClosestIsNearest | metal/src/drivers/sifive_fe310-g000_pll.c:253-273 | the closest row by prediction is the nearest by the exact quotient of input times multiplier and divisor, the last of the equally near ones |
| Pll.PredictionCases | metal/src/drivers/sifive_fe310-g000_pll.c:261-263 | a row's prediction is not the error value exactly when the row is valid, and then it beats the initial bound |
| Pll.ChainWithinSlack | metal/src/drivers/sifive_fe310-g000_pll.c:229-242 | the divide, multiply, divide, divide chain lies between the scaled input less the scaled remainder bound, and the scaled input |
| Pll.RowWithinSlack | metal/src/drivers/sifive_fe310-g000_pll.c:140-147 | for a row and a valid input the chain is within ceil(r * multiplier / divisor) of the prediction, and stays below 2^31 |
| Pll.EncodedRateWithinSlack | metal/src/drivers/sifive_fe310-g000_pll.c:193-243 | registers that encode row i decode to a rate between predicted - ceil(r * multiplier / divisor) and predicted |
| Pll.Device.Configure | metal/src/drivers/sifive_fe310-g000_pll.c:288-342 | the register writes encode the row, clear bypass and leave the reference selection and the reserved bits alone, each of them while the PLL is not selected; the lock bit has been seen |
| Pll.Device.EncodeDivider | metal/src/drivers/sifive_fe310-g000_pll.c:300-311 | the divider register holds the row's final divider, or 1 with the divider off, and its other bits are kept |
| Pll.Device.GetRateHz | metal/src/drivers/sifive_fe310-g000_pll.c:193-243 | for any register contents: the input of the unselected PLL, the input named by the reference bit under bypass, -1 for q = 0, and else a rate between input * 2(f + 1) / ((r + 1) 2^q d) and that less ceil(r * 2(f + 1) / ((r + 1) 2^q d)) |
| Pll.DecodedRateIs | metal/src/drivers/sifive_fe310-g000_pll.c:207-243 | the decoding chain has that value or lies in that range, for every register content |
| Pll.BypassWindowIs | metal/src/drivers/sifive_fe310-g000_pll.c:368-371 | the test with truncating divisions is 3 * input - 3 <= 4 * rate <= 5 * input |
| Pll.Device.SetRateHz | metal/src/drivers/sifive_fe310-g000_pll.c:344-386 | with 3 * input - 3 <= 4 * rate <= 5 * input, or with no valid row, the input rate; otherwise the nearest row, encoded and locked, and a rate within its bound; bypass is on exactly when no row is used; and over the whole history of register contents, dividers, multiplier and bypass change only while the PLL is not selected |
| ClockCallbacks.Append | metal/include/metal/clock.h:61-79 | a new node extends the list by itself at the end; a node already in the list makes a list that never ends |
| ClockCallbacks.ListHasNoDuplicates | metal/include/metal/clock.h:49-56 | a list that ends visits no node twice |
| ClockCallbacks.SelfLoopIsNoList | metal/include/metal/clock.h:49-56 | a walk that reaches a node pointing to itself never ends |
| ClockCallbacks.DivisorMeaning | metal/src/drivers/sifive_uart0.c:144-147 | the divisor gives the nearest rate not below the one asked for exactly when the clock is at least that fast; for a slower clock it is 2^32 - 1 |
| ClockCallbacks.Uart.SetBaudRate | metal/src/drivers/sifive_uart0.c:136-151 | the divisor matches the clock and both directions are enabled, other control bits kept |
| ClockCallbacks.Uart.PostRateChange | metal/src/drivers/sifive_uart0.c:182-185 | the post-change callback brings the divisor back in tune, enables both directions, keeps every other control bit, and records the clock rate at which it ran |
| ClockCallbacks.Uart.Drain | metal/src/drivers/sifive_uart0.c:153-164 | the pre-change callback sets the transmit watermark field to one and nothing else, and records the clock rate at which it ran |
| ClockCallbacks.Uart.Retune | metal/src/drivers/sifive_uart0.c:136-151 | a change of baud rate leaves every registered UART in tune, when the others were, and sets exactly the two enable bits |
| ClockCallbacks.Uart.Init | metal/src/drivers/sifive_uart0.c:187-207 | registering a new UART keeps both lists well formed and every registered UART in tune, and enables both of its directions |
| ClockCallbacks.Clock.Link | metal/src/drivers/sifive_uart0.c:193-205 | both lists become the old ones plus the new UART's nodes |
| ClockCallbacks.Clock.CallPre | metal/include/metal/clock.h:49-56 | the walk drains every UART once, in registration order, at the rate the clock then has, as the drains themselves record it; only the watermarks change |
| ClockCallbacks.Clock.CallPost | metal/include/metal/clock.h:49-56 | the walk retunes every UART once, in registration order, at the rate the clock then has, as the callbacks themselves record it; all divisors match the clock and all directions are enabled, other control bits kept |
| ClockCallbacks.Clock.SetRateHz | metal/include/metal/clock.h:128-136 | every UART drains at the old rate, then the rate is set, then every UART is retuned at the new one, each once and in registration order; divisors match the clock again, watermarks are one, both directions are enabled, and every other control bit is as before |
| PmpRegs.ByteOfConfig | metal/include/metal/pmp.h:43-61 | a configuration packs into a byte and unpacks to itself |
| PmpRegs.ConfigOfByte | metal/include/metal/pmp.h:43-61 | every byte is the packing of one configuration |
| PmpRegs.ByteMembers | metal/include/metal/pmp.h:43-61 | R, W and X are bits 0 to 2, A bits 3 and 4, and L bit 7 of the byte |
| Pmp.PmpaddrGranularity | metal/src/pmp.c:54-63 | k trailing ones ask for 2^(k + 3) bytes, and with 29 or more the shift is undefined |
| Pmp.DetectedGranularity | metal/src/pmp.c:29-42 | k trailing zeros mean 2^(k + 2) bytes, zero the largest value, and with 30 or more the shift is undefined |
| Pmp.DetectedIs | metal/src/pmp.c:29-42 | zero gives the largest value, 30 low zeros or more are undefined, and a lowest set bit k gives 2^(k + 2) |
| Pmp.TrailingOnesMeaning | metal/src/pmp.c:44-60 | the count is the index of the lowest unset bit |
| Pmp.TrailingZerosMeaning | metal/src/pmp.c:19-38 | the count is the index of the lowest set bit |
| Pmp.TrailingOnesAtLeast | metal/src/pmp.c:54-60 | the loop counts k or more exactly when the low k bits are ones |
| Pmp.UndefinedIff | metal/src/pmp.c:133-135 | a call leaves what C defines exactly when it is a NAPOT call in range whose address has its low 29 bits set |
| Pmp.CodesIff | metal/src/pmp.c:123-149 | which return code is given: 2 out of range, 3 for NA4 or NAPOT finer than the granularity, 4 for a locked region, 0 otherwise |
| PmpRegs.FieldOfWord | metal/src/pmp.c:276-292 | each byte of a packed word as read is one region's configuration |
| PmpRegs.ClearByte | metal/src/pmp.c:209-215 | clearing one byte of a packed word turns that region off and changes none of the other fifteen |
| PmpRegs.SetByte | metal/src/pmp.c:210-216 | setting a byte over a cleared one gives the region what the hart keeps of the configuration and changes no other |
| PmpRegs.LegalIff | metal/include/metal/pmp.h:43-61 | a configuration is kept as written exactly when the hart supports it: no padding, NA4 only at grain 0, W without R only if kept |
| PmpRegs.WrittenReadsIff | metal/src/pmp.c:19-28 | a written address reads back exactly when it is implemented and has the low bits its mode shows |
| PmpRegs.KeptReadsIff | metal/src/pmp.c:151-204 | an address not written because it already read as asked reads so in the new mode exactly when readable there and no hidden bit is uncovered |
| Pmp.SetRegionEffect | metal/src/pmp.c:109-259 | a successful call sets one region to what its registers keep; every other region, and every region after a failed call, is unchanged |
| Pmp.SetReadsBackIff | metal/src/pmp.c:109-259 | a successful call reads back exactly if and only if the hart supports the configuration, the address is readable in its mode, no hidden bit is uncovered, and the region exists and bounds no locked TOR region |
| Pmp.DetectedGranularityGuards | metal/src/pmp.c:127-138 | with the hart's own granularity the driver's checks cover NA4 and the low ones of NAPOT; what remains for the caller, exactly |
| Pmp.AllOnesDoesNotReadBack | metal/src/pmp.c:94-103 | the all-ones write of the detection succeeds and does not read back, for every grain above 0 |
| Pmp.HiddenBitIsUncovered | metal/src/pmp.c:151-204 | with grain 1, two successful calls after which address 8 was asked for and 9 is read |
| Pmp.ApplyKeepsLocked | metal/src/pmp.c:109-517 | no call changes the configuration or stored address of a locked region |
| Pmp.TakeKeepsLocked | metal/src/pmp.c:77-517 | neither a call nor the initialisation changes the configuration or stored address of a locked region |
| Pmp.LockedForever | metal/src/pmp.c:77-517 | over every run of defined calls and initialisations, a region once locked keeps its configuration and address, as stored and as read |
| Pmp.SetterChangesOneMember | metal/src/pmp.c:366-517 | a successful setter stores its one changed member as far as the hart supports it, exactly when it does, and no other register changes |
| Pmp.SetterMembers | metal/src/pmp.c:366-517 | after a successful call by name: the member it names holds the argument, W and A as far as the hart supports the result, and the other members hold what was read; a new address is stored only by the address setter |
| Pmp.Driver.GetRegion | metal/src/pmp.c:261-364 | the region's byte and address are read, and a region past the range check is refused |
| Pmp.Driver.SetRegion | metal/src/pmp.c:109-259 | return code and registers are those of the specified outcome, in every branch, for every argument |
| Pmp.Driver.RewriteByte | metal/src/pmp.c:206-233 | the csrc and csrs pair rewrites one byte of the packed word |
| Pmp.Driver.LockRegion | metal/src/pmp.c:366-385 | after success on an existing region the region is locked |
| Pmp.Driver.SetAddress | metal/src/pmp.c:387-401 | the region's own configuration is set again with the new address |
| Pmp.Driver.SetMode | metal/src/pmp.c:412-428 | the region's own configuration is set again with the new address mode, and only that member changes |
| Pmp.Driver.SetExecutable | metal/src/pmp.c:440-456 | the same for X, from the low bit of the argument |
| Pmp.Driver.SetWriteable | metal/src/pmp.c:467-482 | the same for W, from the low bit of the argument |
| Pmp.Driver.SetReadable | metal/src/pmp.c:493-508 | the same for R, from the low bit of the argument |
| Pmp.Driver.InitRegions | metal/src/pmp.c:90-92 | the loop is the specified sequence of calls; every unlocked region ends off and reads address zero, except an address bounding a locked TOR region; locked ones are skipped |
| Pmp.Driver.DetectGranularity | metal/src/pmp.c:94-106 | what the detection stores, and when it is defined, whatever region 0 is locked to or bounds |
| Pmp.Driver.Init | metal/src/pmp.c:77-107 | the call is the specified initialisation, the one in the runs above; with region 0 free the granularity becomes the hart's own and region 0 ends off at zero; locked, it stays as it was, and in NAPOT mode the call is undefined |
| Pmp.DetectionIff | metal/src/pmp.c:94-103 | the detected granularity is the hart's own exactly when the address read back has its lowest set bit at the grain |
| Spi.Controller.Transfer | metal/src/drivers/sifive_spi0.c:162-327 | for any peer: the new frames carry the buffer's bytes in order, or zeroes without a buffer, each in the mode its index calls for in plain numbers, up to and including the first unanswered one; the low bytes of the replies before it are stored and nothing else; return code, chip select and every configuration bit are stated |
| Spi.Controller.SendAndRelease | metal/src/drivers/sifive_spi0.c:182-326 | from a configured controller: all frames, the return code, and chip select back to automatic on both ways out |
| Spi.FramesSay | metal/src/drivers/sifive_spi0.c:185-314 | frame i is byte i of the buffer or zero, eight bits, to the asked chip, chip select held, multi-wire from the start, the address or the data on |
| Spi.DataStartIsLargest | metal/src/drivers/sifive_spi0.c:185-275 | the data phase starts at the largest of the three limits, two of which wrap at 32 bits |
| Spi.StoredSays | metal/src/drivers/sifive_spi0.c:208-210 | the first k bytes received are the low bytes of the replies, the others are as before |
| Spi.FormatSays | metal/src/drivers/sifive_spi0.c:60-123 | FMT bit by bit: order in bit 2, receiving on in bit 3, length 8 in bits 16 to 19, bits 4 to 15 and 20 on kept |
| Spi.ClockSays | metal/src/drivers/sifive_spi0.c:86-102 | SCKMODE bit by bit: phase in bit 0, polarity in bit 1, the rest kept |
| Spi.Controller.SendCommand | metal/src/drivers/sifive_spi0.c:185-214 | the command frames, then the switch to the mode of the address frames |
| Spi.Controller.SendAll | metal/src/drivers/sifive_spi0.c:185-314 | the four loops sharing one index and the two mode switches send every frame once |
| Spi.Controller.SendHeader | metal/src/drivers/sifive_spi0.c:185-270 | command, address and dummy frames, each in its mode |
| Spi.Controller.SendPhase | metal/src/drivers/sifive_spi0.c:217-243 | one loop continues the transfer from its index to its limit or stops at the first silence |
| Spi.Controller.SendFrame | metal/src/drivers/sifive_spi0.c:187-210 | one frame: the byte sent is the buffer's original byte even when both buffers are the same |
| Spi.Controller.ConfigureFormat | metal/src/drivers/sifive_spi0.c:55-123 | the FMT register becomes exactly the transfer's format, all other bits kept; an unknown protocol is refused |
| Spi.Controller.Configure | metal/src/drivers/sifive_spi0.c:55-138 | the whole register state after configuration, and after a refusal |
| Spi.Controller.Begin | metal/src/drivers/sifive_spi0.c:171-178 | the controller sends in the transfer's mode with chip select held |
| Spi.Controller.ModeSwitch | metal/src/drivers/sifive_spi0.c:140-160 | at the configured stage the protocol field changes and no other bit of FMT does |
| Spi.FormatSteps | metal/src/drivers/sifive_spi0.c:60-123 | the read-modify-writes of FMT compose to one format |
| Spi.FormatMode | metal/src/drivers/sifive_spi0.c:55-138 | a configured FMT sends eight-bit frames in the requested protocol and bit order |
| Spi.PhasesAddUpIff | metal/src/drivers/sifive_spi0.c:185-275 | the phases add up exactly when the 32-bit sum does not wrap, and stay within `len` exactly when the header does |
| Spi.PhasesWrap | metal/src/drivers/sifive_spi0.c:185-275 | a command and an address of 2^31 bytes each wrap to a limit of 0; a header of six bytes sends six frames for a length of 4 |
| Trace.PackIff | metal/src/drivers/sifive_trace.c:41 | for any 32-bit int, packing it packs its low byte if and only if the higher bits that reach the accumulator are zero |
| Trace.Port.Putc | metal/src/drivers/sifive_trace.c:37-69 | carried bytes followed by pending bytes are the characters given; the fourth character leaves in one 32-bit write, a newline or return flushes one to three in 8- and 16-bit writes at their offsets, and any other character writes nothing |
| Trace.Port.PutAll | metal/src/drivers/sifive_trace.c:37-69 | over any run nothing is lost or reordered, and a final newline or return leaves nothing pending |
| Trace.Port.Flush | metal/src/drivers/sifive_trace.c:50-65 | one to three characters leave in 16- and 8-bit writes in order |
| Bytes.SplitValue | metal/src/drivers/sifive_trace.c:51-62 | truncating and shifting a packed word give its first bytes and the rest |
| Bytes.PackAppends | metal/src/drivers/sifive_trace.c:41-43 | or-ing a shifted byte into the accumulator appends it |
| Dma.BuildDesc | tests/qemu/src/dma_aes_gcm.c:372-403 | the blocks start on a 32-byte boundary, and the three parts cover the buffer if and only if it reaches that boundary |
| Dma.Rebalance | tests/qemu/src/dma_aes_gcm.c:620-632 | the cipher parts still cover the destination, with the payload's block count |
| Dma.Engine.Push | tests/qemu/src/dma_aes_gcm.c:423-466 | the engine takes exactly the buffer's bytes in order; each memory access is the widest natural one that stays in the buffer, and the FIFO is written in the same widths, as loads and stores record them |
| Dma.Engine.Pop | tests/qemu/src/dma_aes_gcm.c:468-511 | memory gets exactly the engine's bytes in order; each memory access is the widest natural one that stays in the destination, and the FIFO is read in the same widths, as loads and stores record them |
| Dma.PickWidth | tests/qemu/src/dma_aes_gcm.c:427-464 | each access is the widest naturally aligned one that fits |
| Dma.Engine.Feed | tests/qemu/src/dma_aes_gcm.c:644-693 | prolog, blocks and epilog deliver the source in order, and exactly the blocks go by DMA |
| Dma.Engine.Drain | tests/qemu/src/dma_aes_gcm.c:735-806 | one DMA transfer of the blocks and the rest by FIFO put the output in the destination in order |
| Dma.Engine.Process | tests/qemu/src/dma_aes_gcm.c:612-806 | end to end for any source alignment: the engine takes the payload, and its output fills the destination and changes nothing else; the two DMA transfers start on 32-byte boundaries and move as many whole blocks as follow the first boundary of the source |
| Dma.ShortBufferOverruns | tests/qemu/src/dma_aes_gcm.c:377-388 | a one-byte buffer just past a boundary gets a block count of 0x0FFFFFFE |
| Bytes.LoadThenStore | tests/qemu/src/dma_aes_gcm.c:432-433 | a little-endian word loaded and stored carries its bytes unchanged |
| Cmdline.Loader.LoadCmdline | tests/hello/src/cmdenv.c:39-87 | for every input: argv[1..] are the first words of the text, at most fifteen, and argc counts them and the name; the buffer holds the text read, with a NUL in place of the space after each word |
| Cmdline.FirstWordsUnique | tests/hello/src/cmdenv.c:57-78 | the text determines its first words: maximal space-free runs in order |
| Cmdline.ScanEnds | tests/hello/src/cmdenv.c:58-78 | what the scan has found when the loop ends are exactly the first words |
| Cmdline.AllTerminatedIff | tests/hello/src/cmdenv.c:58-78 | for every text, all recorded words end inside the buffer if and only if not: the text fills it, ends in a letter, and at most fourteen words end before |
| Cmdline.FullBufferLosesNul | tests/hello/src/cmdenv.c:58-78 | 256 letters make one recorded word that ends where the buffer does |
| Cmdline.Loader.Accept | tests/hello/src/cmdenv.c:60-74 | one character carries the buffer, the vector and the open word from one index to the next |
| Rtc.Counter.SetCompare | metal/src/drivers/sifive_rtc0.c:49-73 | at most eight rounds for every 64-bit request, scale and compare fit their fields, the rest of the configuration is kept |
| Rtc.Counter.GetCompare | metal/src/drivers/sifive_rtc0.c:39-47 | the compare value shifted left by the scale field |
| Rtc.ReadBackIs | metal/src/drivers/sifive_rtc0.c:49-73 | the shift is k(k+1)/2 and what is read back is floor(c / 2^(k(k+1)/2)) * 2^k |
| Rtc.AccurateIff | metal/src/drivers/sifive_rtc0.c:49-73 | never above the request, and within one unit of the scale if and only if the request is below 2^33 |
| Rtc.EightRoundsSuffice | metal/src/drivers/sifive_rtc0.c:58-61 | after eight rounds every 64-bit value fits 32 bits |
| TimeOfDay.MuldivIff | gloss/src/sys_times.c:26-29 | the result is v * num / den modulo 2^64 if and only if the remainder's product does not wrap |
| TimeOfDay.MuldivExact | gloss/src/sys_times.c:7-29 | exact for every v whenever num * den fits in 64 bits, as the comment asks |
| TimeOfDay.SplitQuotient | gloss/src/sys_times.c:14-19 | the split into remainder and quotient terms, without wrapping |
| TimeOfDay.GetTimeOfDay | metal/src/time.c:9-23 | for every counter, timebase and width of `time_t`: microseconds below a million, and the exact elapsed time if and only if the remainder's product does not wrap and `time_t` holds the seconds; while it does, equal to `muldiv` modulo 2^64; nothing stored on failure |
| TimeOfDay.TimeIsExactIff | metal/src/time.c:20-21 | the stored time is exact for every counter value if and only if the largest remainder times a million does not wrap and `time_t` holds the largest quotient |
| TimeOfDay.TimeIsMonotoneIff | metal/src/time.c:20-21 | the stored seconds and microseconds never run backwards if and only if `time_t` holds the largest quotient, and that product does not wrap or the timebase exceeds 2^64 - 64 |
| TimeOfDay.TimeGoesBack | metal/src/time.c:20-21 | with a timebase of 2^45 two successive counter values give 524287 microseconds and then 0 |
| TimeOfDay.SecondsTurnNegative | metal/src/time.c:20 | with a 32-bit `time_t` and a timebase of 32768 Hz the time turns negative at counter value 2^46 |
| TimeOfDay.Times | gloss/src/sys_times.c:43-65 | user time is the elapsed microseconds modulo 2^64 on the same condition, and the other fields are zero |
| RegFields.SplitField | scripts/omtools/om/generator.py:159-173 | a field that fits is kept, an unaligned wide one is an error, any other becomes its pieces |
| RegFields.SplitTiles | scripts/omtools/om/generator.py:167-173 | the pieces tile the field's bits, each inside one word |
| RegFields.PieceIs | scripts/omtools/om/generator.py:167-173 | piece i in numbers: offset, size, access, and the i-th word of the reset value |
| RegFields.FusePieces | scripts/omtools/om/parser.py:254-280 | the accumulating loop computes the fused field or its error |
| RegFields.FuseIff | scripts/omtools/om/parser.py:254-280 | a contiguous run fuses exactly when its access modes agree, into one field over the whole run |
| RegFields.FusedResetBits | scripts/omtools/om/parser.py:264-271 | a bit of the fused reset value is one exactly when some piece resets that bit to one, and it has a value exactly when some piece has |
| RegFields.Fusible | scripts/omtools/om/parser.py:235-248 | the position-tracking loop computes whether a run may be fused |
| RegFields.FusibleIff | scripts/omtools/om/parser.py:235-248 | a run may be fused exactly when it starts on a register boundary and has no gap |
| RegFields.GatherRadices | scripts/omtools/om/parser.py:223-229 | every field lands in one candidate in order, and neighbouring candidates have different radices |
| RegFields.FuseGroup | scripts/omtools/om/parser.py:230-281 | the loop over candidates, with its early exit and its failure on earlier fields |
| RegFields.FuseGroupIff | scripts/omtools/om/parser.py:212-282 | a group comes out as intended if and only if only its first run is to be fused and a run that cannot be fused comes last |
| RegFields.GroupFailsIff | scripts/omtools/om/parser.py:230-281 | when a group fails, and how: incoherent access in a first run to be fused, else a later run to be fused that the loop reaches, else never |
| RegFields.StopCuts | scripts/omtools/om/parser.py:249-252 | whatever follows a run that cannot be fused makes no difference |
| RegFields.GroupRefused | scripts/omtools/om/parser.py:257-279 | an eight-bit field before two pieces of another: the group is refused, where one field of 16 bits was meant |
| RegFields.GroupCut | scripts/omtools/om/parser.py:251-254 | two fields that cannot be fused: the field after them is dropped |
| RegFields.RoundTrip | scripts/omtools/om/generator.py:139-175 | splitting and parsing back gives the field's offset, size and access, and the field itself exactly when its reset fits the least number of words that hold it; pieces stay apart when the parser's width does not divide the offset |
| RegFields.SplitAndParse | scripts/omtools/om/generator.py:159-173 | end to end through split, gathering and fusing: a wide aligned field comes back whole, or stays in its pieces off the parser's boundary; an unaligned one is an error |
| RegFields.ResetWithinSize | scripts/omtools/om/parser.py:254-280 | a reset value within the field's size always comes back |
| RegWords.ScatGat | scripts/omtools/om/parser.py:284-339 | no field lost or moved for any input; for sorted fields, left alone exactly when one crosses a word boundary, and otherwise one group for each word |
| RegWords.PlaceField | scripts/omtools/om/parser.py:300-317 | one field extends the partition, or is found to cross |
| RegWords.LayOut | scripts/omtools/om/generator.py:659-701 | the counting loop emits exactly when the fields come in order without overlap inside the register |
| RegWords.GenerateBits | scripts/omtools/om/generator.py:646-701 | errors, nothing, or a list that tiles the register and declares each field in its place: which of them, exactly |
| RegWords.PlacedInPlace | scripts/omtools/om/generator.py:664-690 | the fields so declared are the register's fields, each in its own width and at its own distance from the word's first bit |
| RegWords.PartitionedGroupsAreLaidOut | scripts/omtools/om/parser.py:284-339 | every group the partition makes of disjoint fields is one the generator lays out in full |
| RegStride.Factorize | scripts/omtools/om/devices/plic.py:155-188 | returns exactly for arithmetic progressions of equal registers, and what it returns expands back to all of them; otherwise the first misfit decides the error |
| RegStride.ProblemMeaning | scripts/omtools/om/devices/plic.py:166-180 | what each error says about the register at fault, in the order the code looks |
| RegStride.RegularIff | scripts/omtools/om/devices/plic.py:166-180 | some stride makes the registers copies of the first exactly when no register has a problem |
| RegStride.StrideIsUnique | scripts/omtools/om/devices/plic.py:173-176 | with two registers or more only one stride expands to the list |
| RegStride.FuseRegisters | scripts/omtools/om/devices/plic.py:128-153 | fuses exactly contiguous words of one access mode, into their total size |
| RegStride.FusedResetIff | scripts/omtools/om/devices/plic.py:134-152 | the fused reset value, or its absence, is the whole register's exactly when no later word adds anything |
| Bits.GetFieldReads | metal/include/metal/compiler.h:11-12 | on a contiguous mask the get macro reads the masked field |
| Bits.SetThenGet | metal/include/metal/compiler.h:15-16 | setting and getting a field gives the value cut to the mask's width |

## Left out

- Memory model: all steps are sequentially consistent, and MSIP bits are 0 at reset; fences, caches, trap entry and `mret` are not modelled.
- Hart to context tables of the boards: the context is a parameter, so `metal/src/drivers/riscv_plic0.c:195` and the trap handler's lookup are not tied to a hart number.
- PlicDriver.Controller.Init: does not model registration with the parent interrupt controllers, which forwards to another driver.
- PlicDriver.Controller.Handle: does not model what a handler does; the call is recorded.
- Negative interrupt ids, ids of 1024 or more and contexts of 15872 or more, which the driver does not check.
- Pll.Device.SetRateHz: input rates above a fifth of LONG_MAX, whose fivefold overflows in the window test, are not part of this model.
- Pll.Device.GetRateHz: does not model overflow for register contents that encode no table row; `Pll.RowWithinSlack` shows that table rows have none.
- Pll.Device.WaitForLock: the lock bit rises after some number of polls; the wait on `mtime` before them is not part of this model, and `long` is 32 bits.
- ClockCallbacks.Uart.Drain: does not model the busy waits for the watermark and for the last symbol.
- ClockCallbacks.Uart.SetBaudRate: does not model a UART without a clock, which keeps only the number.
- ClockCallbacks.Uart.Init: does not model a UART without a clock, nor the pin multiplexer.
- ClockCallbacks.Clock.SetRateHz: the rate a clock achieves is an input; callbacks are those of UARTs, whose function and argument never change after registration.
- I2C driver: it registers its callback again on every baud change, and `ClockCallbacks.Append` shows that a second registration makes a list that never ends.
- Pmp: 64-bit registers and null handles are not part of this model; a shift of 1 into the sign bit is taken as 2^31, and after an undefined shift nothing is promised.
- PmpRegs: what a write of NA4 leaves at grain 1 or more, and whether W without R is kept, are constants of the hart, which the architecture leaves open.
- Spi.Controller.Exchange: does not model the wait for room in TXDATA nor the clock; a reply either comes before the deadline or does not. Overlapping buffers that are neither equal nor disjoint are not modelled.
- Dma.Engine.Process: asks that the payload reach its first DMA boundary, because `Dma.BuildDesc` shows that a shorter one makes the blocks overrun.
- Dma: the engine's output is an arbitrary byte sequence; AES, the interrupt handlers and the time-outs are not modelled, and neither is a destination off a DMA boundary, which the code asserts away.
- Cmdline: the device is its sequence of characters; the register query that starts it is not part of this model.
- Trace.Port.Putc: takes characters 0 to 255; `Trace.PackIff` says what other ints do.
- Trace.Port.PutAll: takes characters 0 to 255.
- RegFields.FuseGroup: works on runs of fields sorted by offset; field names are reduced to their radix, so a later field whose full name equals a fused radix, which replaces the fused entry in the dictionary, is not seen.
- RegWords.ScatGat: one group at a time; two groups whose generated names collide share one dictionary in the code.
- Descriptions, name padding, the C type chosen for each bitfield, and `_factorize_fields`, which drops the stride and cannot be inverted.
- TimeOfDay.Times: does not model a `clock_t` narrower than 64 bits, nor timer reads that fail, whose results the code uses unset.
- TimeOfDay.GetTimeOfDay: seconds that a `time_t` does not hold are reduced as two's complement does, which C leaves to the compiler; a timebase of zero, by which the code divides, is not part of this model.
- Device lookup tables, board files, system-call stubs, watchdog, PWM, GPIO, CLIC bit slicing and cache drivers: forwarded calls or byte-sized facts.
