# Verification of the Pico SDK's algorithmic cores

A Dafny model of the parts of the Raspberry Pi Pico SDK in which there is an algorithm rather than
register access, with proofs of what those parts are for. `dafny verify dfyconfig.toml` checks all of it.

| file | what it models |
|---|---|
| `MachineWord`, `RealProduct`, `FloatFormat` | two's-complement words, products of reals, the double and float formats (one format value selects the 52 or the 23 bit variant) |
| `Remainder`, `RemainderFunctions` | the 12-bits-a-pass remainder kernel, and `fmod` and `remquo` on top of it |
| `Rounding` | `trunc`, `round`, `floor` and `ceil` on bit patterns |
| `Lockout` | the two-core lockout handshake as a transition system |
| `PairingHeap` | the pairing heap and its free list in one array of linked nodes |
| `AlarmPoolSteps`, `AlarmPool` | the alarm pool as a transition system, and its code over the heap, each method a step of that system |
| `IrqChains`, `IrqExecution` | shared interrupt handlers as linked slots that hold code, and what a processor does that executes the code |
| `ElfPages`, `Elf2Uf2` | the conversion of ELF files to UF2 blocks |
| `SymbolValues`, `PioSymbols`, `PioCodec`, `PioLoader` | the PIO assembler's expressions and symbols, encoding and disassembly, and loading programs into instruction memory |
| `FlashBank` | storage of any range of bytes in flash that is programmed page by page |
| `AsyncContext` | the worker lists of an asynchronous context |
| `PrintfNumbers`, `PrintfReading`, `Printf`, `PrintfConversions` | how printf lays out numbers, what can be read back from them, the output engine, and what each conversion shows |
| `Options` | the option type |

## How to read it

Code that changes things in place is a class or a method over an array; what it does is given by
functions and predicates, and the results are lemmas about those. Protocols are transition systems in
which every interleaving, timeout and answer of the hardware is an input of a step; their results hold
of every state of every run.

Places where the code does something other than its documentation or its callers expect are kept as
they are, with the exact condition where there is one:

* `alarm_pool_add_alarm_at` does not reset `missed` between rounds (time.c:228-269). The lock is free while
  a callback runs, so every round may find another pool. Whatever the pools are, a call runs a callback while
  its alarm is queued exactly if it is to fire late alarms, in all rounds before some later one there is a
  free id, the alarm becomes the head and is missed, and the callback repeats, and in that round there is a
  free id and the alarm does not become the head; a callback is done before its time only in such a call:
  `AlarmPoolSteps.CallFiresQueuedIff`, `AlarmPoolSteps.RunsEarlyIff`, `AlarmPoolSteps.StaleMissedFiresEarly`.
* `ph_clear` does not reset `parent` (pheap.c:27-35): a heap is well formed after clearing exactly if it
  held at most one node: `PairingHeap.ClearedIffAtMostOne`, `PairingHeap.ClearCanLeaveContainedId`.
* `check_address_range` adds in 32 bits (main.cpp:130): a range that is found holds the segment exactly
  if its end does not wrap: `ElfPages.FoundRangeHoldsIffNoWrap`, `ElfPages.WrappingSegmentIsAccepted`.
* `check_elf32_ph_entries` does not return the error for overlapping segments (main.cpp:186-190); the
  conversion is proved for all segments, the last one to cover an address wins.
* The disassembler lists a `wait` for a source that does not exist, and an `irq` that both clears and waits,
  which no instruction encodes (pio_disassembler.cpp:16-158); it calls every other such word reserved:
  `PioCodec.ReservedIff`.
* A side set of no bits that is not optional has to be given for every instruction and is never listed
  by the disassembler (pio_disassembler.cpp:161): `PioCodec.DisassembleEncode`.
* `_ntoa_format` keeps at most 32 characters, and makes room for the prefix of `#` by taking characters
  away (printf.c:228-275). Without `#` a number keeps its digits exactly if it has at most 32. With `#` it
  loses digits exactly if it has more than 32, or it has no precision and they fill the width, or in base
  16 zeros fill the width with one zero only: `%#4x` prints 0xABCD as `0xcd`, and `%#p` an eight-digit
  pointer without its top digits. The prefix is whole exactly if it fits the buffer in front of digits and
  zeros, where a number that fills its width without a precision first gives up one place, or two in base
  16: `%#b` shows no prefix for a word whose top bit is set. A negative number without `#` and of fewer than
  32 digits shows its sign exactly if it is set to the left, or its precision is below 32 and zeros fill no
  width above 32. A field is as wide as asked for exactly if zeros are not to fill more than 32 places:
  `%040d` gives 32 characters.
  `PrintfReading.PlainDigitsIff`, `PrintfReading.PrefixTakesDigitsIff`, `PrintfReading.PrefixShownIff`,
  `PrintfReading.NegativeShowsSignIff`, `PrintfReading.FieldIsWideIff`, `Printf.PrefixCanTakeDigits`,
  `Printf.PrefixCanBeLost`, `PrintfReading.SignCanBeLost`.

## Model

| member | source | states |
|---|---|---|
| Remainder.ReciprocalError | src/rp2_common/pico_double/double_math.c:543-544 | the 16 bit reciprocal of the divisor is off by at most one unit, so its product with the divisor misses the scaled one by at most the divisor |
| Remainder.ProductFits | src/rp2_common/pico_double/double_math.c:548 | the product of the top bits of the remainder and the reciprocal fits a signed 32 bit word |
| Remainder.EstimateError | src/rp2_common/pico_double/double_math.c:544-549 | bound on the error of the quotient estimate in units of the divisor |
| Remainder.PassIsExact | src/rp2_common/pico_double/double_math.c:546-553 | for every signed remainder below the divisor's binade, a pass of 1 to 12 bits computes the exact new remainder although shift and product wrap, and its magnitude stays below the divisor |
| Remainder.RemainderKernel | src/rp2_common/pico_double/double_math.c:541-560 | for every mantissa of either sign and every exponent difference, the result is (mx * 2^e) mod my in [0, my) and the quotient is the floor of mx * 2^e / my wrapped to 32 bits; also the float kernel, float_math.c:497-516 |
| RemainderFunctions.Fmod | src/rp2_common/pico_double/double_math.c:562-579 | infinite exactly for an infinite x or a zero y; for normal numbers x - n*y with n the quotient rounded towards zero, of x's sign and smaller than y (section 7.12.10.1 of ISO C11), with no more digits than the format's mantissa; also fmodf, float_math.c:518-537 |
| RemainderFunctions.Remquo | src/rp2_common/pico_double/double_math.c:581-618 | for normal numbers of either sign x - n*y with n the integer nearest x/y, ties to even, so twice the result is at most y, and quo is n wrapped to 32 bits (section 7.12.10.3 of ISO C11), the result with no more digits than the format's mantissa; also remquof, float_math.c:539-576 |
| RemainderFunctions.RoundQuotient | src/rp2_common/pico_double/double_math.c:608-613 | the comparison with half the divisor and the parity of the wrapped quotient decide the nearest even quotient |
| RemainderFunctions.RemquoSmall | src/rp2_common/pico_double/double_math.c:593-595 | below half of y, x itself is the remainder and 0 the quotient |
| RemainderFunctions.RemquoJustBelow | src/rp2_common/pico_double/double_math.c:594-606 | one exponent below y and above half of it, the quotient is 1 or -1 by the signs |
| Rounding.CarryIntoExponent | src/rp2_common/pico_double/double_math.c:193-214 | a pattern whose rounded mantissa carries out has the value the sum stands for |
| Rounding.AddAndClearValue | src/rp2_common/pico_double/double_math.c:177-256 | adding to the mantissa of any normal pattern and clearing the bits below one gives the pattern of the quotient, with or without a carry |
| Rounding.TruncIsInteger | src/rp2_common/pico_double/double_math.c:177-191 | for every finite pattern the result is the pattern of the value rounded towards zero; also truncf, float_math.c:174-188 |
| Rounding.RoundIsNearest | src/rp2_common/pico_double/double_math.c:193-214 | for every finite pattern the result is the pattern of the nearest integer, halfway cases away from zero; also roundf, float_math.c:190-211 |
| Rounding.FloorIsFloor | src/rp2_common/pico_double/double_math.c:216-235 | for every finite pattern the result is the pattern of the greatest integer not above the value; also floorf, float_math.c:213-232 |
| Rounding.CeilIsCeiling | src/rp2_common/pico_double/double_math.c:237-256 | for every finite pattern the result is the pattern of the least integer not below the value; also ceilf, float_math.c:234-253 |
| Rounding.EncodesOnlyOne | src/rp2_common/pico_double/double_math.c:177-256 | the four results above are determined by sign and value alone: no other pattern stands for them, and for zero it is the sign bit and nothing else, although any denormal reads as zero |
| Rounding.NonFiniteUnchanged | src/rp2_common/pico_double/double_math.c:177-256 | infinities and NaNs come back as they are |
| Rounding.KnownPatterns | src/rp2_common/pico_double/double_math.c:73-81 | 1.5 and -2.5 in both formats |
| Lockout.StepKeepsInv | src/rp2_common/pico_multicore/multicore.c:175-265 | every step of either core, and every timeout, keeps the protocol's invariant |
| Lockout.StartLocksVictim | src/rp2_common/pico_multicore/multicore.c:206-243 | in every run, after a start that returned true and until an END word is pushed, the victim spins with interrupts off |
| Lockout.EndReleasesVictim | src/rp2_common/pico_multicore/multicore.c:253-265 | in every run, after an end that returned true and until a START word is pushed, the victim is out of the loop with interrupts on |
| Lockout.ResponsesMatch | src/rp2_common/pico_multicore/multicore.c:175-231 | at most one response is ever outstanding, the victim never waits to push one, and a response that is popped is the one awaited |
| Lockout.CallEnds | src/rp2_common/pico_multicore/multicore.c:206-265 | a call succeeds only when the awaited word is popped and fails only when the time is up at a look at the clock or while it waits for a response; the lockout is in progress from a start to an end that succeeded |
| Lockout.HandshakeCanComplete | src/rp2_common/pico_multicore/multicore.c:206-231 | from every reachable state in which a handshake begins, or its word is on its way, there is a run without timeouts in which it succeeds |
| PairingHeap.RootIsMinimal | src/common/pico_util/include/pico/util/pheap.h:179-181 | the root has the least key of the heap |
| PairingHeap.MergeNodes | src/common/pico_util/include/pico/util/pheap.h:109-135 | two heap-ordered trees become one with the nodes of both, the lesser root on top and the second one on a tie |
| PairingHeap.MergeTwoPass | src/common/pico_util/pheap.c:42-53 | a list of sibling trees of any length becomes one heap-ordered tree of the same nodes, and no other node changes |
| PairingHeap.UnlinkSplits | src/common/pico_util/pheap.c:92-108 | taking a node out splits the tree into the rest, the node and its children |
| PairingHeap.UnlinkLinks | src/common/pico_util/pheap.c:92-108 | after its one reference has been redirected, the links are those of the tree without the node |
| PairingHeap.ReferrerIsUnique | src/common/pico_util/pheap.c:92-102 | exactly one link of the tree leads to a node |
| PairingHeap.ContainedIffParent | src/common/pico_util/include/pico/util/pheap.h:234-236 | a node is in the heap exactly if it is the root or has a parent |
| PairingHeap.ClearedIffAtMostOne | src/common/pico_util/pheap.c:27-35 | clearing a well-formed heap leaves a well-formed empty one exactly if it held at most one node |
| PairingHeap.ClearCanLeaveContainedId | src/common/pico_util/pheap.c:27-35 | a heap whose clearing leaves a free node that still counts as contained |
| PairingHeap.Heap.constructor | src/common/pico_util/pheap.c:11-25 | an empty heap with every id on the free list in order |
| PairingHeap.Heap.Clear | src/common/pico_util/pheap.c:27-35 | the links and list ends afterwards, and that a valid heap stays valid exactly if it held at most one node |
| PairingHeap.Heap.ContainsNode | src/common/pico_util/include/pico/util/pheap.h:234-236 | true exactly for the ids in the heap |
| PairingHeap.Heap.NewNode | src/common/pico_util/include/pico/util/pheap.h:143-151 | takes the head of the free list, or 0 if there is none, and the node is then in neither heap nor free list |
| PairingHeap.Heap.FreeNode | src/common/pico_util/include/pico/util/pheap.h:245-255 | appends the node to the free list and keeps the heap |
| PairingHeap.Heap.InsertNode | src/common/pico_util/include/pico/util/pheap.h:164-170 | the heap gains exactly the node, and returns the new head |
| PairingHeap.Heap.RemoveAnyHead | src/common/pico_util/pheap.c:55-74 | the children of any root become one heap-ordered tree without it, and the root is freed if asked |
| PairingHeap.Heap.RemoveHead | src/common/pico_util/pheap.c:76-80 | removes exactly the head, keeps the heap a heap-ordered tree, and frees the head if asked |
| PairingHeap.Heap.RemoveAndFreeNode | src/common/pico_util/pheap.c:82-116 | true exactly if the node was in the heap; removes exactly that node, keeps every other one in a heap-ordered tree, and appends the node to the free list |
| AlarmPoolSteps.StepKeepsInv | src/common/pico_time/time.c:99-315 | every critical section and hardware event keeps the pool's invariant, in any interleaving |
| AlarmPoolSteps.NoAlarmIsLost | src/common/pico_time/time.c:99-315 | in every run, with the handler not running and no call between its unlock and its force, a queued alarm means that the interrupt is pending or the hardware is armed no later than every queued target |
| AlarmPoolSteps.IdsArePartitioned | src/common/pico_time/time.c:99-177 | in every run every id is in exactly one of the heap, the free list and the handler's hands |
| AlarmPoolSteps.CallbacksAreDue | src/common/pico_time/time.c:124-153 | a callback the handler starts belongs to a queued alarm of minimal target, and its target has come |
| AlarmPoolSteps.AddOutcome | src/common/pico_time/time.c:99-122 | for every pool, what becomes of the id at the head of the free list, of the free list, the heap and the armed time, by whether the time is no later than all others and is missed |
| AlarmPoolSteps.CancelOutcome | src/common/pico_time/time.c:293-315 | takes exactly the named alarm out of the heap and appends its id to the free list if the public id is current; otherwise only marks the alarm whose callback runs |
| AlarmPoolSteps.DispatchOutcome | src/common/pico_time/time.c:128-154 | runs the head if its time has come by the clock that was read, and otherwise arms the hardware or looks again |
| AlarmPoolSteps.CallbackOutcome | src/common/pico_time/time.c:155-175 | a repeat is queued for so much after its old target or after now, at most the end of time; otherwise the id is freed with the next reuse count |
| AlarmPoolSteps.CancelUndoesAdd | src/common/pico_time/time.c:226-315 | cancelling the alarm just added, by the id that was returned, leaves the alarms queued before |
| AlarmPoolSteps.CancelledDoesNotFire | src/common/pico_time/time.c:99-315 | in every run, after a successful cancel the id is free and is not dispatched until an alarm that is added takes it |
| AlarmPoolSteps.QueuedUntilDispatched | src/common/pico_time/time.c:99-315 | in every run, an alarm stays queued for its time until it is dispatched or cancelled |
| AlarmPoolSteps.RepeatsUnlessCancelled | src/common/pico_time/time.c:124-177 | in every run, an alarm whose callback runs is queued again for its next time exactly if the callback repeats and the alarm has not been cancelled since it was dispatched; otherwise its id is free |
| AlarmPoolSteps.CallReturns | src/common/pico_time/time.c:226-271 | 0 if a callback did not repeat or late alarms are not to be fired, -1 without a free id, and otherwise the public id of the alarm that is then queued |
| AlarmPoolSteps.RoundsAreFired | src/common/pico_time/time.c:226-271 | the targets an undisturbed call reports are those of the rounds in which it runs the callback |
| AlarmPoolSteps.RoundRunsIff | src/common/pico_time/time.c:226-271 | whatever each round finds in the pool, a round runs the callback exactly if late alarms are to be fired, the first alarm becomes the head, up to this round there were free ids and no alarm that became the head was on time, and all callbacks before repeated; its alarm is queued exactly if it has not become the head |
| AlarmPoolSteps.CallFiresQueuedIff | src/common/pico_time/time.c:226-271 | whatever each round finds in the pool, a call runs a callback while its alarm is queued exactly if late alarms are to be fired and some round after the first does not become the head, has a free id, and follows only rounds with a free id that became the head, were missed and repeated |
| AlarmPoolSteps.UndisturbedIff | src/common/pico_time/time.c:226-271 | for a call that nobody disturbs, exactly if such a repeat is behind an alarm that was queued before the call |
| AlarmPoolSteps.RunsEarlyIff | src/common/pico_time/time.c:226-271 | if the hardware only reports misses of times that have passed, any round is done before its time exactly if it runs the callback, its alarm does not become the head, and the time has not come; then a callback of a queued alarm has run after rounds that were all missed |
| AlarmPoolSteps.StaleMissedFiresEarly | src/common/pico_time/time.c:226-271 | a pool and answers for which a callback is run before its time and stays queued |
| AlarmPool.HeadDecides | src/common/pico_time/time.c:109-112 | the root of the heap is a queued alarm of minimal target, and an alarm becomes the head exactly if the root's target is not before it |
| AlarmPool.Pool.AddAlarmUnderLock | src/common/pico_time/time.c:99-122 | is the adding step of the transition system, for a fresh id and for a reused one |
| AlarmPool.Pool.AlarmCallbackTop | src/common/pico_time/time.c:128-154 | is the dispatching step: takes the head if its time has come, and otherwise arms the hardware for it |
| AlarmPool.Pool.AlarmCallbackBottom | src/common/pico_time/time.c:155-175 | is the resuming step: queues the alarm again for a repeat that was not cancelled, and otherwise frees its id |
| AlarmPool.Pool.CancelAlarm | src/common/pico_time/time.c:293-315 | returns true exactly for a queued alarm with a current id, and then takes exactly that alarm out of the heap and frees its id; a cancel during its own callback clears alarm_in_progress |
| AlarmPool.Pool.AddAlarmAt | src/common/pico_time/time.c:226-271 | the loop over rounds gives the pool, the result and the callbacks of the specified sequence of rounds |
| AlarmPool.Pool.ForceIrq | src/common/pico_time/time.c:273-291 | is the step that makes the interrupt pending |
| IrqChains.BranchRoundTrip | src/rp2_common/hardware_irq/irq.c:159-181 | make_branch and resolve_branch undo each other, on all targets in range and all branch instructions |
| IrqChains.SlotDiffIsIndex | src/rp2_common/hardware_irq/irq.c:184-199 | the multiplication divides the distance of slots by their size exactly |
| IrqChains.SlotsInBranchRange | src/rp2_common/hardware_irq/irq.c:206-278 | every branch between slots, and to the code behind them, is in range |
| IrqChains.InsertedByPriority | src/rp2_common/hardware_irq/irq.c:234-242 | a new handler goes before all of no greater priority and behind the others |
| IrqChains.RemovedFirst | src/rp2_common/hardware_irq/irq.c:311-318 | exactly the first slot with the handler goes, or none |
| IrqChains.InsertedIsChain | src/rp2_common/hardware_irq/irq.c:220-275 | the links and code written for a new slot make a chain whose handlers are the old ones with the new one in its place |
| IrqChains.MovedDownIsChain | src/rp2_common/hardware_irq/irq.c:320-336 | copying the next slot down makes a chain without the removed handler |
| IrqChains.TailCutIsChain | src/rp2_common/hardware_irq/irq.c:337-351 | cutting the last slot off makes a chain without it |
| IrqChains.TableAfterAdd | src/rp2_common/hardware_irq/irq.c:206-278 | adding keeps links and code agreeing, priorities non-increasing, and every slot in exactly one chain or the free list |
| IrqChains.TableAfterRemove | src/rp2_common/hardware_irq/irq.c:280-375 | removing keeps the same, and leaves the handlers of the other interrupts alone |
| IrqChains.IrqTable.AddSharedHandler | src/rp2_common/hardware_irq/irq.c:206-278 | succeeds exactly if a slot is free and the vector is unset or shared; inserts the handler before the first of no higher priority, and touches no other interrupt |
| IrqChains.IrqTable.RemoveHandler | src/rp2_common/hardware_irq/irq.c:280-375 | removes the first slot of the handler, if any, resets the vector exactly if none is left, and touches no other interrupt |
| IrqExecution.SlotInstructions | src/rp2_common/hardware_irq/irq.c:214-262 | the instructions the slots hold are, by their Thumb encodings, the ones their names say |
| IrqExecution.BranchDecodes | src/rp2_common/hardware_irq/irq.c:159-181 | the processor takes a branch to where resolve_branch says |
| IrqExecution.RestOfChainRuns | src/rp2_common/hardware_irq/irq_handler_chain.S:33-63 | from any slot's third instruction the processor calls the handlers of the following slots in order and returns |
| IrqExecution.InterruptRunsChain | src/rp2_common/hardware_irq/irq_handler_chain.S:33-63 | executing from the vector, whatever each handler leaves in r0 and r1, calls exactly the handlers reached by the links, in the order of their non-increasing priorities, and returns with the stack as it was |
| ElfPages.FoundRangeHoldsIffNoWrap | tools/elf2uf2/main.cpp:128-143 | the range found holds the whole segment exactly if its end does not wrap |
| ElfPages.WrappingSegmentIsAccepted | tools/elf2uf2/main.cpp:128-143 | a segment past the end of the address space that is accepted as flash |
| ElfPages.RangeFoundIff | tools/elf2uf2/main.cpp:128-143 | a segment is accepted exactly if some range holds it and the first that does is not for memory without contents, unless none is asked for |
| ElfPages.EntryAcceptedIff | tools/elf2uf2/main.cpp:161-207 | an entry is refused exactly if it is loaded and its contents are not in memory that may have contents, or its other memory, unless its contents are ignored, is in no range |
| ElfPages.ImageByte | tools/elf2uf2/main.cpp:161-207 | a byte of the image is the byte of the file where the last entry to load that address says, so overlapping segments are resolved by their order |
| ElfPages.ImageZero | tools/elf2uf2/main.cpp:371 | memory that no entry loads is zero in the image |
| ElfPages.ImageIsEachSegment | tools/elf2uf2/main.cpp:166-197 | in the image of segments that do not overlap, every segment is whole |
| ElfPages.ImageIsZeroElsewhere | tools/elf2uf2/main.cpp:371 | memory that no segment covers is zero in the image |
| ElfPages.PieceMatches | tools/elf2uf2/main.cpp:179-197 | one fragment extends what the pages hold by exactly the next piece of the segment |
| ElfPages.MapSegment | tools/elf2uf2/main.cpp:175-198 | the fragments of a segment put exactly its bytes in exactly the pages it touches |
| ElfPages.CheckEntries | tools/elf2uf2/main.cpp:161-207 | accepts exactly if every loaded entry suits the ranges, and the pages then are those the loaded segments touch and hold their bytes |
| ElfPages.RealizePage | tools/elf2uf2/main.cpp:209-221 | succeeds exactly if every fragment is in the file, and the buffer then holds the fragments, later ones over earlier ones, over what it held |
| Elf2Uf2.RamStyleDecides | tools/elf2uf2/main.cpp:248-269 | the kind of binary comes from an entry that maps the entry point into memory with contents |
| Elf2Uf2.RamStyleIff | tools/elf2uf2/main.cpp:248-269 | the first entry whose contents hold the entry point at an address of RAM or flash says which kind it is, and there is an error exactly if there is none; in addresses of the device |
| Elf2Uf2.FlashEntrySuitsIff | tools/elf2uf2/main.cpp:79-84 | a flash binary may have contents in flash only, and other memory in flash and RAM |
| Elf2Uf2.RamEntrySuitsIff | tools/elf2uf2/main.cpp:85-89 | a RAM binary may have contents in main RAM and the cache as SRAM, and what is in ROM is ignored |
| Elf2Uf2.AcceptedIsLoadedIff | tools/elf2uf2/main.cpp:161-207 | of an accepted binary everything that is in the file is loaded, but for what a RAM binary has in ROM |
| Elf2Uf2.EntryPointIsLoaded | tools/elf2uf2/main.cpp:248-295 | once the kind is determined and the entries accepted, the physical entry point lies in a page that will be written: the error for no pages cannot occur |
| Elf2Uf2.LoadsAreInside | tools/elf2uf2/main.cpp:161-207 | every loaded segment lies whole in a range with contents |
| Elf2Uf2.CheckRamEntry | tools/elf2uf2/main.cpp:300-315 | accepts exactly an entry point, in Thumb state, at the beginning of the lowest page of main RAM |
| Elf2Uf2.PadSectors | tools/elf2uf2/main.cpp:339-354 | adds exactly the pages of touched sectors below the last page, empty |
| Elf2Uf2.WriteBlocks | tools/elf2uf2/main.cpp:356-377 | one block per page in ascending order, numbered from 0, with the page's bytes and zeros, exactly if every page can be read |
| Elf2Uf2.Convert | tools/elf2uf2/main.cpp:271-379 | succeeds exactly on the files whose entry point, ranges and contents allow it, and the blocks then describe the memory image: aligned, increasing, numbered, with every touched page, every padding page of flash, and no other |
| SymbolValues.ReversedBit | tools/pioasm/pio_assembler.cpp:83-94 | bit i of the reversed word is bit 31 - i |
| SymbolValues.ReverseTwice | tools/pioasm/pio_assembler.cpp:83-94 | reversing twice gives every int back |
| SymbolValues.ArithmeticLaws | tools/pioasm/pio_assembler.cpp:99-121 | sum, difference and product are the ints congruent to the exact ones modulo 2^32 |
| SymbolValues.DivisionLaws | tools/pioasm/pio_assembler.cpp:110-111 | the quotient leaves a rest smaller than the divisor and of the sign of the dividend; division traps exactly for a zero divisor and for the least int by -1 |
| SymbolValues.BitwiseLaws | tools/pioasm/pio_assembler.cpp:112-117 | and, or and xor work bit by bit |
| SymbolValues.UnaryLaws | tools/pioasm/pio_assembler.cpp:78-97 | negation modulo 2^32, and the reversed bits |
| PioSymbols.SucceedsIffNoBadName | tools/pioasm/pio_assembler.cpp:174-196 | unless a division traps, a value comes out exactly if no undefined and no circular name is reached, and an error exactly if one is |
| PioSymbols.ResolutionIsTheSolution | tools/pioasm/pio_assembler.cpp:78-121 | without such names the definitions, taken as equations, have a solution, all solutions give the expression the same value, and resolution computes it |
| PioSymbols.ExpressionLaws | tools/pioasm/pio_assembler.cpp:78-121 | what every kind of expression stands for in terms of its operands |
| PioSymbols.ErrorNamesCulprit | tools/pioasm/pio_assembler.cpp:174-196 | the name in an error is reached and is undefined, or is defined and reaches itself |
| PioSymbols.ReverseBits | tools/pioasm/pio_assembler.cpp:83-94 | the shifting loop computes the reversed word |
| PioSymbols.PioAssembler.GetSymbol | tools/pioasm/pio_assembler.h:78-89 | finds a symbol exactly if one is visible, the global one first |
| PioSymbols.PioAssembler.AddSymbol | tools/pioasm/pio_assembler.cpp:56-72 | refuses exactly a name that is visible, and otherwise makes it visible |
| PioSymbols.PioAssembler.Resolve | tools/pioasm/pio_assembler.cpp:78-121 | terminates on every table, gives the specified outcome, and leaves every resolve_started counter as it was on success and on error |
| PioSymbols.PioAssembler.ResolveName | tools/pioasm/pio_assembler.cpp:174-196 | the same for a name, whose counter is raised and lowered |
| PioCodec.DisassembleEncode | tools/pioasm/pio_disassembler.cpp:16-170 | disassembling any accepted instruction with its program's side set settings shows its mnemonic, operands, delay and side set value, and never "reserved" |
| PioCodec.WordTellsInstruction | tools/pioasm/pio_assembler.cpp:198-308 | two accepted instructions of a program with the same word are the same, or two forms of nop with the same delay and side set |
| PioCodec.AssembleDisassemble | tools/pioasm/pio_assembler.cpp:198-232 | the round trip from instructions with expressions: the listing shows their values |
| PioCodec.EncodedJump | tools/pioasm/pio_assembler.cpp:246-256 | the word of an accepted jump targets the program, and no other instruction encodes as a jump |
| PioCodec.SplitDelaySide | tools/pioasm/pio_assembler.cpp:200-231 | delay and side set share five bits without overlapping, under the limits of program::finalize |
| PioCodec.EncodedWord | tools/pioasm/pio_assembler.cpp:198-308 | every field of the word of an accepted instruction, as the hardware reads it (section 3.4 of the RP2040 datasheet) |
| PioCodec.InstructionAcceptedIff | tools/pioasm/pio_assembler.cpp:198-308 | an instruction is accepted exactly if its operands, delay and side set value are in range |
| PioCodec.SideSetAcceptedIff | tools/pioasm/pio_assembler.cpp:152-172 | a side set is accepted exactly if it has up to five bits with its presence bit |
| PioCodec.EvaluatedIff | tools/pioasm/pio_assembler.cpp:198-308 | an instruction has a meaning exactly if all its expressions have values, and is made of those |
| PioCodec.ReservedIff | tools/pioasm/pio_disassembler.cpp:16-158 | for all words: the disassembler says reserved exactly if no instruction has the fields, but for a wait without a source and an irq that both clears and waits |
| PioLoader.RelocatedJump | src/rp2_common/hardware_pio/pio.c:108-111 | adding the offset to a jump never carries out of the target, and leaves condition, delay and side set alone |
| PioLoader.LoadedRunsAlike | src/rp2_common/hardware_pio/pio.c:104-114 | for every sequence of branch outcomes the loaded program does at every step what the program does alone, at the pc plus the offset, while it does not run off its end |
| PioLoader.WrapKeepsInside | tools/pioasm/pio_assembler.cpp:360-361 | with the default wrap a program never runs off its end |
| PioLoader.AssembledJumpsInside | tools/pioasm/pio_assembler.cpp:246-256 | what the assembler produces has only jumps into itself |
| PioLoader.AssembledNext | src/rp2_common/hardware_pio/pio.c:104-114 | from every instruction the assembled program goes where the instruction says: a jump by its condition, the rest to the next one or around |
| PioLoader.LoadedNext | src/rp2_common/hardware_pio/pio.c:104-114 | the same in memory, from wherever the program is loaded |
| PioLoader.FreeIff | src/rp2_common/hardware_pio/pio.c:63-79 | a place is free exactly if none of its words is used |
| PioLoader.Pio.FindOffset | src/rp2_common/hardware_pio/pio.c:63-79 | the origin if there is room there; without an origin the highest room, and -1 only if there is none |
| PioLoader.Pio.AddAtOffset | src/rp2_common/hardware_pio/pio.c:104-114 | fails exactly if the place is taken or not the origin; otherwise the program is in memory relocated, the mask gains its words, and every other word is as it was |
| PioLoader.Pio.Add | src/rp2_common/hardware_pio/pio.c:117-126 | loads at the offset found, or changes nothing |
| PioLoader.Pio.Remove | src/rp2_common/hardware_pio/pio.c:134-141 | for any range of used words the mask loses exactly those; programs without a word in the range stay intact, and when the range is a program, exactly that one goes and the mask stays exact |
| PioLoader.Pio.ClearInstructionMemory | src/rp2_common/hardware_pio/pio.c:143-150 | nothing is loaded, and every word jumps to itself |
| PioLoader.Pio.LoadedProgramRuns | src/rp2_common/hardware_pio/pio.c:63-150 | after any history of adds and removes a program that is loaded still behaves as it does alone while it does not run off its end, which with the default wrap it never does |
| FlashBank.ErasedReadsBack | src/rp2_common/pico_btstack/btstack_flash_bank.c:44-125 | data written to an erased range is read back |
| FlashBank.ReadsBackIff | src/rp2_common/pico_btstack/btstack_flash_bank.c:44-125 | data is read back exactly if flash had a one wherever the data has one |
| FlashBank.ProgramTwice | src/rp2_common/pico_btstack/btstack_flash_bank.c:61-125 | writing the same data again changes nothing |
| FlashBank.WritesCommute | src/rp2_common/pico_btstack/btstack_flash_bank.c:61-125 | writes to ranges that do not overlap can be made in either order |
| FlashBank.FlashBanks.PlaceOfAccess | src/rp2_common/pico_btstack/btstack_flash_bank.c:44-80 | which accesses are accepted, and that the second bank lies right behind the first |
| FlashBank.FlashBanks.BanksApart | src/rp2_common/pico_btstack/btstack_flash_bank.c:61-125 | what is written to one bank touches nothing outside it |
| FlashBank.FlashBanks.Erase | src/rp2_common/pico_btstack/btstack_flash_bank.c:36-42 | sets every byte of the bank and no other |
| FlashBank.FlashBanks.Read | src/rp2_common/pico_btstack/btstack_flash_bank.c:44-59 | copies the range, or nothing if it does not fit the bank |
| FlashBank.FlashBanks.WritePages | src/rp2_common/pico_btstack/btstack_flash_bank.c:80-125 | page by page, all of them fully defined, exactly the range is programmed |
| FlashBank.FlashBanks.Write | src/rp2_common/pico_btstack/btstack_flash_bank.c:61-125 | programs exactly the range, every other byte of flash is as it was; nothing happens if the range does not fit the bank |
| AsyncContext.Context.AddAtTimeWorker | src/rp2_common/pico_async_context/async_context_base.c:9-20 | appends the worker exactly if it is not in the list |
| AsyncContext.Context.RemoveAtTimeWorker | src/rp2_common/pico_async_context/async_context_base.c:22-32 | takes the worker out exactly if it is in the list |
| AsyncContext.Context.RemoveReadyAtTimeWorker | src/rp2_common/pico_async_context/async_context_base.c:59-79 | takes out the last worker of the least time if that time has come, and otherwise changes nothing |
| AsyncContext.Context.RefreshNextTimeout | src/rp2_common/pico_async_context/async_context_base.c:81-91 | the next timeout is the least time of any worker, or the end of time |
| AsyncContext.Context.ExecuteOnce | src/rp2_common/pico_async_context/async_context_base.c:93-106 | exactly the workers whose time has come at the last reading of the clock run, once each, in the order of their times; exactly the workers that had work run, once each, in the order of their list, and have none afterwards |
| PrintfReading.DigitsMean | src/rp2_common/pico_printf/printf.c:289-296 | the digit loop gives the digits of the value, cut to the room of the buffer |
| PrintfReading.NumberReadsBack | src/rp2_common/pico_printf/printf.c:200-299 | every number, with or without a prefix, is spaces, a sign, a prefix, digits and spaces; functions of the arguments say how many digits there are, how much of the prefix is shown and whether the sign is, and the digits read back as so many of the lowest digits of the value |
| PrintfReading.DigitsComplete | src/rp2_common/pico_printf/printf.c:279-299 | the digit loop loses no digit exactly below the 32nd power of the base, so never of a 64 bit value in the bases 8, 10 and 16 |
| PrintfReading.PlainDigitsIff | src/rp2_common/pico_printf/printf.c:228-299 | without a prefix the text reads back as the value exactly if it has at most 32 digits |
| PrintfReading.PrefixTakesDigitsIff | src/rp2_common/pico_printf/printf.c:245-262 | with a prefix, the text reads back as another value exactly if the value has more than 32 digits, or without a precision the digits fill the width, or in base 16 zeros fill it with a single zero |
| PrintfReading.PrefixShownIff | src/rp2_common/pico_printf/printf.c:231-262 | the prefix is whole exactly if, with a precision, it fits the buffer in front of digits, precision and zeros; without one, if the number fills its width and that is at most 32, in base 2 at most 31, or if it does not and the prefix fits in front of the digits; for every base, width and value but zero |
| PrintfReading.WholePrefix | src/rp2_common/pico_printf/printf.c:252-261 | a prefix that fits is 0x, 0X, 0b or 0 |
| PrintfReading.NegativeShowsSign | src/rp2_common/pico_printf/printf.c:264-272 | a negative number shows its sign exactly if the buffer has room for it, for all arguments |
| PrintfReading.NegativeShowsSignIff | src/rp2_common/pico_printf/printf.c:228-275 | without a prefix and with fewer than 32 digits, exactly if it is set to the left, or its precision is below 32 and zeros fill no width above 32 |
| PrintfReading.WordsAreShort | src/rp2_common/pico_printf/printf.c:305-327 | 64 bit values have fewer than 32 digits in the bases 8, 10 and 16 |
| PrintfReading.FieldIsWideIff | src/rp2_common/pico_printf/printf.c:200-275 | a field, with or without a prefix, is as wide as asked for exactly if it is set to the left, filled with spaces, or asks for at most 32 places |
| PrintfReading.SignCanBeLost | src/rp2_common/pico_printf/printf.c:228-275 | a negative number padded with zeros to 40 places that comes out without its sign |
| Printf.Output.Out | src/rp2_common/pico_printf/printf.c:137-141 | a character is written only at an index below maxlen, and the buffer holds the text so far as far as it may |
| Printf.OutRev | src/rp2_common/pico_printf/printf.c:200-224 | puts out the buffer backwards between the spaces of its field |
| Printf.NtoaLong | src/rp2_common/pico_printf/printf.c:279-299 | puts out the text of the number |
| Printf.Format | src/rp2_common/pico_printf/printf.c:581-891 | the text put out is the one the format and its arguments determine |
| Printf.Vsnprintf | src/rp2_common/pico_printf/printf.c:581-891 | the return value is the length of the whole text whatever maxlen is; the buffer, which need not be as large as maxlen if the text and its NUL fit, holds the first min(n, maxlen - 1) characters and a NUL, and nothing else is written (section 7.21.6.5 of ISO C11) |
| Printf.Sprintf | src/rp2_common/pico_printf/printf.c:896-902 | in a buffer that is large enough, the whole text and its NUL, and nothing else is written |
| Printf.Measure | src/rp2_common/pico_printf/printf.c:588-591 | without a buffer the same length is returned |
| Printf.PutString | src/rp2_common/pico_printf/printf.c:829-853 | a string as far as its precision goes, between the spaces of its field |
| Printf.LiteralFormat | src/rp2_common/pico_printf/printf.c:593-603 | a format without specifications is put out as it is |
| Printf.PrefixCanTakeDigits | src/rp2_common/pico_printf/printf.c:228-275 | `%#4x` prints 0xABCD as 0xcd |
| Printf.PrefixCanBeLost | src/rp2_common/pico_printf/printf.c:228-275 | `%#b` prints 0x80000000 as its 32 digits, with no prefix |
| Printf.DecimalReadsBack | src/rp2_common/pico_printf/printf.c:712-760 | %d of every int is a minus sign if it is negative and digits that read back as its magnitude |
| Printf.RenderedFrom | src/rp2_common/pico_printf/printf.c:593-884 | the output is, in order, the characters outside of specifications and the texts of the conversions, each with the arguments left by the ones before |
| PrintfConversions.UnsignedReadsBackIff | src/rp2_common/pico_printf/printf.c:764-783 | u, x, X, o and b show no sign, and at every length digits that read back in base 10, 16, 16, 8 and 2 as the argument modulo 2^8, 2^16, 2^32 or 2^64; only b fails, beyond 32 bits |
| PrintfConversions.SignedReadsBack | src/rp2_common/pico_printf/printf.c:742-763 | d and i show digits that read back as the magnitude of the signed argument, a minus exactly if it is negative, and a plus exactly if it is not and the flag is given, if there is room for a sign |
| PrintfConversions.SignComesFirst | src/rp2_common/pico_printf/printf.c:264-272 | minus, plus or space comes right before the digits |
| PrintfConversions.DigitsShownIs | src/rp2_common/pico_printf/printf.c:231-242 | how many digits are shown, by precision, width and flags |
| PrintfConversions.IntegerField | src/rp2_common/pico_printf/printf.c:200-224 | spaces fill the width exactly, behind the number if it is set to the left and in front of it otherwise, and none if zeros do |
| PrintfConversions.CaseOfDigits | src/rp2_common/pico_printf/printf.c:712-735 | X shows capital letters only, and the other letters small ones only |
| PrintfConversions.CharField | src/rp2_common/pico_printf/printf.c:809-827 | one character, and spaces up to the width on the side asked for |
| PrintfConversions.StringField | src/rp2_common/pico_printf/printf.c:829-853 | the string as far as its precision goes, and spaces up to the width on the side asked for |
| PrintfConversions.PointerText | src/rp2_common/pico_printf/printf.c:855-872 | at least eight capital hexadecimal digits that read back as the pointer |
| PrintfConversions.OtherLetters | src/rp2_common/pico_printf/printf.c:874-884 | any other letter, and the percent sign, stands for itself |
| PrintfConversions.FlagsRead | src/rp2_common/pico_printf/printf.c:605-638 | each flag is set exactly if its character comes before the first that is no flag |
| PrintfConversions.NumberRead | src/rp2_common/pico_printf/printf.c:190-196 | a number in a format is its decimal digits read from left to right, modulo 2^32 |
| PrintfConversions.LengthRead | src/rp2_common/pico_printf/printf.c:669-703 | hh, h, l, ll, t, z and j select the size of the argument |
| PrintfConversions.SpecRead | src/rp2_common/pico_printf/printf.c:605-703 | flags, width and precision that the conversion uses are those the specification says, as digits or from the arguments |

## Left out

- RemainderFunctions.Fmod: the sign of a remainder of zero, the final conversion of the exact result to a pattern, and the NaN options are not modelled; denormals are read as zero, as the code does.
- RemainderFunctions.Remquo: the same, and the null pointer for quo.
- Lockout.StartLocksVictim: the roles of the cores are fixed, and the FIFOs carry nothing else; two cores that both initiate are outside the protocol.
- Lockout.HandshakeCanComplete: says that a handshake can succeed, not that a fair scheduler makes it; a handshake whose word was not pushed in time has to be tried again.
- Lockout: the mutex, the enabling of the initiator's own FIFO interrupt, and an end without a start, which the code asserts away.
- PairingHeap: the comparator is "less than" on keys, which any strict weak order has; ph_dump and allocation.
- AlarmPoolSteps.NoAlarmIsLost: hardware_alarm_set_target is a contract, it reports a miss and changes nothing or arms the alarm; its register accesses are not modelled.
- AlarmPool.Pool.CancelAlarm: the low byte of an id names a node, as ph_get_node asserts (pheap.h:102-106); an id is current until its node is used again; cancelling does not change it, so an old id can name a newer alarm (time.c:293-315).
- AlarmPool.Pool.AddAlarmAt: the code of one call is proved with no other step between its rounds; what a call does when there are is said by AlarmPoolSteps.RoundRunsIff.
- AlarmPool: destroying pools, repeating timers built on alarms, and the sleep functions.
- IrqChains.IrqTable.RemoveHandler: removal from within an exception, which defers freeing the last slot (irq.c:352-358 and 396-424), and exclusive handlers beyond the reset of an unshared vector.
- IrqExecution.InterruptRunsChain: handlers return and keep the stack; nested interrupts are not modelled, and only the instructions the slots use are.
- ElfPages.PieceMatches: the piece ends below the end of the address space.
- ElfPages.MapSegment: the segment ends below the end of the address space.
- ElfPages.CheckEntries: loaded segments and their file offsets do not wrap; which wrapping segments are accepted is said by FoundRangeHoldsIffNoWrap.
- Elf2Uf2.EntryPointIsLoaded: the same.
- Elf2Uf2.FlashEntrySuitsIff: for entries that end below the end of the address space; EntryAcceptedIff says it for all, in terms of the ranges.
- Elf2Uf2.RamEntrySuitsIff: the same.
- Elf2Uf2.AcceptedIsLoadedIff: the same.
- Elf2Uf2.LoadsAreInside: the same.
- Elf2Uf2.Convert: requires that loaded segments and their file offsets do not wrap; reading the ELF and program headers, and write errors.
- PioSymbols.PioAssembler.Resolve: signed overflow wraps; a division by zero stops the assembler, and so does dividing the least int by -1; locations in messages, and the lazy creation of the global program.
- PioCodec.DisassembleEncode: a side set value where none is declared is outside it, because the code then shifts by a field it never set; `.word`; numbers are tokens and columns are not padded; the kinds of errors are not told apart.
- PioLoader.LoadedRunsAlike: instructions that write pc or are executed from elsewhere, delays, and what instructions do to pins and FIFOs.
- PioLoader.Pio.FindOffset: the mask is the set of its bits, and a shift by 32 gives no bits.
- PioLoader.Pio.Add: a panic is a negative offset; locking, and the second PIO instance.
- FlashBank.FlashBanks.Write: a bank number is not negative, and the end of the range is a 32 bit word, as it is for data that is in memory; interrupts and the flash commands.
- FlashBank.FlashBanks.Read: the same; a range whose end wraps would pass the code's check and be copied from outside the flash.
- FlashBank.FlashBanks.Erase: the bank has to be in flash, which the code does not check.
- AsyncContext.Context.ExecuteOnce: work that itself edits the lists; the lists are sequences instead of pointers to pointers; locking, wakeups and needs_servicing.
- PrintfConversions.UnsignedReadsBackIff: without `#`; what a prefix takes away is said by PrefixTakesDigitsIff, and what is shown of it by PrefixShownIff and WholePrefix.
- PrintfConversions.SignComesFirst: where the buffer has room for a sign; SignedReadsBack says when it has.
- Printf.Vsnprintf: the build without floating point; formats that end inside a specification and arguments of the wrong kind, which the code does not check either; output functions other than the buffer's; lengths beyond a 32 bit word.
- Registers and peripherals, USB, wireless and FreeRTOS bindings, transcendental functions, claim bitmaps, random numbers, and the generated parser: input and output, foreign calls, or tables.
