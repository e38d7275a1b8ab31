# Linux generic headers, the table sorter and boot options, verified in Dafny

This project models the parts of a Linux 6.6 source tree where a small amount of code carries
a subtle argument, and proves the argument. `dafny verify dfyconfig.toml` checks everything.

| file | models |
|---|---|
| `Arith.dfy`, `Bits.dfy`, `Collections.dfy`, `Runs.dfy` | shared ground: quotients and products, digits and bytes of machine words, finite sets and sorting, runs of a state machine |
| `Div64.dfy` | 64-by-32 division by a reciprocal known at compile time, on 32-bit machines |
| `TicketLock.dfy` | the ticket spinlock as a state machine over its atomic steps |
| `QrwLock.dfy` | the fast paths of the queued reader-writer lock, as a state machine |
| `AtomicOps.dfy` | the compare-and-exchange loops behind the generic atomic operations |
| `MmuGather.dfy`, `MmuSafety.dfy`, `MmuGatherObject.dfy` | batched TLB invalidation: operations on values, the rule they keep in every run, and the in-place class that has this rule as its invariant |
| `ExTable.dfy` | the in-place sort of self-relative exception tables |
| `OrcTable.dfy` | the sort of the two ORC unwind tables by one permutation |
| `HyperV.dfy`, `VpSets.dfy` | the Hyper-V rep-hypercall loop and the sparse virtual-processor set |
| `BootOptions.dfy`, `BootOptionsObject.dfy` | boot options collected into init's arguments and environment: on values over whole command lines, and in place |
| `Xor.dfy` | the four RAID-5 XOR templates |

Machine words are integers with their range written out (`u16`, `u32`, `u64`) and every
truncation is explicit (`U16`, `U32`, `U64`); the XOR templates use a word as its 64 digits. Masks
and shifts are the recursive `And`, `Or`, `Xor` and `Shr` of `Bits`, so that the code's bit tricks are proved against plain quotients and remainders.

Concurrent code is a state machine whose actions are the single atomic accesses of the source.
A run is an arbitrary list of actions of arbitrary threads, and an action that is not enabled
does nothing, so a statement about all lists is a statement about all interleavings. Steps are
sequentially consistent.

## Results that go beyond the documentation

- Ticket lock: exclusion holds if and only if there are at most 2^16 threads
  (`TicketLock.ExclusionLimit`). With all 2^16 tickets out, `arch_spin_is_locked` reports an
  unlocked lock, and from 2^15 tickets on `arch_spin_is_contended` reports no contention
  (`TicketLock.QueriesCountTickets`; `TicketLock.EveryCountOccurs` shows that it happens).
- Queued reader-writer lock: exclusion holds if and only if there are at most 2^23 threads
  (`QrwLock.ExclusionLimit`).
- `__tlb_adjust_range` takes its size as an `unsigned int`. Unmapping and freeing one entry keeps the
  ordering rule if and only if the whole address space goes (`fullmm`), or the size is below 4 GiB,
  or the architecture always flushes everything and the truncated range does not end at address 0
  (`MmuSafety.SizeLimit`). Over whole runs that condition, asked of every unmapped entry, is
  sufficient (`MmuSafety.NeverFreedWhileCached`), and all runs are safe if and only if the whole
  address space goes or is smaller than 4 GiB (`MmuSafety.EveryRunSafeIff`).
- `orc_sort_cmp` looks only at its first argument on a tie, so it contradicts itself exactly on
  ties between entries of the same kind (`OrcTable.ComparatorConsistency`).
- `sort_orctable` keeps offsets in an `int`, yet no moved entry ever loses its 64-bit address unless
  an offset leads out of the address space: in sorted order no entry ends up too far from where it
  was (`OrcTable.OffsetsFit`). For a table of given place and length all addresses are kept, whatever
  it holds, if and only if no offset can wrap (`OrcTable.AddressLimit`).
- `init=` is documented to make init ignore all arguments before it. The clearing loop stops one
  slot short, so an argument in the last usable slot survives, and comes back when exactly
  one argument fewer than the limit follows (`BootOptions.InitForgetsIff`,
  `BootOptions.ForgottenArgumentReturns`).
- An environment option that updates the variable in the last usable slot panics, although no slot
  is needed; there is such a command line for every limit (`BootOptions.UpdatePanics`). Which
  command lines panic, and for which array, is `BootOptions.PanicExactly`.

## Model

| member | source | states |
|---|---|---|
| Div64.ProbeDecides | include/asm-generic/div64.h:79-105 | for every divisor that is not a power of two, the rounded-up multiplier is right at the one probed dividend if and only if it is right at every 64-bit dividend |
| Div64.ProbedMultiplierRight | include/asm-generic/div64.h:86-105 | a successful probe makes the rounded-up multiplier right at a given dividend |
| Div64.BiasedMultiplierRight | include/asm-generic/div64.h:105-117 | when the probe fails, the rounded-down multiplier is off by less than p and the biased product is right at every dividend |
| Div64.PeriodicMultiplierRight | include/asm-generic/div64.h:99-104 | if the odd part of the divisor divides 2^64 - 1, one biased product divides exactly |
| Div64.BranchesInUse | include/asm-generic/div64.h:99-118 | 3, 7 and 11 are divisors that take the three branches |
| Div64.MultiplierErrors | include/asm-generic/div64.h:79-84 | both multipliers fit 64 bits, one is too large by e / b and the other too small by (b - e) / b, and neither is exact |
| Div64.ComputeMultiplier | include/asm-generic/div64.h:82-84 | the two statements with all their 64-bit truncations compute (p * 2^64 + round) / b, with no overflow |
| Div64.ProbeProduct | include/asm-generic/div64.h:90-95 | the probe's hand-made product is the high half of the 128-bit product |
| Div64.Probe | include/asm-generic/div64.h:86-105 | the computed test is the mathematical one |
| Div64.MaskDigit | include/asm-generic/div64.h:124-126 | digit j of the reduction mask is set exactly when a shift by j stays within the trailing zeros of m and moves a zero into bit 31 |
| Div64.ChooseShift | include/asm-generic/div64.h:124-139 | the chosen power of two divides m, and clears bits 31 and 63 whenever some shift can, else it is the largest possible |
| Div64.TrailingZerosBounded | include/asm-generic/div64.h:118-139 | m never has more trailing zeros than p, so p is never driven to zero |
| Div64.Reduce | include/asm-generic/div64.h:118-142 | m and p are divided exactly by one power of two, p stays positive, every right quotient stays right, and bits 31 and 63 are clear when that can be had |
| Div64.ReducedQuotient | include/asm-generic/div64.h:118-139 | dividing m and p by the same number leaves the quotient alone |
| Div64.TestOverflowBits | include/asm-generic/div64.h:182-192 | the mask test says whether bit 63 or bit 31 is set |
| Div64.AddKeepCarry | include/asm-generic/div64.h:186-189 | comparing truncated upper halves recovers the carry of a 64-bit sum |
| Div64.LowSum | include/asm-generic/div64.h:180-190 | the first stage computes ((bias ? m : 0) + m_lo * n_lo) / 2^32 in all three branches |
| Div64.MidSum | include/asm-generic/div64.h:192-204 | the second stage adds both cross products and keeps the upper half, carry included |
| Div64.XProd64 | include/asm-generic/div64.h:171-209 | the result is floor(((bias ? m : 0) + m * n) / 2^64) for all m, n and bias |
| Div64.DividePeriodic | include/asm-generic/div64.h:99-104 | the special branch returns the quotient |
| Div64.DivideBiased | include/asm-generic/div64.h:105-117 | the biased branch returns the quotient whenever the probe failed |
| Div64.DivideProbed | include/asm-generic/div64.h:118-142 | the reduced branch returns the quotient whenever the probe succeeded |
| Div64.ReciprocalDivide | include/asm-generic/div64.h:65-158 | n / b for every non-zero 32-bit divisor and every 64-bit dividend, through all branches |
| Div64.DivideByPowerOf2 | include/asm-generic/div64.h:223-226 | mask and shift are remainder and quotient |
| Div64.LowRemainder | include/asm-generic/div64.h:229-233 | the remainder rebuilt from the low halves in 32-bit registers is n mod b |
| Div64.DoDiv | include/asm-generic/div64.h:219-241 | quotient and remainder, as the plain 64-bit variant computes them |
| TicketLock.HalfWordStore | include/asm-generic/spinlock.h:63-69 | in both byte orders the half-word store replaces the owner half and nothing else |
| TicketLock.LockDrawKeeps | include/asm-generic/spinlock.h:33-39 | the fetch-add appends the thread to the queue the lock word stands for |
| TicketLock.SpinReadKeeps | include/asm-generic/spinlock.h:49-50 | a waiter's spin condition is true exactly if it has the oldest ticket |
| TicketLock.TryCasKeeps | include/asm-generic/spinlock.h:53-61 | trylock's exchange, with however stale a read, enters an empty queue if the word is the one read and fails otherwise |
| TicketLock.LockOutcome | include/asm-generic/spinlock.h:33-39 | in every run, lock enters at once if nobody holds or waits, and waits otherwise |
| TicketLock.SpinOutcome | include/asm-generic/spinlock.h:49-50 | a waiter whose spin condition is true enters at its next look, any other keeps waiting |
| TicketLock.TrylockOutcome | include/asm-generic/spinlock.h:53-61 | in every run, with any interference between its read and its exchange, trylock succeeds if and only if the queue was empty at the read and the word is the same at the exchange, and is idle otherwise |
| TicketLock.TrylockAlone | include/asm-generic/spinlock.h:53-61 | without interference trylock succeeds exactly on a free lock |
| TicketLock.UnlockOutcome | include/asm-generic/spinlock.h:63-69 | in every run, with any interference between its read and its store, unlock takes the holder, and nothing else, from the head of the queue |
| TicketLock.UnlockStoreKeeps | include/asm-generic/spinlock.h:63-69 | the unlock store, racing with draws since its read, removes exactly the oldest ticket |
| TicketLock.RunInvariant | include/asm-generic/spinlock.h:33-69 | in every interleaving the word and the program counters represent the queue of tickets drawn and not released |
| TicketLock.MutualExclusion | include/asm-generic/spinlock.h:33-69 | at most one thread is inside, in every interleaving of at most 2^16 threads |
| TicketLock.FirstComeFirstServed | include/asm-generic/spinlock.h:33-69 | the releases are a prefix of the entries, which are a prefix of the draws |
| TicketLock.ExactlyOneProceeds | include/asm-generic/spinlock.h:38-50 | if nobody is inside while somebody waits, exactly one waiter's spin condition is true |
| TicketLock.Countdown | include/asm-generic/spinlock.h:38-69 | a waiter with d tickets ahead can stop spinning after exactly d unlocks |
| TicketLock.QueriesCountTickets | include/asm-generic/spinlock.h:71-83 | is_locked holds for 1 to 2^16 - 1 outstanding tickets, is_contended for 2 to 2^15 - 1 |
| TicketLock.EveryCountOccurs | include/asm-generic/spinlock.h:71-83 | every number of outstanding tickets up to the number of threads is reached by some run, so both queries do mislead |
| TicketLock.ExclusionLimit | include/asm-generic/spinlock.h:33-69 | exclusion in all interleavings if and only if at most 2^16 threads |
| QrwLock.WriterMask | include/asm-generic/qrwlock.h:27-31 | masking with _QW_WMASK is the remainder modulo _QR_BIAS |
| QrwLock.AddReaderKeepsWriter | include/asm-generic/qrwlock.h:50-51 | adding a reader leaves the writer bits alone even when the count wraps |
| QrwLock.ByteStore | include/asm-generic/qrwlock.h:120-123 | the byte store clears the low-order byte in both byte orders |
| QrwLock.WriteUnlockStep | include/asm-generic/qrwlock.h:120-123 | the writer's byte store loses none of the readers counted meanwhile |
| QrwLock.StepKeeps | include/asm-generic/qrwlock.h:44-123 | every step keeps the exact count and exclusion |
| QrwLock.CountsExact | include/asm-generic/qrwlock.h:44-123 | in every interleaving of fewer than 2^23 threads the word is 512 times the readers holding or in flight plus the writer byte, with at most one writer |
| QrwLock.NothingLeaks | include/asm-generic/qrwlock.h:44-123 | once every thread is idle the word is zero again |
| QrwLock.FastPathOutcome | include/asm-generic/qrwlock.h:78-102 | a reader gets in exactly when no writer holds the lock, a writer exactly when nobody holds or is counted |
| QrwLock.FastPathParks | include/asm-generic/qrwlock.h:78-102 | the fast paths that fail park the thread, the reader with its count in the word, the writer without a trace |
| QrwLock.ReadTrylockOutcome | include/asm-generic/qrwlock.h:44-56 | in every run, with any interference, a read trylock gets in if and only if no writer holds the lock at its look and at its add |
| QrwLock.WriteTrylockOutcome | include/asm-generic/qrwlock.h:63-73 | in every run, with any interference, a write trylock gets in if and only if nobody holds or is counted at its look and at its exchange, and leaves no trace otherwise |
| QrwLock.TrylockAlone | include/asm-generic/qrwlock.h:44-73 | without interference each trylock succeeds exactly when the lock allows it |
| QrwLock.ReleaseOutcome | include/asm-generic/qrwlock.h:108-123 | each unlock, and each count given back, takes out exactly its thread |
| QrwLock.ExclusionLimit | include/asm-generic/qrwlock.h:44-123 | a writer is alone in all interleavings if and only if there are at most 2^23 threads |
| AtomicOps.CommitExplains | include/asm-generic/atomic.h:24-27 | a successful exchange extends the sequential explanation by its call |
| AtomicOps.RunInvariant | include/asm-generic/atomic.h:19-51 | in every interleaving the calls in commit order explain the history so far |
| AtomicOps.Linearizable | include/asm-generic/atomic.h:19-51 | the calls in the order of their exchanges are a sequential execution that gives every returned value, respects real time and ends in the counter's value |
| AtomicOps.ReturnedValues | include/asm-generic/atomic.h:29-51 | every response has a place in the commit order where a fetch operation returns the counter before it, a return operation the counter after it, and a plain one nothing |
| AtomicOps.ArithmeticOperators | include/asm-generic/atomic.h:96-106 | add and sub are those of the integers modulo 2^32 and undo each other |
| AtomicOps.BitwiseOperators | include/asm-generic/atomic.h:101-109 | and, or and xor digit by digit |
| AtomicOps.CallAlone | include/asm-generic/atomic.h:19-51 | a call without interference is done after one pass, with its effect and its value |
| AtomicOps.RetrySucceeds | include/asm-generic/atomic.h:24-27 | after a failed exchange the next one succeeds unless another call comes in between |
| AtomicOps.FailureMeansProgress | include/asm-generic/atomic.h:24-27 | an exchange fails only if another call took effect since the thread last looked |
| MmuSafety.FlushLeavesInstalled | include/asm-generic/tlb.h:448-460 | after tlb_flush_mmu_tlbonly, early return included, every cached translation is still installed |
| MmuSafety.RecordCovers | include/asm-generic/tlb.h:355-361 | a recorded unmapping is sure to be reached by the next flush, at every size when the whole address space goes |
| MmuSafety.StepKeeps | include/asm-generic/tlb.h:355-592 | every operation keeps the invariant that stale translations are covered by the pending flush |
| MmuSafety.NeverFreedWhileCached | include/asm-generic/tlb.h:37-45 | in no run is a page freed while a translation to it is cached, whatever flushed and reset in between, if the whole address space goes or no recorded size is lost to truncation |
| MmuSafety.StaleIsPending | include/asm-generic/tlb.h:448-460 | in every run a stale translation lies in the pending range (or everything is flushed) and some flag is set, so the early return skips nothing |
| MmuSafety.NothingStaleBetweenVmas | include/asm-generic/tlb.h:429-446 | between two VMAs no stale translation is left whose flush would use the next VMA's flags |
| MmuSafety.UnmapSizeSmallest | include/asm-generic/tlb.h:507-524 | in every run the unmap size is that of the smallest level cleared since the last flush |
| MmuSafety.HugeRecordLevel | include/asm-generic/tlb.h:611-623 | a huge page is recorded at the largest level that is not larger than itself |
| MmuSafety.TableLevelAbove | include/asm-generic/tlb.h:671-705 | freeing a page table records the level above it, whose entries span 512 of the table's |
| MmuSafety.VmaRun | include/asm-generic/tlb.h:411-446 | in every run, from opening a VMA to closing it: flushes are made with the flags of that VMA, and its end flushes if it is a PFN mapping or VMAs are kept apart, and leaves everything alone otherwise |
| MmuSafety.SizeLimit | include/asm-generic/tlb.h:355-361 | unmapping, queueing and flushing one entry is safe if and only if fullmm is set, its size is below 4 GiB, or every flush is a full one and the truncated range does not end at 0; for every configuration |
| MmuSafety.EveryRunSafeIff | include/asm-generic/tlb.h:355-361 | for a given configuration all runs keep the ordering rule if and only if fullmm is set or the address space is smaller than 4 GiB |
| MmuSafety.HugeSizeVanishes | include/asm-generic/tlb.h:355-361 | for a power of two of 4 GiB or more the recorded range is empty |
| MmuGatherObject.MmuGather.constructor | include/asm-generic/tlb.h:363-381 | a new gather is the initial state of the runs, and satisfies the ordering rule |
| MmuGatherObject.MmuGather.AdjustRange | include/asm-generic/tlb.h:355-361 | no pending translation is lost, and the new range is the least one that covers the old range and the interval |
| MmuGatherObject.MmuGather.ResetRange | include/asm-generic/tlb.h:363-381 | when nothing stale is left the ordering rule survives the reset; nothing is recorded any more, the next interval recorded becomes the range, and the page size, the VMA flags and the requests for a full flush are kept |
| MmuGatherObject.MmuGather.Flush | include/asm-generic/tlb.h:397-424 | whatever is cached afterwards is installed |
| MmuGatherObject.MmuGather.FlushTlbOnly | include/asm-generic/tlb.h:448-460 | nothing stale is left and nothing recorded, early return included, and with nothing recorded nothing happens |
| MmuGatherObject.MmuGather.FlushMmu | include/asm-generic/tlb.h:86-92 | every batched page is freed, nothing stale is left, and no freed page is cached |
| MmuGatherObject.MmuGather.RemovePageSize | include/asm-generic/tlb.h:462-467 | the page is queued, or freed with all others while no freed page is cached |
| MmuGatherObject.MmuGather.ChangePageSize | include/asm-generic/tlb.h:494-505 | no page queued under another size stays in the batch, unless everything will be flushed anyway; without a change of size nothing is flushed |
| MmuGatherObject.MmuGather.StartVma | include/asm-generic/tlb.h:531-540 | everything mapped in the VMA may now be unmapped and recorded, flushes are made with its flags, and no stale translation of an earlier VMA depends on the changed flags |
| MmuGatherObject.MmuGather.EndVma | include/asm-generic/tlb.h:542-560 | if the VMA that was opened is a PFN mapping, and where VMAs are kept apart, nothing stale is left; otherwise nothing is flushed |
| MmuGatherObject.MmuGather.FlushLevelRange | include/asm-generic/tlb.h:566-592 | the unmapped entry is sure to be invalidated by the next flush unless its size was truncated, and its level is recorded |
| MmuGatherObject.MmuGather.FreeTableRange | include/asm-generic/tlb.h:671-705 | the cached pointer to a freed page table is sure to be invalidated by the next flush |
| MmuGatherObject.MmuGather.GetUnmapSize | include/asm-generic/tlb.h:507-524 | the size of the smallest level cleared since the last flush |
| Bits.Encode | tools/include/tools/be_byteshift.h:29-35 | writing a word and reading it back gives the word, in both byte orders |
| Bits.DecodeDigits | tools/include/tools/le_byteshift.h:12-15 | byte k of a little-endian word has exactly the digits 8k to 8k + 7 |
| Bits.DecodeReversed | tools/include/tools/be_byteshift.h:12-15 | a big-endian word is the little-endian word of the reversed bytes |
| Bits.SignedWord | scripts/sorttable.c:205-206 | the conversion to int32_t keeps the word and is in range |
| ExTable.PairMeaning | scripts/sorttable.c:223-227 | entry j of a table of pairs stands for its two words plus their own positions |
| ExTable.TripleMeaning | scripts/sorttable.c:244-252 | the same for entries with a data word, which stands for itself |
| ExTable.WriteWord | scripts/sorttable.c:144-162 | a store replaces one word of the table and keeps all others |
| ExTable.AbsoluteOfRelative | scripts/sorttable.c:223-237 | normalising undoes denormalising |
| ExTable.SortedEntries | scripts/sorttable.c:229-229 | qsort permutes the entries and leaves them in order |
| ExTable.SortRelativeTable | scripts/sorttable.c:215-238 | the multiset of absolute (insn, fixup) pairs is kept and the entries come out ordered by signed normalised insn, for both byte orders and every length |
| ExTable.SortRelativeTableWithData | scripts/sorttable.c:240-266 | the same with a data word that travels untouched |
| OrcTable.ComparatorConsistency | scripts/sorttable.h:111-132 | where the comparator is consistent it is the order by address with terminators first, and it contradicts itself exactly on ties of the same kind |
| OrcTable.SortInOrder | scripts/sorttable.h:172-172 | sorting indices with the comparator gives that order |
| OrcTable.MovedIpValue | scripts/sorttable.h:166-180 | the offset stored for a moved entry, truncated twice to an int, and when it is exact |
| OrcTable.OffsetsFit | scripts/sorttable.h:166-181 | in sorted order, without wrapping, no moved offset overflows an int |
| OrcTable.AddressesKept | scripts/sorttable.h:124-181 | without wrapping every entry keeps its 64-bit address and its record, the new table is sorted by address, and terminators, entries of type 0, stand left of real entries for the same address |
| OrcTable.AddressLimit | scripts/sorttable.h:166-181 | tables of n entries at base keep all addresses, whatever they hold, if and only if no offset can wrap |
| OrcTable.WrapBelow | scripts/sorttable.h:106-109 | a table near address 0 on which an entry loses its address |
| OrcTable.WrapAbove | scripts/sorttable.h:106-109 | a table near the top of the address space on which an entry loses its address |
| OrcTable.SortOrcTable | scripts/sorttable.h:134-187 | one permutation, in order, moves both tables; without wrapping every 64-bit address is kept with its record and the table comes out sorted with terminators left |
| HyperV.GenMaskBits | include/asm-generic/hyperv-tlfs.h:197-209 | GENMASK_ULL(h, l) has exactly the digits l to h |
| HyperV.HvResult | include/asm-generic/mshyperv.h:71-74 | the result is the low 16 digits of the status |
| HyperV.HvRepComp | include/asm-generic/mshyperv.h:81-86 | the completed reps are digits 32 to 43 of the status |
| HyperV.ControlDigits | include/asm-generic/hyperv-tlfs.h:197-212 | in a control word the code has digits 0 to 15, the header size 17 to 26, and the fast bit and all reserved digits are zero |
| HyperV.ControlParts | include/asm-generic/hyperv-tlfs.h:203-208 | the rep count has digits 32 to 43, the start index 48 to 59 |
| HyperV.FirstControl | include/asm-generic/mshyperv.h:95-100 | code, header size and rep count in their places, start index zero |
| HyperV.NextControl | include/asm-generic/mshyperv.h:109-110 | only the start index changes |
| HyperV.DoRepHypercall | include/asm-generic/mshyperv.h:92-116 | with a hypervisor that makes progress the loop ends; all calls carry the same request; on success the reps 0 to rep_count - 1 were performed once each in order, on failure those before the failing call |
| VpSets.TargetsAre | include/asm-generic/mshyperv.h:241-247 | the targets are the VP numbers of the CPUs in the mask that are not skipped |
| VpSets.RankOfLowMask | include/asm-generic/mshyperv.h:254-254 | with a mask without gaps a bank's number is its position |
| VpSets.Decoding | include/asm-generic/mshyperv.h:219-256 | decoding a gap-free mask over the banks gives the VP numbers they hold |
| VpSets.VpSet.ClearBanks | include/asm-generic/mshyperv.h:235-236 | nothing of an earlier set is left in the usable banks |
| VpSets.VpSet.SetBits | include/asm-generic/mshyperv.h:241-253 | the banks hold exactly the targets, and the bank count is the least that covers them |
| VpSets.VpSet.FromCpumask | include/asm-generic/mshyperv.h:219-256 | 0 exactly if there are too many banks, -1 exactly if a selected CPU has no VP number, else the set decodes to exactly the targets whatever the banks held before |
| BootOptions.Run | init/main.c:503-606 | after any command line both arrays have a NULL last slot unless panic_later is set |
| BootOptions.AddEnvBinds | init/main.c:551-562 | one environment option updates the binding of its name or appends one, and panics exactly when all slots up to the limit are used and none below it has the name |
| BootOptions.PanicExactly | init/main.c:503-606 | over whole command lines: panic_later is set if and only if some option overflows its array, and names the array of the first that does |
| BootOptions.EnvPanicIff | init/main.c:551-562 | the environment panics if and only if the first overflow is an environment option that finds all slots in use and its name in none below the last |
| BootOptions.OverflowOutcome | init/main.c:514-573 | what the overflowing option leaves in the arrays, and that panic_param names it |
| BootOptions.LastCommandWins | init/main.c:577-606 | after any command line the program to start is the value of the last init=, and the one in the ramdisk that of the last rdinit= or /init |
| BootOptions.UpdatePanics | init/main.c:554-562 | for every limit, a command line that panics on the update of a variable that has a slot |
| BootOptions.EnvIsMap | init/main.c:551-562 | until panic_later is set every name has one slot, with its last value, and no other name has one |
| BootOptions.ArgsStepShape | init/main.c:503-575 | one option keeps the shape of argv, and an argument panics exactly when no slot is left |
| BootOptions.ArgsRun | init/main.c:503-606 | after any command line without panic argv holds the arguments since the last reset and what that reset left behind |
| BootOptions.InitForgetsIff | init/main.c:577-606 | init= and rdinit= make init ignore earlier arguments if and only if the last usable slot was free or other than limit - 1 arguments follow |
| BootOptions.ForgottenArgumentReturns | init/main.c:577-591 | for every limit, a command line on which an argument from before init= reaches init |
| BootOptions.PanicStays | init/main.c:509-549 | panic_later and its message are never taken back; from then on the environment is frozen, and argv but for resets |
| BootOptionsObject.InitData.constructor | init/main.c:189-191 | the initial arrays |
| BootOptionsObject.InitData.SetInitArg | init/main.c:503-523 | in-place scan and store, in bounds |
| BootOptionsObject.InitData.AddArg | init/main.c:563-573 | in-place scan and store, in bounds, also when it panics |
| BootOptionsObject.InitData.AddEnv | init/main.c:551-562 | in-place scan with the name comparison, in bounds, also when it panics |
| BootOptionsObject.InitData.ClearArgs | init/main.c:588-589 | exactly the slots 1 to limit - 1 are cleared |
| BootOptionsObject.InitData.CheckSetup | init/main.c:193-220 | which handler takes the option, and what init= and rdinit= do |
| BootOptionsObject.InitData.UnknownBootOption | init/main.c:529-575 | the whole handler, in place |
| BootOptionsObject.InitData.Process | init/main.c:503-606 | a whole command line, in place |
| BootOptionsObject.RepairEnvString | init/main.c:488-501 | both layouts become name=value again and nothing else in the buffer changes; any other layout is a BUG() |
| Xor.Algebra | include/asm-generic/xor.h:17-24 | a word added twice leaves nothing, zero adds nothing, the order does not matter |
| Xor.Line8 | include/asm-generic/xor.h:17-24 | one line of the 8regs templates adds the sources to eight words |
| Xor.Line32 | include/asm-generic/xor.h:148-182 | one line of the 32regs templates does the same through registers |
| Xor.Xor8Regs | include/asm-generic/xor.h:10-100 | all whole lines get the sources added, everything else is kept |
| Xor.Xor32Regs | include/asm-generic/xor.h:102-308 | the same |
| Xor.Xor8RegsPrefetch | include/asm-generic/xor.h:310-442 | the same with goto once_more; every line is prefetched once, and one line beyond only for a single-line block |
| Xor.Xor32RegsPrefetch | include/asm-generic/xor.h:444-698 | the same |
| Xor.Batches | include/asm-generic/xor.h:10-100 | adding sources in batches is adding them all |
| Xor.Recovery | include/asm-generic/xor.h:4-5 | parity plus all blocks but one is the missing block |
| Xor.Rebuilt | include/asm-generic/xor.h:4-5 | adding the survivors to a parity block rebuilds the lost block |

## Assumptions

- `qsort` permutes its entries and orders every pair that its comparator orders consistently. The
  methods `QSort` are stand-ins with that contract, through the insertion sort of `Collections`. The C library promises nothing for
  an inconsistent comparator such as `orc_sort_cmp`.
- The hardware may cache any installed translation at any time. `flush_tlb_range` invalidates
  everything inside the range, except that an architecture that keeps VMAs apart may look at
  VM_HUGETLB and flush only that kind. It may keep an entry that reaches out of the range; the unsafe
  direction of `MmuSafety.SizeLimit` uses this. For power-of-two sizes, as all real ones are, the
  recorded range is empty (`MmuSafety.HugeSizeVanishes`), so there the failure does not depend on it.
- Callers of the gather unhook a page before queueing it, record what they unmap inside its VMA,
  and free page tables with the *_free_tlb macros.
- An ORC table lies in the address space (`base + 4 * n <= 2^64`), and its size fits `unsigned int`.
- The level sizes of `MmuGather.Shift` are those of x86-64.
- A successful hypercall reports no more reps than asked for and more than its start index, and
  callers keep rep_count below 4096 and varhead_size below 1024, as the Hyper-V Top Level Functional
  Specification, section "Hypercall Interface", defines the fields.
- `hv_max_vp_index` bounds every VP number but VP_INVAL, and the bank array reaches that far.
- The parser of boot options ends an option's name at its first '='. The limit
  CONFIG_INIT_ENV_ARG_LIMIT is at least 1. `sysctl_is_alias` and the other `__setup` handlers are
  arbitrary functions of the option, and none of them takes init= or rdinit= first.
- An `unsigned long` has 64 bits in the XOR templates.

## Left out

- Div64.DoDiv: a divisor not known at compile time is modelled only for dividends below 2^32, because the 64-bit case is the external function `__div64_32`.
- Slow paths of the queued locks (bodies not part of this source): a reader sent there is parked, its count kept or given back; a writer sent there is parked and never enters.
- Weak memory, barriers and KCSAN hooks.
- Aliasing between boot-option strings and the command-line buffer: slots hold string values, and only `RepairEnvString` works on the buffer.
- The non-SMP atomic operations, which disable interrupts instead of looping.
- Delayed rmap removal, MMU_GATHER_NO_GATHER and the RCU freeing of page tables.
- ELF parsing, file mapping, threads and allocation failures of the table sorter.
- `hv_generate_guest_id` and the other single-expression helpers of mshyperv.h.
- The speed measurement that picks an XOR template.
- Everything else in the tree: ACPI headers, I/O and page-table wrappers, decompressors, initcalls.
