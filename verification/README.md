# A verified model of CARAT and of the e1000e driver it is tried on

The repository has two halves: a compiler pass with a kernel policy module that checks the
memory accesses of other modules (CARAT), and the e1000e network driver that is run under it.
This project models the parts of both where correctness is an argument over many steps, and
proves it in Dafny 4.11. `dafny verify dfyconfig.toml` checks everything.

## What is modelled

**Two-bank flash with a shadow RAM** (`FlashSpec`, `FlashBits`, `FlashPart`, `FlashPoints`,
`Ich8Nvm`, `WordSums`, `NvmTheorems`). The flash is a sequence of 16-bit cells. A program cycle
ANDs a mask into one or two cells, may fail, and may then have landed; an erase sets one sector
to all ones or does nothing. The part keeps a ghost trail of its contents after every cycle:
these are the contents at which power may be lost. The driver class has the shadow table as an
array and the driver's methods with their loops, retries and early exits, for the
byte-programmed parts and for the dword-programmed ones from SPT on. Any cycle may fail; ghost
fields of the part count failed reads, cycles that were stuck and cycles that ended with an
error, and the contracts say by these counts when an operation fails or goes on over an erase
that was not done. The constant `tears` says whether a failed cycle may land partially. Crash
atomicity turned out to depend on the bank choice: when the read that looks for the signature
fails, the driver assumes bank 0 (`caratCOP/e1000e-test/ich8lan.c:3982-3986`), and if bank 1 was
the active one its erase destroys it. The theorems about power loss and about the contents read
are therefore equivalences, with a second condition where cycles may land partially, and methods
on the driver class connect them to its runs. The dword-read parts read words in pairs and test
the flag of the first for both (`caratCOP/e1000e-test/ich8lan.c:3344`), and an erase that met
ten errors returns as if it had been done (`caratCOP/e1000e-test/ich8lan.c:4563-4566`); when
exactly that goes wrong is proved, too.

**Cross-agent semaphores** (`Semaphore`, `SemaphoreRuns`). A transition system with any number
of drivers and the firmware. One step is one register access: the read of SWSM sets SMBI,
SWESMBI latches only while the firmware does not hold its side, SW_FW_SYNC is read and written
separately. Besides mutual exclusion it is proved over whole runs that a free resource is
granted and for which reasons alone an acquire fails.

**Policy tree** (`RegionTree`). The lookup, insertion and deletion loops over a search tree of
any shape with 64-bit addresses that wrap. Lookup can be trusted exactly when no region starts
inside an earlier one, which `insert_region` does not check.

**Guard pass** (`GuardIr`, `GuardPass`, `GuardTheorems`). A small SSA program with GEP, casts,
loads, stores, calls, phis and branches, its step semantics with an event log, the pass as it
runs (collection per block and function, then insertion in map order), a description of the
module returned in terms of its instructions alone, and a simulation in both directions.

**Transmit ring** (`Paging`, `RingIndex`, `TxRingSpec`, `TxRing`, `TxMachine`). Positions grow
for ever and an index is a position modulo the ring size. `TxRing` holds the driver's functions,
each run without interruption, as methods over an array of slots. `TxMachine` breaks transmit
path, cleaner and hardware into steps on shared state and interleaves them, stop/wake handshake
included. A mapping is named by the position it was made at, so that undoing it twice would show.
When mapping a piece fails the driver unmaps one buffer fewer than it had mapped
(`caratCOP/e1000e-test/netdev.c:5660-5663`), and a packet with an empty head makes it leave a
slot out (`caratCOP/e1000e-test/netdev.c:5623`); when exactly this breaks the ring is proved.

**Receive ring** (`RxFrames`, `RxRing`). Everything the hardware ever writes is one stream of
descriptors; `Frames` cuts it at end-of-packet. The class invariant says that what has been
handed on is what the complete frames among the descriptors taken call for, whatever the budgets
of the calls, while the hardware goes on writing during them. The two cleaning functions of the
source repeat the same loop around different bodies; here the loop is one method that calls
either body.

**Serial EEPROM** (`SpiBits`, `SpiEeprom`). The driver's bit-banging against a part that clocks
in bits, acts when deselected, and wraps within a page when it programs. The ninth address bit
of 8-bit parts is chosen from `offset` and not from `offset + widx`
(`caratCOP/e1000e-test/nvm.c:374`), so a write that crosses word 128 lands in the lower half
again; the exact condition is proved.

**Smaller protocols.** Unaligned byte access to a word EEPROM (`Bytes`, `EepromBytes`), the
management host interface (`HostInterface`), latency encoding (`Ltr`, section 6.18 of the PCI
Express Base Specification 3.0), and the 64-bit clock read (`Systim`).

Where source and comment differ the code is followed. In the host-interface writer an unaligned
write shorter than the rest of its first dword makes the 16-bit length wrap
(`caratCOP/e1000e-test/manage.c:210`); that this is the only case in which the loop runs away is
proved. The comparison of latencies is done on 32-bit decodes that can wrap to 0
(`caratCOP/e1000e-test/ich8lan.c:1067-1078`).

## Model

| member | source | states |
|---|---|---|
| NvmTheorems.CrashAtomic | caratCOP/e1000e-test/ich8lan.c:3961-4081 | whatever flash content a commit that took the active bank for the old one can leave behind at any of its cycles, the next bank detection selects a bank holding the whole old image or the whole new one |
| NvmTheorems.CrashAtomicIff | caratCOP/e1000e-test/ich8lan.c:3982-4081 | that holds for every crash point if and only if the bank taken for the old one is the active bank (a failed read during detection makes the driver take bank 0) |
| NvmTheorems.PowerLossAnywhere | caratCOP/e1000e-test/ich8lan.c:3988-4081 | the same about the recorded trail of a commit: losing power after any cycle shows old or new if and only if the right bank was erased, or none |
| NvmTheorems.CommitAndLosePower | caratCOP/e1000e-test/ich8lan.c:3961-4099 | the same on the driver itself, whatever reads fail, as long as fewer than ten erase cycles ended with an error: the bank taken is the active one when the reads that looked for it were good, and then every point of the trail shows old or new, also with partial landings if the old bank is bank 1 or its signature is clean |
| NvmTheorems.WrongBankLosesImage | caratCOP/e1000e-test/ich8lan.c:3983-3993 | with bank 1 active and bank 0 assumed, the erase alone already loses both images |
| NvmTheorems.TornCrash | caratCOP/e1000e-test/ich8lan.c:4067-4075 | if a failed program cycle may clear only some bits, a commit that took the active bank stays crash-atomic unless that is bank 0 and the high byte of its signature word has bit 15 and another bit set |
| NvmTheorems.TornAtomicIff | caratCOP/e1000e-test/ich8lan.c:3982-4075 | exactly when every commit is crash-atomic with such cycles, for every shadow RAM and crash point: the bank taken is the active one, and it is bank 1 or its signature word has bit 15 clear or no other bit of its high byte set |
| NvmTheorems.TornExposed | caratCOP/e1000e-test/ich8lan.c:4067-4075 | with an unclean signature any commit that changes another word has a crash point that shows neither image |
| NvmTheorems.TornRetirement | caratCOP/e1000e-test/ich8lan.c:4067-4075 | an instance of this: signature word 8142h |
| NvmTheorems.CommittedActive | caratCOP/e1000e-test/ich8lan.c:4050-4075 | after a commit that ended well the other bank is active and holds the old image overlaid with the shadow words, signature 10b |
| NvmTheorems.CommitKeepsContents | caratCOP/e1000e-test/ich8lan.c:3961-4099 | a commit that is safe (next row), successful or failed at any step, leaves every word read through the shadow RAM as it was, the checksum word and bits 15:14 of word 0x13 apart |
| NvmTheorems.CommitKeepsIff | caratCOP/e1000e-test/ich8lan.c:3961-4099 | every result of a commit that took bank 0 or the active bank keeps those words if and only if the bank taken is the active one or reads the same words through the shadow RAM, and, where failed cycles may land partially, the old bank is bank 1, or word 0x13 is in the shadow RAM, or its bit 15 or its bits 13:8 in the old bank are clear |
| NvmTheorems.WrongBankShows | caratCOP/e1000e-test/ich8lan.c:3969-3993 | a commit that stored its checksum, assumed bank 0 and stops after its erase shows other words if bank 0 does not fit |
| NvmTheorems.TornShows | caratCOP/e1000e-test/ich8lan.c:3969-4075 | a commit that stored its checksum and stops while it retires an unshielded signature shows a damaged word 0x13 |
| NvmTheorems.FaithfulOverlay | caratCOP/e1000e-test/ich8lan.c:3370-4099 | over any run of writes and commits, each commit taking bank 0 or the active bank and failing wherever it likes, reads return what was last written, with the same two exceptions, if each commit meets the condition of CommitKeepsIff |
| NvmTheorems.Serve | caratCOP/e1000e-test/ich8lan.c:3370-4099 | any sequence of writes and commits on the driver is such a run as long as fewer than ten erase cycles ended with an error; without read errors and partial landings the condition always holds |
| NvmTheorems.ChecksumAfterCommit | caratCOP/e1000e-test/nvm.c:546-597 | after a commit that ended well the words 0..0x3F sum to 0xBABA if and only if word 0x13, as read before the commit, carried 10b in bits 15:14 |
| WordSums.SumIsTotal | caratCOP/e1000e-test/nvm.c:551-559 | the 16-bit sum the loops compute is the sum of the words as numbers modulo 2^16 |
| NvmTheorems.ChecksumCompletesTotal | caratCOP/e1000e-test/nvm.c:583-591 | with the checksum stored the words 0 to 0x3F sum, as numbers, to 0xBABA modulo 2^16 |
| NvmTheorems.CommitThenValidate | caratCOP/e1000e-test/nvm.c:546-567 | commit followed by the driver's own validation, on byte and on dword parts: the commit fails only for a failed read, a stuck cycle or 1111 errors in programming, and with fewer than ten erase errors and good reads validation succeeds exactly under that condition |
| NvmTheorems.SilentEraseIff | caratCOP/e1000e-test/ich8lan.c:4553-4566 | what a commit leaves whose erase was reported good and not done: the new image becomes active if and only if it only clears bits of what the other bank held |
| NvmTheorems.SilentActive | caratCOP/e1000e-test/ich8lan.c:4553-4566 | the new bank is then valid exactly when bit 15 of its old signature word was still set; otherwise, as after an earlier commit, no bank is valid |
| NvmTheorems.CommitAndRead | caratCOP/e1000e-test/ich8lan.c:3961-4099 | after a commit of the driver that returned 0 the words read are the new image if and only if fewer than ten erase cycles ended with an error or the new image only clears bits |
| NvmTheorems.CommitBothWays | caratCOP/e1000e-test/ich8lan.c:3840-3930 | from equal states the dword commit and the byte commit that both end well leave equal flash and equal shadow RAM if they took the same old bank, stored the same checksum and both or neither erase was done; good reads give the first two |
| Ich8Nvm.Nvm.DetectBank | caratCOP/e1000e-test/ich8lan.c:3235-3265 | the byte-read detection returns the active bank, and an error with bank 0 exactly when a read failed or no signature is valid |
| Ich8Nvm.Nvm.DetectBankSpt | caratCOP/e1000e-test/ich8lan.c:3189-3220 | the dword-read detection has the same contract |
| Ich8Nvm.Nvm.Read | caratCOP/e1000e-test/ich8lan.c:3370-3419 | rejects exactly the ranges outside the shadow RAM and the empty one; otherwise success returns the overlay of the shadow words and the bank taken, failure means a failed read cycle, and the bank taken is the active one, or bank 0 if a read cycle failed |
| Ich8Nvm.Nvm.ReadSpt | caratCOP/e1000e-test/ich8lan.c:3277-3359 | the read of the dword-read parts, with the same contract, except that a pair of words follows the modified flag of its first word |
| NvmTheorems.SptReadExactIff | caratCOP/e1000e-test/ich8lan.c:3312-3349 | for any bank taken it returns the overlay over that bank, whatever the flash holds, if and only if the two flags of each pair are equal; a single word always reads right |
| Ich8Nvm.Nvm.ReadPair | caratCOP/e1000e-test/ich8lan.c:3332-3348 | what one round of its loop returns |
| Ich8Nvm.Nvm.ReadOne | caratCOP/e1000e-test/nvm.c:551-559 | without read errors one word is read through the overlay, on either kind of part |
| Ich8Nvm.Nvm.Write | caratCOP/e1000e-test/ich8lan.c:3764-3787 | rejects exactly the same ranges; otherwise the words and their modified flags are stored and nothing else changes |
| Ich8Nvm.Nvm.UpdateChecksum | caratCOP/e1000e-test/nvm.c:577-597 | stores at word 0x3F the complement to 0xBABA of the words before it, as read through the overlay |
| Ich8Nvm.Nvm.ValidateChecksum | caratCOP/e1000e-test/nvm.c:546-567 | fails exactly when words 0..0x3F, read through the overlay, do not sum to 0xBABA |
| Ich8Nvm.Nvm.WriteFlashByte | caratCOP/e1000e-test/ich8lan.c:4228-4288 | one call repeats its cycle after an error, up to ten times, and fails exactly if all eleven end with an error or one cannot be started or does not end; every content on the way is within what one failed cycle can do to the addressed byte, and on success the byte has been ANDed in |
| Ich8Nvm.Nvm.RetryWriteByte | caratCOP/e1000e-test/ich8lan.c:4434-4455 | the same over up to 101 such calls; it gives up only after as many failed calls |
| Ich8Nvm.Nvm.WriteFlashDword | caratCOP/e1000e-test/ich8lan.c:4316-4372 | the same for two words at once |
| Ich8Nvm.Nvm.RetryWriteDword | caratCOP/e1000e-test/ich8lan.c:4400-4423 | the same for two words at once |
| Ich8Nvm.Nvm.EraseBank | caratCOP/e1000e-test/ich8lan.c:4509-4566 | repeats the erase of one sector up to ten times; it fails exactly if a cycle cannot be started or does not end; only the success of a cycle changes the flash, and exactly after ten errors it returns as if it had been done |
| Ich8Nvm.Nvm.CopyWords | caratCOP/e1000e-test/ich8lan.c:4001-4048 | success means that every word, with the signature at 11b, is ANDed into the new bank; if that was erased it holds the complete image and every flash content on the way is a crash point |
| Ich8Nvm.Nvm.CopyDwords | caratCOP/e1000e-test/ich8lan.c:3840-3891 | the same for the dword loop |
| Ich8Nvm.Nvm.SwitchBanks | caratCOP/e1000e-test/ich8lan.c:4050-4075 | sealing the new signature and retiring the old one ends in the committed flash and, with the bank erased, passes through crash points only |
| Ich8Nvm.Nvm.SwitchBanksSpt | caratCOP/e1000e-test/ich8lan.c:3893-3924 | the same for the dword read-modify-writes |
| Ich8Nvm.Nvm.ClearShadow | caratCOP/e1000e-test/ich8lan.c:4077-4081 | every shadow entry is unmodified and holds 0xFFFF |
| Ich8Nvm.Nvm.Commit | caratCOP/e1000e-test/ich8lan.c:3961-4099 | the whole commit: the bank taken is 0 or the active one, and the active one if the reads that looked for it were good; the checksum is stored before anything is erased; the erase is passed over exactly if ten erase cycles ended with an error, and otherwise the trail consists of crash points; it fails only for a failed read, a stuck cycle or 1111 errors in programming; success means the committed flash and a clear shadow RAM, failure leaves the shadow RAM with the new checksum or untouched |
| Ich8Nvm.Nvm.CommitSpt | caratCOP/e1000e-test/ich8lan.c:3800-3948 | the same contract for the dword commit |
| FlashHardware.FlashPart.ProgramWord | caratCOP/e1000e-test/ich8lan.c:4228-4271 | one program cycle clears bits inside one word only; a failed one may have landed |
| FlashHardware.FlashPart.ProgramDword | caratCOP/e1000e-test/ich8lan.c:4316-4354 | one program cycle over two words |
| FlashHardware.FlashPart.Erase | caratCOP/e1000e-test/ich8lan.c:4510-4548 | one erase cycle sets one sector of a bank to all ones or changes nothing |
| Semaphore.MutualExclusion | caratCOP/e1000e-test/80003es2lan.c:273-330 | in every reachable state of any number of drivers and the firmware no resource has two owners, and a SW_FW_SYNC bit is set exactly while its owner holds it |
| Semaphore.WritesOnlyItsMask | caratCOP/e1000e-test/80003es2lan.c:285-330 | the write that ends a release clears exactly the bits of its mask, the write that ends an acquire sets exactly its own, and the other half of the register is left alone |
| Semaphore.ReturnDropsSemaphore | caratCOP/e1000e-test/80003es2lan.c:278-311 | every return of acquire or release leaves both SWSM bits clear and no driver inside its section, unless the caller never got SMBI |
| Semaphore.RunKeeps | caratCOP/e1000e-test/80003es2lan.c:273-330 | the invariant behind these holds in every state of every interleaving |
| Semaphore.DriverKeeps | caratCOP/e1000e-test/mac.c:1354-1410 | every single register access of a driver keeps it |
| Semaphore.FirmwareKeeps | caratCOP/e1000e-test/mac.c:1373-1385 | every step of the firmware keeps it |
| Semaphore.OtherStep | caratCOP/e1000e-test/mac.c:1354-1410 | a step of one driver leaves every other driver's claims intact |
| SemaphoreRuns.FreeMaskIsGranted | caratCOP/e1000e-test/80003es2lan.c:284-311 | a driver that reads SW_FW_SYNC for an acquire while no bit of its own mask is set in either half, or for a release, sets or clears exactly its mask with its next step and returns two steps later with the mask granted or given back, whatever the others do meanwhile and whatever other bits are set |
| SemaphoreRuns.AcquireReturns | caratCOP/e1000e-test/80003es2lan.c:278-305 | in every interleaving an acquire returns with its mask granted, or with nothing changed because SMBI was set at each of its timeout readings, or SWESMBI had not latched at any of its timeout looks, or a bit of its own mask was set at each of its 50 readings |
| SemaphoreRuns.ReleaseReturns | caratCOP/e1000e-test/80003es2lan.c:321-331 | a release returns only with its mask given back |
| RegionTree.LookupAgreesIff | caratCOP/carat-cop.c:85-105 | the walk agrees with a linear scan on every tree with a given in-order sequence, whatever its shape, if and only if no region starts inside an earlier one |
| RegionTree.WalkFinds | caratCOP/carat-cop.c:88-104 | for such sequences the walk returns the region containing the address, or nothing |
| RegionTree.ShapeMatters | caratCOP/carat-cop.c:95-101 | with a region starting inside an earlier one two shapes of the same tree answer differently |
| RegionTree.ScanIsUnique | caratCOP/carat-cop.c:85-105 | in separate regions at most one contains an address |
| RegionTree.ContainsIff | caratCOP/carat-cop.c:91-99 | the 64-bit end is the mathematical end exactly when the region is empty or does not reach the top of the address space; a region that does contains nothing |
| RegionTree.CheckProtectionsIff | caratCOP/carat-cop.c:167-170 | the mask test says that no requested bit is missing from the granted ones |
| RegionTree.ScanWithout | caratCOP/carat-cop.c:132-140 | removing a region changes the answers inside it and no others |
| RegionTree.Policy.LookupRegion | caratCOP/carat-cop.c:85-105 | the pointer-chasing loop computes the walk, and on separate regions what a scan finds |
| RegionTree.Policy.InsertRegion | caratCOP/carat-cop.c:107-130 | inserts at the ordered place exactly when no region has this start; otherwise the tree is untouched |
| RegionTree.Policy.DeleteRegion | caratCOP/carat-cop.c:132-140 | deletes exactly the region the lookup finds; every address outside it is then answered as before and none inside it has a region |
| RegionTree.Policy.ListToTree | caratCOP/carat-cop.c:153-165 | from an empty tree the result holds exactly the first entry of each start address |
| RegionTree.Policy.TexasGuard | caratCOP/carat-cop.c:175-194 | the verdict reported follows from the one region containing the address, and nothing changes |
| GuardTheorems.InstrumentedRunIsOriginal | pass/Pass.cpp:111-206 | every run of the instrumented program is a run of the original with the guard calls as stutters: same memory, same stack, same log once guards are erased |
| GuardTheorems.OriginalRunIsInstrumented | pass/Pass.cpp:111-206 | every run of the original has such an instrumented run |
| GuardTheorems.EveryAccessGuarded | pass/Pass.cpp:128-179 | in every run each load or store whose pointer no chain of GEPs and bitcasts leads to an alloca and is not itself a malloc or calloc result comes at once after a guard call with its address and flag (1 for a load, 2 for a store), and no guard call stands anywhere else |
| GuardTheorems.GuardStep | pass/Pass.cpp:194-206 | an inserted instruction always runs and leaves the original where it was |
| GuardTheorems.OwnStep | pass/Pass.cpp:194-206 | the original's own instruction does the same in both programs |
| GuardTheorems.PassInput | pass/Pass.cpp:103-109 | what the pass accepts satisfies the assumptions of these theorems |
| GuardPass.BasePointer | pass/Pass.cpp:118-125 | the loop ends at the root of the GEP/bitcast chain |
| GuardPass.RootIff | pass/Pass.cpp:118-138 | the root of the chain is an alloca exactly when some chain of GEPs and pointer bitcasts leads from the pointer to one |
| GuardPass.MustGuardIff | pass/Pass.cpp:128-158 | which accesses are guarded, said of the defining instructions alone; a GEP of a malloc result is guarded |
| GuardPass.ChooseGuard | pass/Pass.cpp:118-158 | a guard record is made exactly for the accesses that must be guarded, with pointer and flag |
| GuardPass.CollectBlock | pass/Pass.cpp:162-179 | adds exactly the guards of one block's accesses |
| GuardPass.CollectFunc | pass/Pass.cpp:111-179 | the guards of one function, whatever the order in which its blocks are visited |
| GuardPass.RunOnModule | pass/Pass.cpp:105-206 | the module after the pass is the instrumented module whatever the iteration order of either map: in each block the source instructions are kept in order, and directly in front of an access there is a guard with its own pointer and flag, behind its cast if the pointer is no i8*, if and only if no chain of GEPs and bitcasts leads from the pointer to an alloca and the pointer is not itself a malloc or calloc result; nothing else is inserted |
| GuardPass.InsertOne | pass/Pass.cpp:194-206 | inserting one more guard before its access, at any place in a block already partly instrumented, is one more access done |
| TxMachine.RingInvariant | caratCOP/e1000e-test/netdev.c:1213-1297 | in every state of every interleaving of transmit, cleaner and hardware: the ring is cut into whole packets, each first slot watches its last, only ends of completed packets carry a status, free slots carry no mapping; free plus in flight (up to the published next_to_clean) is count - 1; the mappings made and not undone are exactly those in the slots |
| TxMachine.MappedOnceUnmappedOnce | caratCOP/e1000e-test/netdev.c:1060-1083 | every unmapping undoes a mapping made and not undone before, and every mapping is new |
| TxMachine.NoLostWakeup | caratCOP/e1000e-test/netdev.c:1262-1279 | with both sides idle, a stopped queue has a descriptor in flight |
| TxMachine.CleanerSeesCompletion | caratCOP/e1000e-test/netdev.c:1228-1232 | whenever the cleaner looks while the oldest packet is complete it takes it |
| TxMachine.RoomSuffices | caratCOP/e1000e-test/netdev.c:5866-5885 | in every interleaving at least three descriptors are free once a packet is queued |
| TxMachine.RefusedOnlyIfFull | caratCOP/e1000e-test/netdev.c:5778-5808 | in every interleaving a packet taken up is put back only if, at the second look too, fewer descriptors were free than it reserves and two more |
| TxMachine.StoppedOnlyIfShort | caratCOP/e1000e-test/netdev.c:5801-5808 | the queue is stopped exactly when less room is found than asked for |
| TxMachine.LeftStoppedOnlyIfShort | caratCOP/e1000e-test/netdev.c:1262-1279 | a cleaner that reclaimed something leaves the queue stopped only if it found fewer than 32 descriptors free |
| TxMachine.RunKeeps | caratCOP/e1000e-test/netdev.c:5778-5808 | the invariant of the interleavings: room, status, watch links, stop/wake handshake |
| TxMachine.TxKeeps | caratCOP/e1000e-test/netdev.c:5578-5738 | every step of the transmit path keeps it |
| TxMachine.CleanerKeeps | caratCOP/e1000e-test/netdev.c:1228-1279 | every step of the cleaner keeps it |
| TxMachine.HardwareKeeps | caratCOP/e1000e-test/netdev.c:1231-1232 | completing the next packet keeps it |
| TxRing.TxRing.Xmit | caratCOP/e1000e-test/netdev.c:5829-5954 | nothing is done for an empty packet; busy exactly when fewer than the reserved count + 2 descriptors are free; dropped exactly when one mapping failed, piece m; otherwise one packet is queued behind its context: its slots hold mapped pieces in strictly increasing order of part and offset, each inside its part and within the limit, and each byte of head and fragments is in exactly one of them; at least three descriptors stay free and the queue is stopped if the next packet may not fit. The ring is in order afterwards if and only if a queued packet had a non-empty head and a dropped one had m = 0 |
| TxRing.TxRing.SendOrDrop | caratCOP/e1000e-test/netdev.c:5916-5954 | the packet becomes one more unit of the ring, or its slots are given back; the same equivalence |
| TxRing.PublishBreaks | caratCOP/e1000e-test/netdev.c:5619-5624 | why an empty head breaks the ring: the fragment loop leaves a slot out, and the last piece ends up mapped in a slot that counts as free |
| TxRing.NoBytes | caratCOP/e1000e-test/netdev.c:5829-5832 | a packet has no pieces exactly when it has no bytes |
| TxRing.Drop | caratCOP/e1000e-test/netdev.c:5950-5954 | giving the slots back restores the invariant if and only if no piece had been mapped: with m > 0 the first slot counts as free and is still mapped |
| TxRing.DropOutstanding | caratCOP/e1000e-test/netdev.c:5654-5672 | of the m pieces mapped before the failure exactly the first is never unmapped |
| TxRing.TxRing.Unwind | caratCOP/e1000e-test/netdev.c:5654-5672 | the error path undoes the mappings of pieces 1 to m - 1 and no others |
| TxRing.TxRing.MapOne | caratCOP/e1000e-test/netdev.c:5594-5603 | one slot gets one new mapping, or none exactly if mapping fails |
| TxRing.TxRing.TxMap | caratCOP/e1000e-test/netdev.c:5578-5672 | the slots behind the context, and behind one left out if the head is empty, hold exactly the pieces of head and fragments, in order, each mapped, and the first slot of the packet watches the last; or mapping piece m failed and the error path has run |
| TxRing.TxRing.MapHead | caratCOP/e1000e-test/netdev.c:5590-5616 | the head loop maps exactly the pieces of the head and ends on the last slot used, or stops on the slot whose mapping failed |
| TxRing.TxRing.MapFrag | caratCOP/e1000e-test/netdev.c:5618-5647 | the same for one fragment, where the index moves on first |
| TxRing.TxRing.TxQueue | caratCOP/e1000e-test/netdev.c:5712-5738 | the written descriptors have no status, the packet becomes visible as one unit, and the ring is in order exactly when no slot was left out |
| TxRing.TxRing.TxContext | caratCOP/e1000e-test/netdev.c:5499-5521 | a context takes one slot that watches itself and maps nothing |
| TxRing.TxRing.CleanTx | caratCOP/e1000e-test/netdev.c:1213-1297 | reclaims exactly the completed packets, undoing exactly their mappings, and wakes the queue exactly when something was cleaned, 32 descriptors are free and the device is up |
| TxRing.TxRing.CleanPacket | caratCOP/e1000e-test/netdev.c:1237-1256 | the inner loop stops behind the descriptor that was found done |
| TxRing.TxRing.PutTxbuf | caratCOP/e1000e-test/netdev.c:1060-1083 | undoes the mapping of the oldest slot, if it has one, and no other |
| TxRing.TxRing.HardwareCompletes | caratCOP/e1000e-test/netdev.c:1231-1232 | the hardware reports the next packet in its last descriptor |
| TxRing.TxRing.StopTx | caratCOP/e1000e-test/netdev.c:5778-5799 | the queue ends up stopped exactly when there is still no room |
| TxRing.TxRing.MaybeStopTx | caratCOP/e1000e-test/netdev.c:5801-5808 | busy exactly when there is no room |
| TxRing.PiecesTile | caratCOP/e1000e-test/netdev.c:5590-5611 | a part is cut into ceil(length / limit) pieces, none empty or above the limit, following one another without gap or overlap to its end |
| TxRing.EveryByteOnce | caratCOP/e1000e-test/netdev.c:5590-5611 | every byte of a part lies in exactly one piece |
| TxRing.PacketCarried | caratCOP/e1000e-test/netdev.c:5590-5647 | over the whole packet: each byte of the head and of each fragment lies in exactly one piece, no piece has another part or leaves its part, and the pieces are in strictly increasing order of part and offset |
| TxRing.CountIs | caratCOP/e1000e-test/netdev.c:5871-5878 | a packet has as many pieces as the reservation counts for head and fragments |
| TxRingSpec.StatusMeansPacketEnd | caratCOP/e1000e-test/netdev.c:1228-1232 | a set status bit is always the end of a completed packet, so cleaning up to it takes whole packets, whatever index was read |
| TxRingSpec.CompletionSeen | caratCOP/e1000e-test/netdev.c:1227-1229 | a completed oldest packet is never overlooked |
| RingIndex.UnusedIsFree | caratCOP/e1000e-test/netdev.c:470-476 | free plus in flight is the ring size less one |
| RingIndex.NextPos | caratCOP/e1000e-test/netdev.c:1253-1255 | advancing an index with wrap-around follows the position |
| RxRing.RxRing.CleanRx | caratCOP/e1000e-test/netdev.c:926-1052 | for any budget, with the hardware writing on: what has been handed on is what the complete frames taken call for; the work done is the number of descriptors taken, within the budget; below the budget nothing waits; without failures every buffer is given back |
| RxRing.RxRing.Take | caratCOP/e1000e-test/netdev.c:926-1050 | one round takes one descriptor whose buffer is present and mapped, and clears its status; the buffer stays in the slot exactly if it was not itself handed on or freed |
| RxRing.RxRing.PlainDescriptor | caratCOP/e1000e-test/netdev.c:955-1031 | without jumbo frames: the driver hands on exactly what NothingHandedOn and PlainFrame say, and the buffer stays with its slot unless it was itself handed on, small packets being copied if a copy can be had |
| RxRing.RxRing.JumboDescriptor | caratCOP/e1000e-test/netdev.c:1558-1646 | with jumbo frames: descriptors are chained in order up to end-of-packet, an error there drops the whole chain, as NothingHandedOn and JumboFrame say; the skb of the descriptor stays with its slot exactly if it continues a chain or the chain is refused |
| RxRing.RxRing.AllocRxBuffers | caratCOP/e1000e-test/netdev.c:644-706 | gives back n buffers, or fewer exactly if one allocation or mapping fails, at which it stops |
| RxRing.RxRing.Receive | caratCOP/e1000e-test/netdev.c:926-930 | the hardware fills the next descriptor that has a buffer |
| RxFrames.OneCut | caratCOP/e1000e-test/netdev.c:963-983 | there is exactly one way to cut a stream of descriptors into frames, each ending at its first end-of-packet descriptor, and an unfinished rest |
| RxFrames.Snoc | caratCOP/e1000e-test/netdev.c:970-983 | one more descriptor ends the frame begun or belongs to it |
| RxFrames.DeliveredSnoc | caratCOP/e1000e-test/netdev.c:963-1031 | what one more descriptor adds to what is handed on |
| RxFrames.NothingHandedOn | caratCOP/e1000e-test/netdev.c:980-985 | nothing is handed on before a frame ends, nor for a frame whose last descriptor reports an error, unless all frames are wanted; with and without jumbo frames |
| RxFrames.PlainFrame | caratCOP/e1000e-test/netdev.c:962-1031 | without jumbo frames the end of a frame of several descriptors adds nothing, and a good frame in one descriptor adds exactly one packet with its bytes and its length less the CRC, unless that is stripped already or kept |
| RxFrames.JumboFrame | caratCOP/e1000e-test/netdev.c:1560-1646 | with jumbo frames a good frame of 14 bytes or more adds exactly one packet with the bytes of all its descriptors in order, a shorter one nothing |
| RxFrames.CallsAddUp | caratCOP/e1000e-test/netdev.c:926-930 | what a later call hands on depends only on the frame begun and what came since: the result is the same however budgets split the calls |
| RxFrames.NoByteLost | caratCOP/e1000e-test/netdev.c:1570-1630 | with jumbo frames and no frame refused every byte is handed on or kept for the frame begun, once and in order |
| RxFrames.CrcCut | caratCOP/e1000e-test/netdev.c:992-1002 | the length handed on is within the buffer exactly when the frame is long enough to hold the CRC that is cut |
| SpiEeprom.Eeprom.ShiftOut | caratCOP/e1000e-test/nvm.c:46-75 | the part clocks in exactly the low count bits, highest first |
| SpiEeprom.Eeprom.ShiftIn | caratCOP/e1000e-test/nvm.c:88-112 | the value returned has the bits of the line, first one highest |
| SpiEeprom.Eeprom.Standby | caratCOP/e1000e-test/nvm.c:182-198 | the instruction so far is acted on and a new one begins |
| SpiEeprom.Eeprom.Ready | caratCOP/e1000e-test/nvm.c:241-280 | polling the status changes nothing in the part; it ends at the first answer with bit 0 clear and fails exactly when 5000 answers had it set |
| SpiEeprom.Eeprom.Release | caratCOP/e1000e-test/nvm.c:206-216 | deselecting ends the instruction |
| SpiEeprom.Eeprom.SendBurst | caratCOP/e1000e-test/nvm.c:374-396 | one WRITE instruction programs the data words up to the end of the page or of the data, plainly |
| SpiEeprom.Eeprom.WriteNvm | caratCOP/e1000e-test/nvm.c:335-400 | fails exactly for a bad range, when access is refused or when the part does not become ready; success means every burst is in place and widx reached words; a failure leaves whole bursts only |
| SpiEeprom.BurstInPage | caratCOP/e1000e-test/nvm.c:382-394 | no burst crosses the end of a page or of the memory |
| SpiEeprom.ProgramInPage | caratCOP/e1000e-test/nvm.c:382-394 | inside one page the part's wrap-around programming is plain writing |
| SpiEeprom.BurstsExact | caratCOP/e1000e-test/nvm.c:350-397 | together the bursts put exactly the data at offset..offset+words and leave the rest |
| SpiEeprom.UpperHalfUntouched | caratCOP/e1000e-test/nvm.c:374-380 | a write to an 8-bit part that starts below word 128 never reaches the upper half |
| SpiEeprom.WriteExactIff | caratCOP/e1000e-test/nvm.c:374-380 | a successful write is exact for every memory and data if and only if the part has 16-bit addresses or the range does not cross word 128 |
| SpiEeprom.BurstLands | caratCOP/e1000e-test/nvm.c:377-394 | the bits of the instruction make the part program the words of the burst |
| SpiBits.RoundTrip | caratCOP/e1000e-test/nvm.c:46-112 | sending and receiving c bits is taking the value modulo 2^c |
| EepromBytes.GetEeprom | caratCOP/e1000e-test/ethtool.c:500-555 | returns exactly the bytes of the flat view at any offset and length, or all ones exactly if a read fails; the other results exactly for no bytes and no memory |
| Bytes.FlatIsLittleEndian | caratCOP/e1000e-test/ethtool.c:541-547 | the byte view is little-endian: a word is its first byte and 256 times its second |
| EepromBytes.WriteBytes | caratCOP/e1000e-test/ethtool.c:557-618 | changes exactly the given bytes, odd or even, single-byte and same-word cases included; each error is returned exactly in its case |
| EepromBytes.UpdateChecksum | caratCOP/e1000e-test/nvm.c:577-597 | word 0x3F, and no other, receives the value that brings the sum of words 0 to 0x3F to 0xBABA in 16 bits |
| EepromBytes.SetEeprom | caratCOP/e1000e-test/ethtool.c:557-635 | the bytes are changed, and if the first word written is at most 0x3F or the part asks for it the checksum word is then completed; success means that both were done, and each error is returned exactly in its case |
| EepromBytes.ReadEdges | caratCOP/e1000e-test/ethtool.c:589-602 | reads back the outer bytes that must survive |
| EepromBytes.ReadWords | caratCOP/e1000e-test/ethtool.c:525-539 | the words read in one go or one by one are the same bytes |
| EepromBytes.RoundTrip | caratCOP/e1000e-test/ethtool.c:500-635 | what was set is what is got, but for the bytes of the checksum word when it has been updated |
| HostInterface.CalculateChecksum | caratCOP/e1000e-test/manage.c:14-26 | the checksum brings the sum of the bytes to 0 modulo 256 |
| HostInterface.HostIf.Write | caratCOP/e1000e-test/manage.c:181-239 | rejects exactly empty and too long data; runs away exactly when an unaligned write ends inside its first dword; otherwise the data is at its offset, the rest of the last dword is zero, all else is kept, and the sum has grown by the data |
| HostInterface.HostIf.WriteWhole | caratCOP/e1000e-test/manage.c:201-225 | with the 16-bit length as the code computes it: everything before the last incomplete dword is in place, or the loop leaves the buffer or the RAM, exactly in the case above |
| HostInterface.HostIf.Gather | caratCOP/e1000e-test/manage.c:204-237 | one dword takes the next bytes and zeros behind them |
| HostInterface.HostIf.WriteCmdHeader | caratCOP/e1000e-test/manage.c:150-168 | the header with its checksum completed goes to the start of the RAM |
| HostInterface.WriteDhcpInfo | caratCOP/e1000e-test/manage.c:249-282 | header and payload sum to 0 modulo 256, the payload follows the header, and the firmware is told |
| HostInterface.CommandSum | caratCOP/e1000e-test/manage.c:255-275 | why: the header starts out with the sum of the payload in its checksum byte |
| HostInterface.ShortUnalignedWrite | caratCOP/e1000e-test/manage.c:199-213 | the 16-bit length left after an unaligned first dword is the true one if the write reaches the end of that dword, and more than the RAM holds if not |
| Ltr.Scale | caratCOP/e1000e-test/ich8lan.c:1050-1053 | the loop ends with a value of at most 1023 that is the latency rounded up to the unit of the scale, and the scale is the least possible |
| Ltr.ScaleFits | caratCOP/e1000e-test/ich8lan.c:1054-1057 | for 32-bit latencies the error path is never taken |
| Ltr.LatencyEncoded | caratCOP/e1000e-test/ich8lan.c:1042-1078 | the latency written is the tolerance rounded up at the least scale that fits, or the platform maximum exactly if the 32-bit decode of the former is above that of the latter; it decodes to at most a platform maximum of scale 6 or less if and only if the tolerance decodes within 32 bits or the maximum does not |
| Ltr.ToleranceIsTime | caratCOP/e1000e-test/ich8lan.c:1045-1048 | the tolerance is the time in which a buffer of rxa KB fills up beyond two frames at 10, 100 or 1000 Mb/s, and 0 if it holds no more |
| Ltr.WhenDecodeFits | caratCOP/e1000e-test/ich8lan.c:1067-1070 | the encoded tolerance decodes within 32 bits except at scale 5 above 127 units |
| Ltr.LatencyAboveMaximum | caratCOP/e1000e-test/ich8lan.c:1042-1078 | at 10 Mb/s with 5240 KB of receive buffer and a maximum frame of 1518 the latency written is above every 32-bit platform maximum |
| Ltr.WrappedTolerance | caratCOP/e1000e-test/ich8lan.c:1050-1070 | how: the tolerance of 4290179200 ns is encoded as 128 units of 2^25, which decodes to 2^32 |
| Ltr.CeilDivTwice | caratCOP/e1000e-test/ich8lan.c:1050-1053 | rounding up by 32 again and again is rounding up once |
| Systim.ReadSystim | caratCOP/e1000e-test/netdev.c:4399-4417 | the combined value is one the counter held at a register read of this call |
| Systim.NotTorn | caratCOP/e1000e-test/netdev.c:4403-4417 | which of the four reads it is |
| Systim.NeverTornIff | caratCOP/e1000e-test/netdev.c:4403-4415 | no read is ever torn if and only if the counter advances by at most 2^24 between two reads |

## Left out

- Erase: one sector no larger than a bank, and a single cycle that reports success is real. The 256-byte-sector erase, whose addresses are not consecutive (`caratCOP/e1000e-test/ich8lan.c:4546`), is not modelled; nor is an erase cut short by power loss.
- EraseBank: which flash contents a commit passes through after an erase that was not done is not stated, only what it leaves when it ends well.
- CommitBothWays: relates two runs that both end well; runs that fail have the common contract of Commit and CommitSpt.
- Flash cycles: the register polling of one cycle, and the repetition of a read cycle, is one step. The protected-range setting, acquire and release around NVM operations and the reload after a commit are not modelled.
- Bank choice from EECD on ich8 and ich9 (`caratCOP/e1000e-test/ich8lan.c:3222-3233`), which depends on a register the hardware maintains.
- Semaphore: the masks are sets of bit numbers. The endless retry of release is modelled; that it ends is not claimed. The semaphore of the 82571, which goes on after a timeout, is not part of this model.
- Rebalance: any rotations stand for the kernel's colour fix-ups, and RbErase for its unlink; the tree is a value, so sharing of nodes and freeing of memory are not captured. procfs input and output and the allocation of nodes are left out.
- RunOnModule: LLVM outside the small intermediate representation (atomics, memory intrinsics, vectors, metadata), functions that are only declared, and the metrics printed. GEP/bitcast chains are assumed to end.
- Xmit: the packet fits the ring, as the source asserts (`caratCOP/e1000e-test/netdev.c:5803`). Flags, timestamps, padding and the pull of payload for TSO are left out.
- TxKeeps: in the interleaved model mapping always succeeds and no packet has an empty head; TxRing has both cases, and Drop and PublishBreaks say when they leave the ring in order.
- TxMachine: accesses are sequentially consistent at the barriers the code has. The hardware may complete any queued packet; the write of the tail register is not modelled. The carrier is on and the device is not going down.
- CleanTx: byte and packet counts and the hang detection are left out.
- CleanRx: checksum, hash, VLAN and timestamp hints of a packet, the packet-split variant and the statistics are left out; the tail register is not modelled, so the hardware may fill any descriptor that has a buffer.
- PlainDescriptor: a frame shorter than the CRC to be cut gets the wrapped 32-bit length the code computes; what the kernel does with such a length is not modelled.
- JumboDescriptor: a chain may have any number of pages; the kernel's limit on fragments and failing allocations while pulling the header are not modelled. Pages and copies of small packets are not distinguished from the bytes they hold.
- WriteNvm: the time the part needs for programming is hidden behind the polling of its status.
- SetEeprom: the range is within the part, as the ethtool core checks before; the commit that ends the checksum update on parts with shadow RAM is that of Ich8Nvm and is not repeated here. The host is little-endian.
- WriteWhole: what the loop leaves in the RAM on its way out of it is not stated.
- LatencyEncoded: for a platform maximum of scale 7 the 32-bit shift is undefined; the model lets its decode be any number and does not compare with it.
- ReadSystim: the value before it is sanitised, on a counter that does not wrap 2^64.
- Timers, power management, interrupts, probe and remove, PHY scripts, statistics, option parsing and `ptp.c` are sequences of register accesses or table look-ups without an invariant of their own.
