# OpenASD: verified models of kernel algorithms

A Dafny 4.11 model of the algorithmic core of the OpenASD kernel and its init: cryptography over limbs, the scheduler's
red-black run queues, the buddy allocator and the page tables above it, the FFS file system on blocks and bytes, the
shared-memory ring, TCP reception, service start order and the passwd file. Arrays, counters, bitmaps and tables are
updated in place where the C code does so; every such method is proved against a mathematical specification, and the
promises of the code are lemmas about that specification.

`dafny verify dfyconfig.toml` checks the whole project.

| module | models |
|---|---|
| Bits | bytes, powers of two, the bitwise operators of C on natural numbers |
| Rfc7748, Field25519, X25519 | X25519 of kernel/net/tls.c against section 5 of RFC 7748 |
| MontgomeryLadder | what that section computes: a multiple of the point |
| Rfc8439, Poly1305 | Poly1305 of kernel/net/tls.c against section 2.5 of RFC 8439 |
| PolyLaws | what that section computes: a polynomial at the clamped key |
| Fips180, Sha256 | the streaming SHA-256 of kernel/net/tls.c against sections 5.1.1 and 6.2 of FIPS 180-4 |
| FipsLaws | what the functions and constants of FIPS 180-4 are, bit by bit and number by number |
| RbTree, RbHeap, RbSteps, RbDelete, RbSplice, RbCode | the red-black tree of kernel/sched/sched.c |
| RunQueue | run queues and work stealing of kernel/sched/sched.c |
| BuddyTiling, BuddyAllocator | the physical page allocator of kernel/mm/mm.c |
| PageMemory, PageTables, AddressSpace | page tables and address spaces of kernel/mm/mm.c, on top of the allocator |
| Bitmap, FfsModel, FfsSpace, FfsRelease, FfsVolume | blocks, files and free space of kernel/vfs/ffs.c |
| FfsDir, FfsDirectory, FfsInodes, FfsFormat | its directories, inode bitmap and formatting |
| FfsFiles, FfsRun, FfsFull | runs of file operations on it, as a map from names to contents, and what happens when it is full |
| RingProtocol, RingBuffer | the single-producer single-consumer ring of kernel/ipc/ringbuf.h |
| TcpReceive | the receive path of kernel/net/net.c |
| ServiceWaves | service waves of init/svcmgr.c |
| Passwd, PasswdFile | the user table file of kernel/usr/usr.c |

Five promises turn out not to hold as they stand. In each case the model keeps the code as it is, an input shows the
failure, and the exact condition is proved:

- The Poly1305 tag is the one of RFC 8439 if and only if the accumulator after the final carry is below 2^130 - 5. The
  conditional subtraction (kernel/net/tls.c:224) selects the two low limbs only. `Poly1305.WrongTag` gives a key and a
  16-byte message with accumulator 2^130 - 3, for which the tag differs.
- On a sound volume of FFS the block allocator never reports that the volume is full, and it returns a block inside the
  partition if and only if `free_blocks` is not zero: the bitmap has bits beyond the end of the partition
  (kernel/vfs/ffs.c:146-156). `FfsFull.Overrun` formats 32 blocks, fills them with one write and gets a block behind them.
  A write or a new directory entry stays inside exactly if the blocks it lacks are at most `free_blocks`; giving a file's
  blocks back keeps ownership and `free_blocks` exact exactly if they all lie inside.
- A written user table is restored by loading it after `usr_init` if and only if its first entry is the built-in root
  account, up to salt and hash, and every entry has at most one flag: a later line never changes more of root
  (kernel/usr/usr.c:391-401), and only one flag is written (kernel/usr/usr.c:453-455). `Passwd.ShellOfRoot` and
  `Passwd.TwoFlags` are examples. Tables the kernel builds have that first entry (`Passwd.BuiltRoundTrip`).
- User numbers in the file stand for the same account if and only if they agree in their low 16 bits, since they are cast to
  16 bits (kernel/usr/usr.c:379-380). `Passwd.AliasOfRoot` is a line for number 65536 that sets the salt and hash of root.
- End of file on a TCP connection means that the whole stream was handed out if and only if the FIN was the next in order:
  it is taken whatever its sequence number (kernel/net/net.c:734-739). `TcpReceive.EarlyEnd` is a connection that ends
  without a byte.

Two idioms recur. A definition under a quantifier with trigger `Bits.Folded(n)`, or another such key, stays folded in proofs
that do not mention the key. Linked structures are value heaps, indexed by node number, with the tree they stand for as a ghost argument.

## Model

| member | source | states |
|---|---|---|
| X25519.X25519 | kernel/net/tls.c:432-458 | for every scalar and point the 32 output bytes are the canonical encoding of the ladder result of RFC 7748 modulo 2^255 - 19 |
| MontgomeryLadder.ScalarMultiple | kernel/net/tls.c:432-458 | for every scalar and point X25519 is the affine coordinate of a multiple whose number is the clamped scalar, reached by doublings and by sums of multiples that differ by the point |
| MontgomeryLadder.StepDoubles | kernel/net/tls.c:443-453 | new x2 and z2 are (x^2 - z^2)^2 and 4xz(x^2 + 486662xz + z^2) modulo p: doubling on y^2 = x^3 + 486662x^2 + x |
| MontgomeryLadder.StepAdds | kernel/net/tls.c:443-453 | new x3 and z3 are 4(x2 x3 - z2 z3)^2 and 4 x1 (x2 z3 - z2 x3)^2 modulo p: differential addition |
| MontgomeryLadder.RunReaches | kernel/net/tls.c:438-455 | after the bits down to t the state, but for a pending swap, holds the multiples k >> t and (k >> t) + 1 |
| MontgomeryLadder.ClampValue | kernel/net/tls.c:433-434 | the clamped scalar is a multiple of 8 from 2^254 up to 2^255 whose bits 3 to 253 are those given |
| X25519.ClampScalar | kernel/net/tls.c:433-434 | the copied scalar is clamped as RFC 7748 demands |
| X25519.ScalarBit | kernel/net/tls.c:440 | the bit taken from byte t / 8 is bit t of the scalar as an integer |
| X25519.SwapStep | kernel/net/tls.c:440-453 | one turn of the ladder: swap by the changed bit, then the RFC step, with limb bounds kept |
| X25519.LadderStep | kernel/net/tls.c:443-453 | the fourteen field operations compute the RFC ladder step and return limbs within the bounds they started from |
| X25519.Climb | kernel/net/tls.c:438-455 | all 255 turns and the last swap equal the ladder of RFC 7748 |
| X25519.FeInvert | kernel/net/tls.c:375-406 | the addition chain raises to the power p - 2 |
| X25519.FeSq | kernel/net/tls.c:374 | doubles the exponent of a power |
| X25519.Affine | kernel/net/tls.c:456-457 | the quotient of the projective coordinates, encoded |
| Field25519.FeMul | kernel/net/tls.c:347-373 | for limbs up to the wide bound no 32-bit or 64-bit value overflows, and the result is congruent to the product with tight limbs |
| Field25519.MulLimbs | kernel/net/tls.c:353-370 | the ten columns and the carries differ from the integer product by a multiple of p |
| Field25519.SumColumn | kernel/net/tls.c:353-362 | a column summed left to right stays in 64 bits and is the mathematical column |
| Field25519.CarryFront | kernel/net/tls.c:364-366 | the first six carries keep the value and settle six limbs |
| Field25519.CarryBack | kernel/net/tls.c:367-370 | the two carry chains meet, the top wraps by 19, and every limb ends within the tight bound |
| Field25519.FeMul121665 | kernel/net/tls.c:410-431 | congruent to 121665 times the input, tight limbs |
| Field25519.FeAdd | kernel/net/tls.c:341 | sum modulo p, bounds add |
| Field25519.FeSub | kernel/net/tls.c:342 | difference modulo p, bounds add |
| Field25519.FeCswap | kernel/net/tls.c:343-346 | swaps exactly if the bit is one |
| Field25519.FeLoad | kernel/net/tls.c:291-310 | limbs within bounds whose value is the byte string modulo 2^255 |
| Field25519.FeStore | kernel/net/tls.c:311-340 | the bytes of the canonical representative below p |
| Field25519.Quotient | kernel/net/tls.c:311-340 | the ten-step estimate is the quotient by 2^255 that the last pass needs |
| Field25519.Canonical | kernel/net/tls.c:311-340 | estimate and carry pass give the digits of the value modulo p |
| Poly1305.Mac | kernel/net/tls.c:160-232 | the tag is that of RFC 8439 if and only if the final accumulator is below 2^130 - 5; in every case it is the selected limbs plus the pad |
| PolyLaws.AccumulateIs | kernel/net/tls.c:182-211 | the accumulator is the sum of block j times r^(n - j) modulo 2^130 - 5, each block with a one bit above its last byte |
| PolyLaws.KeyBits | kernel/net/tls.c:169-172 | which bits of the key are kept: the low 28 of each word, without the low two of all words but the first |
| Poly1305.WrongTag | kernel/net/tls.c:218-230 | a key and message whose accumulator is 2^130 - 3, and for which what is emitted is not the tag of RFC 8439 |
| Poly1305.TagIff | kernel/net/tls.c:218-230 | selecting two limbs gives the right tag exactly if nothing had to be subtracted |
| Poly1305.RoundsIs | kernel/net/tls.c:182-211 | after any blocks the limbs are in range and congruent to the accumulator of RFC 8439 |
| Poly1305.FinalIs | kernel/net/tls.c:212-217 | the final carry leaves reduced limbs congruent to the accumulator |
| Poly1305.FinishReduced | kernel/net/tls.c:213-217 | the short carry is enough: a value below 2^130 |
| Poly1305.ClampedIs | kernel/net/tls.c:169-172 | the three masks on limbs are the clamp on the whole number |
| Poly1305.ColumnBounds | kernel/net/tls.c:200-209 | no 128-bit sum and no 64-bit carry overflows |
| Poly1305.Multiply | kernel/net/tls.c:199-209 | one block: add, multiply, carry, against the specification of a round |
| Poly1305.Select | kernel/net/tls.c:218-224 | the mask arithmetic selects as specified, from the sign of h + 5 - 2^130 |
| Poly1305.Emit | kernel/net/tls.c:225-231 | the sixteen bytes are the limbs plus the pad modulo 2^128 |
| Sha256.Sha256 | kernel/net/tls.c:78 | the digest of FIPS 180-4 for every message under 2^64 bits |
| FipsLaws.ChBit | kernel/net/tls.c:40 | each bit is that of f where e has a one, else that of g |
| FipsLaws.MajBit | kernel/net/tls.c:41 | each bit is that of at least two of the three words |
| FipsLaws.RorBit | kernel/net/tls.c:39 | bit t is bit (t + n) modulo 32 |
| FipsLaws.Sum0Bit | kernel/net/tls.c:42 | bit t is the parity of bits t + 2, t + 13 and t + 22, cyclically |
| FipsLaws.Sum1Bit | kernel/net/tls.c:43 | bit t is the parity of bits t + 6, t + 11 and t + 25, cyclically |
| FipsLaws.Sigma0Bit | kernel/net/tls.c:44 | bit t is the parity of bits t + 7 and t + 18, cyclically, and bit t + 3 |
| FipsLaws.Sigma1Bit | kernel/net/tls.c:45 | bit t is the parity of bits t + 17 and t + 19, cyclically, and bit t + 10 |
| FipsLaws.RoundConstant | kernel/net/tls.c:29-38 | constant i is the first 32 bits of the fractional part of the cube root of the prime with i primes below it |
| FipsLaws.InitialWord | kernel/net/tls.c:61-63 | word i is the first 32 bits of the fractional part of the square root of the prime with i primes below it |
| FipsLaws.StepWords | kernel/net/tls.c:54-58 | one step as section 6.2.2 of FIPS 180-4 writes it, in plain sums modulo 2^32 |
| FipsLaws.StepsAre | kernel/net/tls.c:51-58 | the eight variables after t steps are four consecutive words each of two sequences |
| FipsLaws.ScheduleStarts | kernel/net/tls.c:49 | the first sixteen words of the schedule are those of the block, big-endian |
| FipsLaws.ScheduleIs | kernel/net/tls.c:50 | the others follow the recurrence |
| FipsLaws.PadIs | kernel/net/tls.c:70-75 | message, 0x80, zeros and the length in bits as a big-endian number, in as few blocks as possible |
| FipsLaws.DigestIs | kernel/net/tls.c:76 | the digest reads back as the eight words |
| Sha256.Context.constructor | kernel/net/tls.c:61-65 | an empty message |
| Sha256.Context.Snapshot | kernel/net/tls.c:717 | a copied context stands for the same message |
| Sha256.Context.Update | kernel/net/tls.c:66-68 | the message grows by the data, so every way of cutting a message gives the same context |
| Sha256.Context.Feed | kernel/net/tls.c:67 | one byte; a full block is compressed into the hash value of all whole blocks |
| Sha256.Context.Final | kernel/net/tls.c:69-77 | the bytes of the hash of the whole padded message |
| Sha256.Context.Close | kernel/net/tls.c:70-75 | end mark, zeros and length complete exactly the padding of section 5.1.1 of FIPS 180-4, in one block or two |
| Sha256.PadTail | kernel/net/tls.c:71-74 | where the padded message is cut into last blocks |
| Sha256.Transform | kernel/net/tls.c:47-60 | schedule, 64 steps and the sum are the compression function |
| Sha256.Schedule | kernel/net/tls.c:49-50 | the array holds the message schedule |
| Sha256.Emit | kernel/net/tls.c:76 | the eight words, big-endian |
| RbCode.Forest.Insert | kernel/sched/sched.c:93-112 | parent links stay consistent, the in-order sequence gets the node behind all equal keys, colours and black height stay right |
| RbCode.Forest.InsertPoint | kernel/sched/sched.c:98-104 | the search ends at the place behind every node that is not greater |
| RbCode.Forest.InsertFixup | kernel/sched/sched.c:68-91 | terminates, restores red-black order, keeps the in-order sequence and touches no other node |
| RbCode.Forest.InsertStepUncle | kernel/sched/sched.c:72-83 | red uncle, both sides: the violation moves up two levels |
| RbCode.Forest.InsertStepLeft | kernel/sched/sched.c:72-79 | black uncle, parent a left child: the violation is gone |
| RbCode.Forest.InsertStepRight | kernel/sched/sched.c:80-87 | the mirror image |
| RbCode.Forest.RotateLeftAt | kernel/sched/sched.c:44-54 | pointer surgery is the rotation of trees anywhere in the tree |
| RbCode.Forest.RotateRightAt | kernel/sched/sched.c:56-66 | likewise |
| RbCode.Forest.Transplant | kernel/sched/sched.c:121-126 | exactly the links that change |
| RbCode.Forest.RemoveNode | kernel/sched/sched.c:187-223 | exactly that node leaves the sequence; the tree stays red-black |
| RbCode.Forest.Unlink | kernel/sched/sched.c:187-219 | both shapes of removal: at most one black level is missing, at a known place |
| RbCode.Forest.UnlinkInner | kernel/sched/sched.c:197-215 | two children: the successor takes the place and the colour |
| RbCode.Forest.DeleteFixup | kernel/sched/sched.c:128-185 | terminates, never dereferences a missing sibling, restores the black height |
| RbCode.Forest.DeleteStepLeft | kernel/sched/sched.c:130-155 | one turn on the left side: the missing level moves up or is repaired |
| RbCode.Forest.DeleteStepRight | kernel/sched/sched.c:156-181 | the mirror image |
| RbCode.Forest.Leftmost | kernel/sched/sched.c:114-119 | the first node in order |
| RbTree.HeightBound | kernel/sched/sched.c:44-223 | height at most 2 log2(n + 1) in every red-black tree of n nodes |
| RbTree.PlugValid | kernel/sched/sched.c:68-91 | a red-black subtree in a red-black context, root blackened, is a red-black tree |
| RunQueue.Scheduler.Enqueue | kernel/sched/sched.c:394-428 | the process joins the queue of its class on its CPU, the first least loaded one if it has no affinity, behind its equals; no other queue changes |
| RunQueue.Scheduler.PickCpu | kernel/sched/sched.c:395-407 | the affinity if valid, else the first least loaded CPU |
| RunQueue.Scheduler.Dequeue | kernel/sched/sched.c:457-474 | the process with the least priority value in its class, the longest queued of those, while all classes above it are empty; idle and no queue changed exactly if all three are empty |
| RunQueue.Scheduler.Takeoff | kernel/sched/sched.c:431-455 | leaves the queue exactly if it is ready and queued |
| RunQueue.MemberTest | kernel/sched/sched.c:431-455 | the test for a parent or being the root is membership |
| RunQueue.Scheduler.Steal | kernel/sched/sched.c:827-880 | takes half of the busiest other CPU if that exceeds the own load by more than two, else nothing |
| RunQueue.Scheduler.Busiest | kernel/sched/sched.c:828-835 | the first CPU with the greatest non-RT load |
| RunQueue.Scheduler.StealTurn | kernel/sched/sched.c:850-876 | batch first, then interactive; one process moves with its class |
| RunQueue.StealEffect | kernel/sched/sched.c:847-876 | for any number of turns all processes are conserved, RT queues and other CPUs are untouched, loads shift by the number moved |
| RunQueue.StealBalances | kernel/sched/sched.c:847-876 | afterwards the loads differ by what the thief had, give or take one |
| RunQueue.StealOrder | kernel/sched/sched.c:850-876 | for any number of turns: batch processes go first, interactive ones only when none is left, of each class those that would run first |
| RunQueue.PlacedFifo | kernel/sched/sched.c:93-112 | insertion behind equals keeps first-in first-out order within a priority |
| RunQueue.PlacedAt | kernel/sched/sched.c:93-112 | a process is queued behind all that are not less urgent and before the first that is |
| BuddyAllocator.PhysMemory.constructor | kernel/mm/mm.c:52-60 | an empty pool |
| BuddyAllocator.PhysMemory.Alloc | kernel/mm/mm.c:214-241 | fails exactly if no free block is large enough; else the start of one of the smallest that are, as a block of that order made of free pages; free and live blocks still tile the pool |
| BuddyAllocator.PhysMemory.Find | kernel/mm/mm.c:219-221 | the least order with a free block |
| BuddyAllocator.PhysMemory.Split | kernel/mm/mm.c:226-231 | the loop splits down to the requested order and frees the upper halves |
| BuddyAllocator.PhysMemory.Free | kernel/mm/mm.c:243-263 | exactly that block stops being live; the tiling and canonical form are kept |
| BuddyAllocator.PhysMemory.Coalesce | kernel/mm/mm.c:245-261 | merges while the buddy is free, and stops only when it is not |
| BuddyAllocator.PhysMemory.Unlink | kernel/mm/mm.c:250-257 | the walk removes the buddy and nothing else from its list |
| BuddyAllocator.PhysMemory.FreeBlock | kernel/mm/mm.c:132-140 | list, counter and page_info gain the block |
| BuddyAllocator.PhysMemory.PickOrder | kernel/mm/mm.c:142-158 | the highest order that fits and is aligned |
| BuddyAllocator.PhysMemory.FreeRange | kernel/mm/mm.c:142-158 | the pages join the pool; seeded alone, no two blocks could be merged |
| BuddyAllocator.NoStale | kernel/mm/mm.c:245-248 | the test on page_info holds exactly if the buddy is a free block of that order, whatever stale entries lie inside blocks |
| BuddyAllocator.HistoryIndependent | kernel/mm/mm.c:142-263 | what is live determines what is free: two canonical divisions of a pool with the same live pages have the same free blocks |
| BuddyAllocator.Session | kernel/mm/mm.c:142-263 | one range seeded, any sequence of allocations and frees, then everything given back: free blocks and free_pages are those of the seeded range |
| BuddyAllocator.Conserved | kernel/mm/mm.c:214-263 | free_pages plus live pages is the pool |
| BuddyAllocator.GreedyNoMerge | kernel/mm/mm.c:142-158 | greedy seeding leaves no mergeable buddies |
| BuddyTiling.Unique | kernel/mm/mm.c:214-263 | sets of blocks without mergeable buddies that cover the same pages are equal |
| BuddyTiling.Mergeable | kernel/mm/mm.c:214-263 | smaller blocks that cover an aligned block include two buddies |
| BuddyTiling.XorFirst | kernel/mm/mm.c:228-246 | flipping the address bit of the order gives the buddy |
| PageMemory.Memory.Alloc | kernel/mm/mm.c:214-241 | order 0: one free page is taken, only free pages may be written |
| PageMemory.Memory.Release | kernel/mm/mm.c:243-263 | order 0: that page and no other becomes free, only free pages may be written |
| PageMemory.Memory.Counted | kernel/mm/mm.c:52-60 | free_pages is the number of free pages |
| AddressSpace.Create | kernel/mm/mm.c:441-491 | fails exactly if the pool is used up or fewer than three pages are free; else nothing is mapped and the kernel's entries are inherited |
| AddressSpace.Space.Walk | kernel/mm/mm.c:276-312 | the table of a page, with missing tables added; no data page moves; fails only without memory |
| AddressSpace.Space.Descend | kernel/mm/mm.c:281-309 | one level of the walk |
| AddressSpace.Space.MapPage | kernel/mm/mm.c:314-322 | maps that page with those rights and changes no other translation; without a table the page is lost |
| AddressSpace.Space.MapFresh | kernel/mm/mm.c:739-751 | a zeroed free page is mapped, with the tables it needs; memory runs out exactly if fewer pages are free than tables and pages are missing; what is taken is owned or accounted as lost |
| AddressSpace.Space.Populate | kernel/mm/mm.c:761-778 | what was mapped stays, new pages only in the range; all of it is mapped exactly if as many pages are free as tables and pages of the range are missing |
| AddressSpace.Space.Lookup | kernel/mm/mm.c:785-802 | finds exactly the mapped page |
| AddressSpace.Space.Destroy | kernel/mm/mm.c:493-544 | every owned page is freed once, and nothing else is freed or written |
| AddressSpace.Lifetime | kernel/mm/mm.c:441-544 | create, map any distinct user pages, destroy: the free pages and the counter are those before, for every memory with as many free pages as tables and pages are needed |
| AddressSpace.Bystander | kernel/mm/mm.c:441-544 | the tables of other address spaces stay as they are |
| PageTables.DropAll | kernel/mm/mm.c:498-539 | the walk frees all it owns while the tables it still reads are intact |
| PageTables.DropPd | kernel/mm/mm.c:514-535 | 2 MB entries, which are the kernel's, are passed over |
| PageTables.DropPdpt | kernel/mm/mm.c:506-536 | entries 1 to 3 of the first table, which are the kernel's, are passed over |
| PageTables.Grow | kernel/mm/mm.c:283-308 | hanging a blank page into an empty entry keeps the tables a tree without shared pages, whose inner entries restrict no rights |
| PageTables.PathIs | kernel/mm/mm.c:271-274 | different virtual pages have different index paths |
| PageTables.UserPageIs | kernel/mm/mm.c:455-487 | the pages outside the tables shared with the kernel: addresses up to 64 MB, and from 4 GB up to 2^47 |
| Bitmap.Alloc | kernel/vfs/ffs.c:65-80 | first fit after index 0, exactly the bits that change |
| Bitmap.Free | kernel/vfs/ffs.c:82-84 | clears that bit and no other |
| FfsVolume.Volume.AllocBlock | kernel/vfs/ffs.c:146-156 | zero exactly if the bitmap is full; inside the partition exactly if free_blocks is positive; the block is zeroed and counted |
| FfsVolume.Volume.FreeBlock | kernel/vfs/ffs.c:158-166 | out-of-range blocks are ignored, others are cleared and counted; free_blocks gets too large by one exactly for a block behind the partition |
| FfsVolume.Volume.FileBlock | kernel/vfs/ffs.c:191-223 | the block of an index, allocated on the way; no file changes; which slots gain a block, paid for out of free_blocks; fails only beyond the range or when the bitmap is full |
| FfsVolume.Volume.Lookup | kernel/vfs/ffs.c:191-223 | without allocation, the block or 0 |
| FfsVolume.Volume.Write | kernel/vfs/ffs.c:549-579 | the data, or a prefix when space runs out, is spliced into the contents; other files are unchanged; ownership and free_blocks stay exact; done within the partition exactly if the file may be so long and the blocks it lacks are free |
| FfsVolume.Volume.WriteChunk | kernel/vfs/ffs.c:556-572 | one turn of the write loop splices one chunk |
| FfsVolume.Volume.Read | kernel/vfs/ffs.c:517-547 | exactly the slice of the contents at the offset |
| FfsVolume.Volume.Truncate | kernel/vfs/ffs.c:482-501 | an empty file, no other changes; exactly its blocks become free, and free_blocks stays exact, if and only if they all lie in the partition |
| FfsVolume.Volume.Unlink | kernel/vfs/ffs.c:747-757 | the inode goes, no other file changes; exactly its blocks become free, and free_blocks stays exact, if and only if they all lie in the partition |
| FfsModel.Attached | kernel/vfs/ffs.c:191-223 | taking a fresh zeroed block into an empty slot keeps ownership exact and changes no contents |
| FfsModel.WordIs | kernel/vfs/ffs.c:213-222 | the pointers of an indirect block are little-endian words |
| FfsModel.WriteEffect | kernel/vfs/ffs.c:556-578 | storing into the block of a slot splices the contents and leaves other files alone |
| FfsModel.Released | kernel/vfs/ffs.c:747-757 | clearing a file's bits keeps ownership exact |
| FfsRelease.TrimmedSound | kernel/vfs/ffs.c:158-166 | after the blocks of a file are given back ownership is exact exactly if none is total_blocks or more behind the start of the data |
| FfsSpace.PaysTwice | kernel/vfs/ffs.c:146-156 | over any steps, the blocks taken lie in the partition exactly if they are at most the free ones before |
| FfsSpace.ClearBehind | kernel/vfs/ffs.c:65-80 | a sound volume in the partition has a clear bit for the block behind it |
| FfsDir.Find | kernel/vfs/ffs.c:237-267 | terminates; the record with the name, or none exactly if the block does not have it |
| FfsDir.Add | kernel/vfs/ffs.c:286-329 | succeeds exactly if some record has room; records still tile the block and exactly one entry is added |
| FfsDir.Remove | kernel/vfs/ffs.c:351-375 | exactly one entry of that name leaves the block |
| FfsDir.Reused | kernel/vfs/ffs.c:301-308 | a deleted record takes the entry |
| FfsDir.Divided | kernel/vfs/ffs.c:310-326 | a record in use is cut and its slack takes the entry |
| FfsDir.RecordIs | kernel/vfs/ffs.h:77-83 | where the fields of a record are: inode and record length little-endian, name length, kind, name |
| FfsDir.NeedIs | kernel/vfs/ffs.c:230-233 | the least multiple of four with room for header and name |
| FfsDirectory.Lookup | kernel/vfs/ffs.c:237-267 | an inode the name has, 0 exactly if the directory does not hold it |
| FfsDirectory.Add | kernel/vfs/ffs.c:273-345 | one entry more, in place or in a new block; fails only if no block has room and no further block can be had; done within the partition exactly if a block has room or the blocks it lacks are free |
| FfsDirectory.Remove | kernel/vfs/ffs.c:351-375 | one entry of the name less; false exactly if there is none; no block is taken |
| FfsDirectory.StillFunctional | kernel/vfs/ffs.c:273-375 | a directory stays a finite map from names |
| FfsFormat.Format | kernel/vfs/ffs.c:777-920 | fails exactly on partitions that are too small; else a sound volume in the partition with an empty root directory and the right free_blocks |
| FfsFormat.PlanRoomy | kernel/vfs/ffs.c:790-801 | inode bitmap, block bitmap and inode table follow the superblock without overlap, and each bit and each inode has its place in its part |
| FfsFormat.PlanLeast | kernel/vfs/ffs.c:790-801 | no layout with room for all of them has an earlier first data block |
| FfsFormat.InodePlace | kernel/vfs/ffs.c:122-141 | the 128 bytes of every inode lie in one block of the table, before the data |
| FfsFormat.InodeCountIs | kernel/vfs/ffs.c:785-788 | from 64 to 65535, one for eight blocks within these limits |
| FfsInodes.InodeMap.Alloc | kernel/vfs/ffs.c:168-175 | zero exactly if the bitmap is full; a number the inode table has exactly if free_inodes is positive; the lowest bit and no other is set and counted |
| FfsInodes.InodeMap.Free | kernel/vfs/ffs.c:177-183 | out-of-range numbers are ignored, others are cleared and counted |
| FfsFiles.TreeMake | kernel/vfs/ffs.c:440-475 | a fresh inode under a new name: names and inodes still correspond one to one, with an empty file more |
| FfsFiles.TreeDrop | kernel/vfs/ffs.c:724-759 | an entry and its inode gone: names and inodes still correspond one to one, with that file less |
| FfsRun.FileSystem.Create | kernel/vfs/ffs.c:440-475 | an empty file more, under an inode that was free and an entry of kind 1; done within the partition exactly if an inode is free and the directory entry fits; on failure inodes, bitmap and free_inodes are as before |
| FfsRun.FileSystem.Open | kernel/vfs/ffs.c:432-511 | a file that is there is found, and emptied if asked; one that is not is made, within the partition exactly if it may be created, the name is new, an inode is free and the directory entry fits |
| FfsRun.FileSystem.Save | kernel/vfs/ffs.c:432-597 | open, seek and write: the file of that name is spliced and no other changes |
| FfsRun.FileSystem.Unlink | kernel/vfs/ffs.c:724-759 | exactly that file goes, with its entry, inode and blocks; false exactly if there is no such file |
| FfsRun.FileSystem.Do | kernel/vfs/ffs.c:432-759 | each operation is done within the partition exactly if it fits, which the state before decides, and then acts as on a map from names to contents |
| FfsRun.FileSystem.Run | kernel/vfs/ffs.c:432-759 | for every sequence of operations, up to the first that does not fit: in every state of the run ownership, free_blocks, free_inodes, placement, inode bitmap and directory are exact, and the files are those of the same run on a map |
| FfsRun.Mkfs | kernel/vfs/ffs.c:777-920 | the formatted volume has no files and meets all these invariants |
| FfsRun.Session | kernel/vfs/ffs.c:432-920 | every run from a formatted volume on |
| FfsFull.NextBlock | kernel/vfs/ffs.c:146-156 | on a sound volume in the partition allocation never reports that it is full; the block is behind the partition exactly if free_blocks is zero |
| FfsFull.Fill | kernel/vfs/ffs.c:549-920 | every formatted volume that one file can fill, filled by one write: sound, in the partition and with free_blocks zero |
| FfsFull.Overrun | kernel/vfs/ffs.c:146-156 | 32 blocks formatted and filled: the next block is at or past 32 |
| RingProtocol.Safe | kernel/ipc/ringbuf.h:85-163 | in every state of every interleaving: popped is a prefix of pushed, at most slot_count items, never the same slot written and read |
| RingProtocol.StepInv | kernel/ipc/ringbuf.h:85-163 | every load, byte copy and store of either side keeps the invariant |
| RingProtocol.NoOverlap | kernel/ipc/ringbuf.h:85-163 | the slot being written is not the slot being read |
| RingProtocol.SlotIs | kernel/ipc/ringbuf.h:85-163 | index wrap at 2^64 does not move the slot |
| RingProtocol.Room | kernel/ipc/ringbuf.h:111-152 | the 32-bit arithmetic on wrapped indices gives the free and the used slots |
| RingBuffer.Init | kernel/ipc/ringbuf.h:52-71 | refuses exactly what is not a power of two, slots under 8 bytes and fewer than 2 slots |
| RingBuffer.Pow2Test | kernel/ipc/ringbuf.h:34-36 | the mask test holds exactly for powers of two |
| RingBuffer.Ringbuf.Push | kernel/ipc/ringbuf.h:85-100 | succeeds exactly if there is room and the item fits its slot; then the queue has that item more at its end, else it is unchanged |
| RingBuffer.Ringbuf.Pop | kernel/ipc/ringbuf.h:126-141 | succeeds exactly if the ring is not empty and the size fits; then it hands out the first item of the queue, which loses it |
| RingBuffer.Ringbuf.PushAll | kernel/ipc/ringbuf.h:104-122 | equals single pushes of the items one by one |
| RingBuffer.Ringbuf.PopAll | kernel/ipc/ringbuf.h:145-163 | equals single pops one by one |
| RingBuffer.PushBatchIsEach | kernel/ipc/ringbuf.h:104-122 | batch of the items that fit, for every length |
| RingBuffer.PopBatchIsEach | kernel/ipc/ringbuf.h:145-163 | likewise for pops |
| TcpReceive.Connection.constructor | kernel/net/net.c:782-821 | a connection waiting for the peer's SYN, with nothing received |
| TcpReceive.Connection.Receive | kernel/net/net.c:697-748 | whatever segment of the peer arrives, in whatever order: bytes handed out and held stay a prefix of the stream of the length rcv_nxt says, exactly if an in-order segment fits the ring; exactly when the connection is closed, established or in CLOSE_WAIT afterwards, and whether a FIN was the next in order |
| TcpReceive.Session | kernel/net/net.c:697-869 | for every stream and every sequence of arrivals, dropped, repeated or reordered, and reads: bytes handed out followed by bytes held are the stream up to what was accepted, until an in-order segment does not fit; after a reset no event changes state or bytes accepted |
| TcpReceive.Connection.Store | kernel/net/net.c:723-729 | as many bytes as fit enter the ring, in order |
| TcpReceive.Connection.Recv | kernel/net/net.c:847-869 | hands out the next bytes of the peer's stream; end of file means all of it exactly if the FIN was the next in order |
| TcpReceive.EarlyEnd | kernel/net/net.c:734-739 | for every stream that is not empty: SYN and FIN alone give end of file without a byte |
| TcpReceive.Flags | kernel/net/net.c:581-585 | FIN, SYN, RST and ACK are the bits 1, 2, 4 and 16 |
| TcpReceive.SameNumber | kernel/net/net.c:697-748 | sequence numbers modulo 2^32 tell apart offsets less than 2^32 apart |
| TcpReceive.RingFull | kernel/net/net.c:697-748 | the full test holds exactly with one byte less than the size |
| ServiceWaves.ComputeWaves | init/svcmgr.c:246-281 | terminates; -1 exactly if the known dependencies have a cycle; else every service is one above its highest dependency |
| ServiceWaves.Longest | init/svcmgr.c:246-281 | a wave is the length of the longest dependency chain |
| ServiceWaves.WaveBound | init/svcmgr.c:267 | waves are below the number of services, so they fit int8_t |
| ServiceWaves.StuckCycle | init/svcmgr.c:274-279 | a pass without change with services left means a cycle |
| ServiceWaves.Find | init/svcmgr.c:20-25 | the first service of the name |
| ServiceWaves.Scan | init/svcmgr.c:255-265 | all dependencies have waves and the highest is found, or one is waiting |
| ServiceWaves.LaunchWave | init/svcmgr.c:283-288 | exactly the services of the wave are attempted |
| ServiceWaves.LaunchAll | init/svcmgr.c:283-288 | each service is attempted once, after all its known dependencies |
| Passwd.RoundTrip | kernel/usr/usr.c:348-485 | loading a written table of distinct well-formed users restores it exactly if the first entry is the built-in root up to salt and hash and no entry has two flags |
| Passwd.ShellOfRoot | kernel/usr/usr.c:391-401 | another shell for root is written but not loaded |
| Passwd.TwoFlags | kernel/usr/usr.c:453-455 | an account that is in wheel and locked comes back unlocked |
| Passwd.ReachesRoot | kernel/usr/usr.c:379-401 | a line changes the first account, and then only its salt and hash, exactly if the low 16 bits of its number are zero |
| Passwd.SameAccount | kernel/usr/usr.c:379-380 | numbers stand for one account exactly if they agree in their low 16 bits |
| Passwd.AliasOfRoot | kernel/usr/usr.c:379-401 | for every salt and hash, the line for number 65536 sets those of root |
| Passwd.LoadedBuilt | kernel/usr/usr.c:348-407 | loading any text keeps root first and names and numbers distinct |
| Passwd.BuiltRoundTrip | kernel/usr/usr.c:348-485 | every well-formed table the kernel builds is restored but for second flags, and so exactly if it has none |
| Passwd.LoadPrinted | kernel/usr/usr.c:348-485 | into any table: the users of the file are merged one by one |
| Passwd.LineIs | kernel/usr/usr.c:427-481 | the fields of a line in their order, with the flag that is written |
| Passwd.SplitJoin | kernel/usr/usr.c:370-377 | the eight tokens of a printed line are read back |
| Passwd.ReadBack | kernel/usr/usr.c:308-315 | a token is read back with or without a blank before it |
| Passwd.AtouDec | kernel/usr/usr.c:53-58 | the decimal form of a 32-bit number is read back |
| Passwd.HexRoundTrip | kernel/usr/usr.c:334-416 | sixteen hexadecimal digits are read back |
| PasswdFile.Users.Load | kernel/usr/usr.c:348-407 | for every text the table and the count of the specification; root stays first and names and numbers distinct |
| PasswdFile.Users.Take | kernel/usr/usr.c:379-401 | a new user, or only salt and hash of the account with the same low 16 bits |
| PasswdFile.Users.Add | kernel/usr/usr.c:162-200 | refuses exactly a full table, a known number, a known name and no name; else one account more, and root first and names and numbers distinct as long as the stored name is new |
| PasswdFile.Users.ChangePassword | kernel/usr/usr.c:243-249 | only salt and hash of that account, and fails exactly if there is none |
| PasswdFile.Users.Write | kernel/usr/usr.c:418-485 | a buffer with room holds the printed table and its end mark |
| PasswdFile.ReadToken | kernel/usr/usr.c:308-315 | cursor and token of the specification |
| PasswdFile.FormatHex | kernel/usr/usr.c:409-416 | the sixteen digits, from the last to the first |

## Left out

- MontgomeryLadder.ScalarMultiple: on coordinates; that the two formulas are the group law of the curve, and that the power p - 2 is the inverse modulo p, is not proved.
- X25519.X25519: timing, the erasure of secrets and the shared-secret checks of callers are not modelled.
- TLS handshake, ChaCha20, HMAC, HKDF, DNS, ARP and HTTP: plumbing or straight-line code beside the three algorithms above.
- RbCode.Forest.Insert: nodes are numbers in a table of processes instead of addresses; the tree a root stands for is a ghost argument.
- RunQueue.Scheduler.Enqueue: queue operations are atomic, the locks are not modelled; a process is not queued twice; classes are the three defined ones; there are at most 256 CPUs, so the 8-bit field does not truncate.
- RunQueue.Scheduler.Takeoff: a queued process is taken off the CPU it is queued on, as the callers do.
- Context switches, ticks, sleeping and process creation: assembly, clocks and device effects.
- BuddyAllocator.PhysMemory.Free: the block is live and is freed with the order it was allocated with; addresses are page numbers; list links in free pages are sequences here.
- BuddyAllocator.HistoryIndependent: for a pool seeded by one range; ranges seeded one by one are not merged across their border by the code.
- The early bump allocator, the memory map scan and the slab layer: the first two only prepare the pool; the slab layer finds two-page slabs by a heuristic.
- AddressSpace.Space.MapPage: addresses outside the window shared with the kernel (64 MB to 4 GB, and the upper half), as user mappings are; entries are records of page number and flags instead of 64-bit words.
- AddressSpace.Create: the kernel maps its low memory from 64 MB on by 2 MB pages, as amm_kernel_pml4_init sets it up; the failing calls leave the pages they took allocated, as the code does.
- Region lists, shared memory segments and the page-fault region check: bookkeeping beside the page tables.
- FfsVolume.Volume.Write: the device does not fail, offsets are at most the size, one open context per inode, the inode table is a map and its flushing is not modelled; mode bits are not checked.
- FfsDirectory.Add: names are at most 255 bytes; on failure the caller does not write the inode back, so an indirect block allocated on the way stays marked.
- FfsDir.Add: the branch for a record length of zero is not reached, because records always tile a block.
- FfsFormat.Format: superblock and inode table encodings are not modelled; the block device is a sequence with a block for each bitmap index.
- FfsRun.FileSystem.Run: files of the root directory under names of at most 255 bytes, one operation at a time, each opening the file anew; the run also stops after an operation that took a block behind the partition, which it finds by looking at the blocks of the file; writes start at or before the end of the file; after an operation that fails, which can leave an inode or an indirect block marked, nothing is promised.
- FfsRun.FileSystem.Open: truncating the empty file just made changes nothing and is not repeated.
- FfsFull.Fill: the file has an inode and no name, which needs no block; volumes that take more than one file to fill are not filled.
- Walking of longer paths, mkdir, readdir, stat, mount and FAT32: path walking leaves the parent at the last existing directory, the others add only easy members.
- RingProtocol.Safe: one item size for both sides, sequentially consistent steps in the order the acquire and release operations give.
- TcpReceive.Connection.Receive: until the local close, with segments of the peer less than 2^32 bytes away; checksums, demultiplexing, sending and retransmission are not modelled; an overfull ring drops bytes but acknowledges them, which is the only way out of step.
- TcpReceive.Session: every segment is of the peer and ends less than 2^32 bytes beyond what was received when it arrives, so that its number tells its place.
- ServiceWaves.LaunchAll: what svc_launch leaves behind is a parameter; at most 64 services, as the table holds.
- Passwd.RoundTrip: fields are not empty, have no white space and fit their buffers, names do not start with '#'; groups and member masks are not modelled; random salts are a parameter.
- PasswdFile.Users.Add: a name of 32 bytes or more is stored cut, so the stored name can be one that is there; the contract says when.
- PasswdFile.Users.Write: for a buffer with room for the text and its end mark.
